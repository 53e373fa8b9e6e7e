/**
 Handing frames to the W5500: its transmit memory, the pointer the driver writes behind
 (TX_WR) and the one the chip sends from, and `w5500_start_tx` over them. SEND puts on the air
 what lies between the two.
 */
module W5500TxChip {
  import opened Words
  import opened RingBuffer
  import opened W5500Mem

  /**
   What `w5500_reopen_socket` does: whether it reports success, and of the chip, whether it
   stops sending, takes SIR_SEND down, and has both pointers at `at` afterwards.
   */
  datatype Reopening = Reopening(ok: bool, stopped: bool, cleared: bool, emptied: bool, at: u16)

  /** What the chip and the SPI bus do during one call: each transfer succeeds or fails. */
  datatype Spi = Spi(
    free: bool, reopening: Reopening, freeAgain: bool, readWr: bool, write: bool, writeWr: bool, send: bool)

  /** A frame without room makes the driver reopen the socket. */
  predicate Reopens(len: nat, used: nat, spi: Spi) {
    spi.free && len + used > MEM
  }

  /** That empties the memory. */
  predicate Empties(len: nat, used: nat, spi: Spi) {
    Reopens(len, used, spi) && spi.reopening.emptied
  }

  /** There is room, at once or after that. */
  predicate Fits(len: nat, used: nat, spi: Spi) {
    && spi.free
    && (len + used <= MEM
        || (spi.reopening.ok && spi.freeAgain && len + (if Empties(len, used, spi) then 0 else used) <= MEM))
  }

  /** The frame is in the memory and TX_WR behind it. */
  predicate Moves(len: nat, used: nat, spi: Spi) {
    Fits(len, used, spi) && spi.readWr && spi.write && spi.writeWr
  }

  /** The frame is on the air. */
  predicate Sends(len: nat, used: nat, spi: Spi) {
    Moves(len, used, spi) && spi.send
  }

  /** The bytes between the pointers, and what SEND put on the air. */
  datatype Memory = Memory(left: seq<u8>, aired: seq<seq<u8>>)

  /** What is in the memory before the frame. */
  function Ahead(left: seq<u8>, bytes: seq<u8>, spi: Spi): seq<u8> {
    if Empties(|bytes|, |left|, spi) then [] else left
  }

  /** `w5500_start_tx`. */
  function Started(m: Memory, bytes: seq<u8>, spi: Spi): Memory {
    var ahead := Ahead(m.left, bytes, spi);
    Memory(if Moves(|bytes|, |m.left|, spi) then ahead + bytes else ahead,
           m.aired + if Sends(|bytes|, |m.left|, spi) then [ahead + bytes] else [])
  }

  class TxChip {
    const mem: array<u8>
    var rd: u16
    var wr: u16
    var aired: seq<seq<u8>>

    predicate Valid()
      reads this
    {
      mem.Length == MEM && Sub16(wr, rd) <= MEM
    }

    /** The bytes between the pointers: what SEND takes. */
    function Left(): (s: seq<u8>)
      reads this, mem
      requires Valid()
    {
      Window(mem[..], Pos(rd), Sub16(wr, rd))
    }

    ghost function Value(): Memory
      reads this, mem
      requires Valid()
    {
      Memory(Left(), aired)
    }

    constructor ()
      ensures Valid() && Value() == Memory([], []) && fresh(mem)
    {
      mem := new u8[MEM];
      rd, wr, aired := 0, 0, [];
    }

    /** The chip has sent: its pointer catches up. */
    method Complete()
      requires Valid()
      modifies this`rd
      ensures Valid() && Value() == old(Value()).(left := [])
    {
      rd := wr;
    }

    /** `w5500_reopen_socket`, as far as the memory goes. */
    method Reopen(r: Reopening)
      requires Valid()
      modifies this`rd, this`wr
      ensures Valid() && Value() == if r.emptied then old(Value()).(left := []) else old(Value())
    {
      if r.emptied {
        rd, wr := r.at, r.at;
      }
    }

    /** TX_FSR. */
    method FreeSize() returns (n: nat)
      requires Valid()
      ensures n == MEM - |Left()|
    {
      WindowLength(mem[..], Pos(rd), Sub16(wr, rd));
      n := MEM - Sub16(wr, rd);
    }

    /** Writing a frame behind TX_WR and moving TX_WR behind it. */
    method Push(bytes: seq<u8>)
      requires Valid() && |Left()| + |bytes| <= MEM
      modifies this`wr, mem
      ensures Valid() && Left() == old(Left()) + bytes
    {
      ghost var before, used := mem[..], Sub16(wr, rd);
      WindowLength(before, Pos(rd), used);
      PosAdd(rd, used);
      Between(rd, wr);
      AddTwice(rd, used, |bytes|);
      hide Window, Written, Pos;
      var next := CopyWrapped(mem, Pos(wr), bytes);
      WrittenExtends(before, mem[..], Pos(rd), used, bytes);
      wr := Add16(wr, |bytes|);
      Between(rd, wr);
    }

    /** Room for a frame, if need be after reopening the socket. */
    method MakeRoom(len: nat, spi: Spi) returns (ok: bool, again: bool)
      requires Valid()
      modifies this`rd, this`wr
      ensures Valid() && aired == old(aired)
      ensures again == Reopens(len, |old(Left())|, spi) && ok == Fits(len, |old(Left())|, spi)
      ensures Left() == if Empties(len, |old(Left())|, spi) then [] else old(Left())
      ensures ok ==> |Left()| + len <= MEM
    {
      if !spi.free {
        return false, false;
      }
      var n := FreeSize();
      hide Window, Pos;
      again := false;
      if len > n {
        again := true;
        Reopen(spi.reopening);
        if !spi.reopening.ok || !spi.freeAgain {
          return false, again;
        }
        n := FreeSize();
        if len > n {
          return false, again;
        }
      }
      return true, again;
    }

    /** `w5500_start_tx`: `again` when the socket was reopened on the way. */
    method StartTx(bytes: seq<u8>, spi: Spi) returns (ok: bool, again: bool)
      requires Valid()
      modifies this, mem
      ensures Valid() && Value() == Started(old(Value()), bytes, spi)
      ensures ok == Sends(|bytes|, |old(Left())|, spi) && again == Reopens(|bytes|, |old(Left())|, spi)
    {
      hide Window, Fits, Reopens;
      ghost var m := Value();
      assert m.aired + [] == m.aired;
      ok, again := MakeRoom(|bytes|, spi);
      if !ok || !spi.readWr || !spi.write || !spi.writeWr {
        return false, again;
      }
      Push(bytes);
      if !spi.send {
        return false, again;
      }
      aired := aired + [Left()];
      return true, again;
    }
  }

  lemma Between(rd: u16, wr: u16)
    ensures wr == Add16(rd, Sub16(wr, rd))
    ensures forall n: nat :: n < M16 ==> Sub16(Add16(rd, n), rd) == n
  {
  }

  /** On a working bus, with a chip whose reopening empties the memory, every frame that fits the memory at all is sent. */
  lemma HealthySends(m: Memory, bytes: seq<u8>, spi: Spi)
    requires spi.free && spi.freeAgain && spi.readWr && spi.write && spi.writeWr && spi.send
    requires spi.reopening.ok && spi.reopening.emptied && |bytes| <= MEM
    ensures Started(m, bytes, spi).aired ==
      m.aired + [if |bytes| + |m.left| <= MEM then m.left + bytes else bytes]
  {
    assert [] + bytes == bytes;
  }

  /** And none is sent over a full memory, or past a transfer that fails. */
  lemma UnhealthyDoesNot(m: Memory, bytes: seq<u8>, spi: Spi)
    requires |bytes| > MEM || (|bytes| + |m.left| > MEM && !(spi.reopening.ok && spi.reopening.emptied && spi.freeAgain))
      || !spi.free || !spi.readWr || !spi.write || !spi.writeWr || !spi.send
    ensures Started(m, bytes, spi).aired == m.aired
  {
    assert m.aired + [] == m.aired;
  }

  // ----- sequences of calls -----

  datatype Op = Hand(bytes: seq<u8>, spi: Spi) | Done | Renew(r: Reopening)

  /** The memory, and the frames whose start reported success. */
  datatype Air = Air(mem: Memory, recorded: seq<seq<u8>>)

  predicate Works(m: Memory, o: Op) {
    o.Hand? && Sends(|o.bytes|, |m.left|, o.spi)
  }

  function Do(a: Air, o: Op): Air {
    match o
    case Hand(bytes, spi) =>
      Air(Started(a.mem, bytes, spi), a.recorded + if Works(a.mem, o) then [bytes] else [])
    case Done => a.(mem := a.mem.(left := []))
    case Renew(r) => if r.emptied then a.(mem := a.mem.(left := [])) else a
  }

  ghost predicate Calls(ss: seq<Air>, os: seq<Op>) {
    && |ss| == |os| + 1 && ss[0] == Air(Memory([], []), [])
    && forall i :: 0 <= i < |os| ==> ss[i + 1] == Do(ss[i], os[i])
  }

  /** Some bytes were put into the memory. */
  predicate Fills(m: Memory, o: Op) {
    o.Hand? && o.bytes != [] && Moves(|o.bytes|, |m.left|, o.spi)
  }

  /** What lay in the memory is gone: sent, or dropped by a reopening. */
  predicate Clears(m: Memory, o: Op) {
    match o
    case Hand(bytes, spi) => Empties(|bytes|, |m.left|, spi)
    case Done => true
    case Renew(r) => r.emptied
  }

  /** Step `i` put bytes into the memory, and nothing cleared it from then up to step `k`. */
  ghost predicate Stays(ss: seq<Air>, os: seq<Op>, i: nat, k: nat)
    requires |ss| == |os| + 1 && k <= |os|
  {
    i < k && Fills(ss[i].mem, os[i]) && forall j :: i < j < k ==> !Clears(ss[j].mem, os[j])
  }

  /** Some start before step `k` put bytes into the memory, and they stay. */
  ghost predicate Lies(ss: seq<Air>, os: seq<Op>, k: nat)
    requires |ss| == |os| + 1 && k <= |os|
  {
    exists i: nat :: Stays(ss, os, i, k)
  }

  /** Bytes lie in the memory exactly when some start put them there and nothing cleared it since. */
  lemma {:induction false} LeftIff(ss: seq<Air>, os: seq<Op>, k: nat)
    requires Calls(ss, os) && k <= |os|
    ensures ss[k].mem.left != [] <==> Lies(ss, os, k)
  {
    if k > 0 {
      LeftIff(ss, os, k - 1);
      var m, o := ss[k - 1].mem, os[k - 1];
      assert ss[k] == Do(ss[k - 1], o);
      assert ss[k].mem.left != [] <==> Fills(m, o) || (m.left != [] && !Clears(m, o));
      hide Do, Fills, Clears, Calls;
      StaysOn(ss, os, k);
    }
  }

  lemma StaysOn(ss: seq<Air>, os: seq<Op>, k: nat)
    requires |ss| == |os| + 1 && 0 < k <= |os|
    ensures Lies(ss, os, k) <==>
      Fills(ss[k - 1].mem, os[k - 1]) || (Lies(ss, os, k - 1) && !Clears(ss[k - 1].mem, os[k - 1]))
  {
    hide Fills, Clears;
    var p := k - 1;
    if Fills(ss[p].mem, os[p]) {
      assert Stays(ss, os, p, k);
    }
    if Lies(ss, os, p) && !Clears(ss[p].mem, os[p]) {
      var i: nat :| Stays(ss, os, i, p);
      assert Stays(ss, os, i, k);
    }
    if i: nat :| Stays(ss, os, i, k) && i != p {
      assert Stays(ss, os, i, p);
    }
  }

  /** A frame that goes out behind bytes still in the memory. */
  ghost predicate Joined(ss: seq<Air>, os: seq<Op>, i: nat, j: nat)
    requires |ss| == |os| + 1
  {
    j < |os| && Stays(ss, os, i, j) && Works(ss[j].mem, os[j]) && !Clears(ss[j].mem, os[j])
  }

  /** One more start: what is on the air stays the frames recorded exactly when nothing lay ahead of the new one. */
  lemma StartIff(a: Air, o: Op)
    requires |a.mem.aired| == |a.recorded|
    ensures var b := Do(a, o);
      && |b.mem.aired| == |b.recorded|
      && (b.mem.aired == b.recorded <==>
            a.mem.aired == a.recorded && (Works(a.mem, o) && !Clears(a.mem, o) ==> a.mem.left == []))
  {
    if Works(a.mem, o) {
      var ahead := Ahead(a.mem.left, o.bytes, o.spi);
      var b := Do(a, o);
      var n := |a.recorded|;
      assert b.mem.aired == a.mem.aired + [ahead + o.bytes] && b.recorded == a.recorded + [o.bytes];
      hide Works, Started, Ahead, Clears, Do;
      assert b.mem.aired[..n] == a.mem.aired && b.recorded[..n] == a.recorded;
      assert b.mem.aired[n] == ahead + o.bytes && b.recorded[n] == o.bytes;
      assert |ahead + o.bytes| == |ahead| + |o.bytes|;
      assert ahead == [] ==> ahead + o.bytes == o.bytes;
    } else {
      assert a.mem.aired + [] == a.mem.aired && a.recorded + [] == a.recorded;
    }
  }

  /**
   Over every sequence of starts, completions and reopenings, what was aired is the frames
   recorded as sent if and only if no successful start follows one that put bytes into the
   memory, with nothing in between, the start's own reopening included, that clears it.
   */
  lemma {:induction false} AiredIff(ss: seq<Air>, os: seq<Op>, k: nat)
    requires Calls(ss, os) && k <= |os|
    ensures |ss[k].mem.aired| == |ss[k].recorded|
    ensures ss[k].mem.aired == ss[k].recorded <==> forall i: nat, j: nat :: j < k ==> !Joined(ss, os, i, j)
  {
    if k > 0 {
      AiredIff(ss, os, k - 1);
      LeftIff(ss, os, k - 1);
      StartIff(ss[k - 1], os[k - 1]);
      assert ss[k] == Do(ss[k - 1], os[k - 1]);
      hide Do, Works, Clears, Stays, Lies, Calls;
      JoinedOn(ss, os, k);
    }
  }

  lemma JoinedOn(ss: seq<Air>, os: seq<Op>, k: nat)
    requires |ss| == |os| + 1 && 0 < k <= |os|
    ensures (forall i: nat, j: nat :: j < k ==> !Joined(ss, os, i, j)) <==>
      (forall i: nat, j: nat :: j < k - 1 ==> !Joined(ss, os, i, j))
      && (Works(ss[k - 1].mem, os[k - 1]) && !Clears(ss[k - 1].mem, os[k - 1]) ==>
            !Lies(ss, os, k - 1))
  {
    hide Works, Clears, Stays;
    var p := k - 1;
    if Lies(ss, os, p) && Works(ss[p].mem, os[p]) && !Clears(ss[p].mem, os[p]) {
      var i: nat :| Stays(ss, os, i, p);
      assert Joined(ss, os, i, p);
    }
    assert forall i: nat, j: nat :: Joined(ss, os, i, j) && j == p ==> Lies(ss, os, p);
  }

  /** A SEND command that fails after TX_WR has moved leaves its frame behind: the next goes out joined to it. */
  method FailedSendJoins(chip: TxChip, a: seq<u8>, b: seq<u8>, first: Spi, second: Spi) returns (ok1: bool, ok2: bool)
    requires chip.Valid() && chip.Left() == [] && |a| + |b| <= MEM
    requires Moves(|a|, 0, first) && !first.send && Sends(|b|, |a|, second)
    modifies chip, chip.mem
    ensures !ok1 && ok2 && chip.aired == old(chip.aired) + [a + b]
  {
    var again;
    ok1, again := chip.StartTx(a, first);
    assert chip.Left() == a && chip.aired == old(chip.aired);
    ok2, again := chip.StartTx(b, second);
  }
}
