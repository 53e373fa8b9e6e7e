/**
 The W5500's receive memory and the driver code that empties it: 16-bit pointers over a
 16 KiB circular memory, frames behind a two-byte length. It does what `W5500RxSpec` says.
 */
module W5500Rx {
  import opened Words
  import opened Wrappers
  import opened RingBuffer
  import opened W5500Mem
  import opened W5500RxSpec

  /** `emac_w5500_auto_buf_info_t`. */
  datatype Info = Info(offset: u16, copyLen: u16, rxLen: u16, remain: u16)

  datatype Ret = Ok | InvalidSize | NoMem

  // ----- the layout of frames -----

  /** A frame in the memory: its length with the two length bytes, high byte first, then itself. */
  function Encode(f: seq<u8>): (r: seq<u8>)
    requires |f| + 2 < M16
    ensures |r| == |f| + 2
  {
    [(|f| + 2) / 0x100, (|f| + 2) % 0x100] + f
  }

  predicate Storable(fs: seq<seq<u8>>) {
    forall i :: 0 <= i < |fs| ==> |fs[i]| + 2 < M16
  }

  function Encoded(fs: seq<seq<u8>>): (r: seq<u8>)
    requires Storable(fs)
    ensures |r| == Size(fs)
  {
    if fs == [] then [] else Encoded(fs[..|fs| - 1]) + Encode(fs[|fs| - 1])
  }

  lemma EncodedSnoc(fs: seq<seq<u8>>, f: seq<u8>)
    requires Storable(fs) && |f| + 2 < M16
    ensures Storable(fs + [f]) && Encoded(fs + [f]) == Encoded(fs) + Encode(f)
  {
    assert (fs + [f])[..|fs|] == fs;
  }

  lemma {:induction false} EncodedCons(fs: seq<seq<u8>>)
    requires Storable(fs) && fs != []
    ensures Encoded(fs) == Encode(fs[0]) + Encoded(fs[1..])
  {
    if |fs| > 1 {
      var n := |fs| - 1;
      EncodedCons(fs[..n]);
      assert fs[..n][1..] == fs[1..][..n - 1] && fs[1..][n - 1] == fs[n];
      hide Encode;
    } else {
      assert fs[..0] == [] && fs[1..] == [];
    }
  }

  /** The first frame lies whole at the front. */
  lemma Front(fs: seq<seq<u8>>)
    requires Storable(fs) && fs != []
    ensures |fs[0]| + 2 <= Size(fs)
    ensures Encoded(fs)[..2] == Encode(fs[0])[..2]
    ensures Encoded(fs)[2..|fs[0]| + 2] == fs[0]
    ensures Encoded(fs)[|fs[0]| + 2..] == Encoded(fs[1..])
    ensures Size(fs) - (|fs[0]| + 2) == Size(fs[1..])
  {
    EncodedCons(fs);
    SizeCons(fs);
    var e, rest := Encode(fs[0]), Encoded(fs[1..]);
    hide Encode, Encoded;
    assert (e + rest)[..2] == e[..2];
    assert (e + rest)[2..|e|] == e[2..];
    assert (e + rest)[|e|..] == rest;
    assert e[2..] == fs[0] by {
      EncodePayload(fs[0]);
    }
  }

  lemma EncodePayload(f: seq<u8>)
    requires |f| + 2 < M16
    ensures Encode(f)[2..] == f
  {
  }

  /** `__builtin_bswap16` of two bytes loaded as a little-endian word. */
  function Number(b: seq<u8>): (r: u16)
    requires |b| >= 2
  {
    var hi: int := b[0];
    var lo: int := b[1];
    hi * 0x100 + lo
  }

  /** The length field reads back. */
  lemma Header(f: seq<u8>)
    requires |f| + 2 < M16
    ensures Number(Encode(f)) == |f| + 2
  {
  }

  lemma SizeZero(fs: seq<seq<u8>>)
    ensures Size(fs) == 0 <==> fs == []
  {
  }

  /** A frame written behind the others extends what the memory holds. */
  lemma Stored(before: seq<u8>, after: seq<u8>, start: nat, p: seq<seq<u8>>, f: seq<u8>)
    requires |before| == MEM && start < MEM && Storable(p) && |f| + 2 < M16 && Size(p) + |f| + 2 <= MEM
    requires Window(before, start, Size(p)) == Encoded(p)
    requires Written(before, after, Wrap(start + Size(p), MEM), Encode(f))
    ensures Storable(p + [f]) && Size(p + [f]) == Size(p) + |f| + 2
    ensures |after| == MEM && Window(after, start, Size(p + [f])) == Encoded(p + [f])
  {
    assert |Encode(f)| == |f| + 2;
    WrittenExtends(before, after, start, Size(p), Encode(f));
    EncodedSnoc(p, f);
    SizeSnoc(p, f);
    assert |after| == MEM;
    hide Encode, Encoded, Window, Written, Size;
  }

  /** The front frame can be read through the wrapping pointer: its length, then any part of it. */
  lemma FrontInMemory(m: seq<u8>, rd: u16, p: seq<seq<u8>>, k: nat)
    requires |m| == MEM && Storable(p) && p != [] && Size(p) <= MEM
    requires Window(m, Pos(rd), Size(p)) == Encoded(p) && k <= |p[0]|
    ensures k + 2 <= MEM && |Window(m, Pos(rd), 2)| == 2
    ensures Number(Window(m, Pos(rd), 2)) == |p[0]| + 2
    ensures Window(m, Pos(Add16(rd, 2)), k) == p[0][..k]
  {
    Front(p);
    SubWindow(m, Pos(rd), Size(p), 0, 2);
    SubWindow(m, Pos(rd), Size(p), 2, 2 + k);
    PosAdd(rd, 2);
    Header(p[0]);
    var e := Encoded(p);
    hide Window, Encode, Encoded, Size, Pos, Add16;
    assert Encode(p[0])[..2][0] == Encode(p[0])[0] && Encode(p[0])[..2][1] == Encode(p[0])[1];
    assert e[2..2 + k] == e[2..|p[0]| + 2][..k];
  }

  /** Past the front frame lie the others. */
  lemma Advance(m: seq<u8>, rd: u16, p: seq<seq<u8>>)
    requires |m| == MEM && Storable(p) && p != [] && Size(p) <= MEM
    requires Window(m, Pos(rd), Size(p)) == Encoded(p)
    ensures Storable(p[1..]) && |p[0]| + 2 <= Size(p) && Size(p[1..]) == Size(p) - (|p[0]| + 2)
    ensures Window(m, Pos(Add16(rd, |p[0]| + 2)), Size(p[1..])) == Encoded(p[1..])
    ensures Add16(Add16(rd, |p[0]| + 2), Size(p[1..])) == Add16(rd, Size(p))
  {
    hide Window, Encode, Encoded, Size, Pos, Add16;
    Front(p);
    SubWindow(m, Pos(rd), Size(p), |p[0]| + 2, Size(p));
    PosAdd(rd, |p[0]| + 2);
    AddTwice(rd, |p[0]| + 2, Size(p[1..]));
    var e := Encoded(p);
    assert e[|p[0]| + 2..Size(p)] == e[|p[0]| + 2..];
  }

  /** How much of a frame is copied. */
  function Cut(len: u16): u16 {
    if len > MAX_FRAME then MAX_FRAME else len
  }

  /** The front frame leaves the chip; whether it is passed up is for the driver's loop to do. */
  function Off(c: Chip, deliver: bool, remain: bool): Chip {
    c.(fates := c.fates + [deliver], remain := remain)
  }

  lemma {:induction false} ArriveAllSets(c: Chip, fs: seq<seq<u8>>, remain: bool)
    ensures ArriveAll(c.(remain := remain), fs) == ArriveAll(c, fs).(remain := remain)
  {
    if fs != [] {
      ArriveAllSets(c, fs[..|fs| - 1], remain);
    }
  }

  lemma PendingOff(c: Chip, deliver: bool, remain: bool)
    requires Pending(c) != []
    ensures Pending(Off(c, deliver, remain)) == Pending(c)[1..]
  {
  }

  lemma SamePending(c: Chip, c': Chip)
    requires c'.heard == c.heard && c'.fates == c.fates
    ensures Pending(c') == Pending(c)
  {
  }

  /** Bytes are left behind the front frame exactly when another frame is. */
  lemma SizeRest(p: seq<seq<u8>>)
    requires p != []
    ensures |p[0]| + 2 <= Size(p) && (Size(p) > |p[0]| + 2 <==> |p| > 1)
  {
    SizeCons(p);
    SizeZero(p[1..]);
  }

  /** The front frame stays in front while others arrive behind it. */
  lemma Fronts(c: Chip, c1: Chip, c2: Chip, w: Weather)
    requires Whole(c) && Mild(w) && c1 == ArriveAll(c, w.first) && c2 == ArriveAll(c1, w.second)
    ensures Whole(c1) && Whole(c2) && Pending(c1) <= Pending(c2) <= Pending(ArriveAll(c2, w.third))
    ensures Pending(c1) != [] ==> |Pending(c1)[0]| >= MIN_FRAME
    ensures Pending(c1) != [] ==> |Pending(c1)[0]| + 2 <= Size(Pending(c1))
    ensures Pending(c1) != [] ==> (Size(Pending(c1)) > |Pending(c1)[0]| + 2 <==> |Pending(c1)| > 1)
  {
    ArriveAllKeeps(c, w.first);
    ArriveAllKeeps(c1, w.second);
    ArriveAllKeeps(c2, w.third);
    assert Pending(c1) != [] ==> Pending(c1)[0] == c1.heard[|c1.fates|];
    if Pending(c1) != [] {
      SizeRest(Pending(c1));
    }
    hide Whole, Pending, Size;
  }

  /** The pass that takes the front frame, as the steps of the driver. */
  lemma TurnTaken(c: Chip, w: Weather)
    requires Whole(c) && Mild(w) && Pending(ArriveAll(c, w.first)) != []
    ensures var c1 := ArriveAll(c, w.first);
      var c2 := ArriveAll(c1, w.second);
      var c3 := ArriveAll(c2, w.third);
      var f := Pending(c1)[0];
      var off := Off(c3, w.granted && |f| <= MAX_FRAME, if w.granted then |Pending(c1)| > 1 else |Pending(c2)| > 1);
      Turn(c, w) == if w.granted && |f| <= MAX_FRAME then off.(up := off.up + [f]) else off
  {
    var c1 := ArriveAll(c, w.first);
    var c2 := ArriveAll(c1, w.second);
    Fronts(c, c1, c2, w);
    hide ArriveAll, Whole, Pending;
  }

  lemma HeadMild(ws: seq<Weather>)
    requires AllMild(ws)
    ensures Mild(Head(ws)) && AllMild(Tail(ws))
  {
  }

  lemma PendingHeard(c: Chip, c': Chip, f: seq<u8>)
    requires |c.fates| <= |c.heard| && c'.fates == c.fates && c'.heard == c.heard + [f]
    ensures Pending(c') == Pending(c) + [f]
  {
  }

  class Emac {
    // the chip's side
    const mem: array<u8>
    var rd: u16
    var wr: u16
    var sir: bool
    // the driver's side
    var packetsRemain: bool
    var up: seq<seq<u8>>
    // what was heard, and what became of the frames taken
    ghost var heard: seq<seq<u8>>
    ghost var fates: seq<bool>

    ghost function State(): Chip
      reads this
    {
      Chip(heard, fates, up, sir, packetsRemain)
    }

    /** The memory from the read pointer on holds the frames not yet taken. */
    ghost predicate Valid()
      reads this, mem
    {
      var p := Pending(State());
      && mem.Length == MEM && |fates| <= |heard|
      && Storable(p) && Size(p) <= MEM
      && wr == Add16(rd, Size(p))
      && Window(mem[..], Pos(rd), Size(p)) == Encoded(p)
    }

    constructor ()
      ensures Valid() && State() == Chip([], [], [], false, false) && fresh(mem)
    {
      mem := new u8[MEM];
      rd, wr, sir, packetsRemain, up := 0, 0, false, false, [];
      heard, fates := [], [];
    }

    // ----- the chip -----

    /** RX_RSR. */
    method ReceivedSize() returns (n: u16)
      requires Valid()
      ensures n == Size(Pending(State()))
      ensures n == 0 <==> Pending(State()) == []
    {
      SizeZero(Pending(State()));
      n := Sub16(wr, rd);
    }

    /** Reading the memory from a 16-bit pointer on, byte by byte. */
    method ReadBuffer(at: u16, len: nat) returns (out: seq<u8>)
      requires mem.Length == MEM && len <= MEM
      ensures out == Window(mem[..], Pos(at), len)
    {
      out := [];
      WindowLength(mem[..], Pos(at), len);
      for i := 0 to len
        invariant |out| == i && out == Window(mem[..], Pos(at), len)[..i]
      {
        PosAdd(at, i);
        WindowAt(mem[..], Pos(at), len, i);
        var b := mem[Pos(Add16(at, i))];
        out := out + [b];
      }
    }

    /** A frame arrives. */
    method Hear(f: seq<u8>)
      requires Valid()
      modifies this, mem
      ensures Valid() && State() == Arrive(old(State()), f)
      ensures rd == old(rd)
    {
      hide Encode, Encoded, Window, Written, Size, Pos, Add16, Storable;
      var used := ReceivedSize();
      if used + |f| + 2 <= MEM {
        Store(f);
      }
    }

    /** The chip writes a frame for which there is room. */
    method Store(f: seq<u8>)
      requires Valid() && Size(Pending(State())) + |f| + 2 <= MEM
      modifies this, mem
      ensures Valid() && State() == old(State()).(heard := old(State()).heard + [f], sir := true)
      ensures rd == old(rd)
    {
      hide Encode, Encoded, Window, Written, Size, Pos, Storable, Add16;
      ghost var p := Pending(State());
      ghost var n := Size(p);
      ghost var before := mem[..];
      PosAdd(rd, n);
      AddTwice(rd, n, |f| + 2);
      var next := CopyWrapped(mem, Pos(wr), Encode(f));
      Stored(before, mem[..], Pos(rd), p, f);
      wr := Add16(wr, |f| + 2);
      heard := heard + [f];
      sir := true;
      PendingHeard(old(State()), State(), f);
      hide Pending;
    }

    method HearAll(fs: seq<seq<u8>>)
      requires Valid()
      modifies this, mem
      ensures Valid() && State() == ArriveAll(old(State()), fs)
      ensures rd == old(rd)
    {
      for i := 0 to |fs|
        invariant Valid() && State() == ArriveAll(old(State()), fs[..i]) && rd == old(rd)
      {
        assert fs[..i + 1][..i] == fs[..i];
        hide Arrive;
        Hear(fs[i]);
      }
      assert fs[..|fs|] == fs;
    }

    // ----- the driver -----

    /** `emac_w5500_alloc_recv_buf` for frames up to `MAX_FRAME`; `granted` is the outcome of `malloc`. */
    method AllocRecvBuf(granted: bool) returns (ret: Ret, info: Option<Info>, length: u16)
      requires Valid()
      ensures Pending(State()) == [] ==> ret == Ok && info == None && length == 0
      ensures Pending(State()) != [] ==> length == |Pending(State())[0]|
      ensures Pending(State()) != [] && length < MIN_FRAME ==> ret == InvalidSize && info == None
      ensures Pending(State()) != [] && length >= MIN_FRAME && granted ==>
        ret == Ok && info == Some(Info(rd, Cut(length), length, Size(Pending(State()))))
      ensures Pending(State()) != [] && length >= MIN_FRAME && !granted ==> ret == NoMem && info == None
    {
      hide Encode, Encoded, Window, Size, Pos, Add16;
      var remain := ReceivedSize();
      if remain == 0 {
        return Ok, None, 0;
      }
      FrontInMemory(mem[..], rd, Pending(State()), 0);
      var offset := rd;
      var head := ReadBuffer(offset, 2);
      var rxLen := Sub16(Number(head), 2);
      var copyLen := Cut(rxLen);
      if copyLen < MIN_FRAME {
        return InvalidSize, None, rxLen;
      }
      if granted {
        return Ok, Some(Info(offset, copyLen, rxLen, remain)), rxLen;
      }
      return NoMem, None, rxLen;
    }

    /** Writing RX_RD past the front frame and issuing RECV. */
    method Release(offset: u16, deliver: bool)
      requires Valid() && Pending(State()) != []
      requires offset == Add16(rd, |Pending(State())[0]| + 2)
      modifies this
      ensures Valid() && State() == Off(old(State()), deliver, packetsRemain) && packetsRemain == old(packetsRemain)
    {
      hide Encode, Encoded, Window, Size, Pos, Add16;
      ghost var c := State();
      Advance(mem[..], rd, Pending(c));
      PendingOff(c, deliver, packetsRemain);
      rd := offset;
      fates := fates + [deliver];
      hide Pending;
    }

    /** The same, after more frames have arrived. */
    method ReleaseLater(offset: u16, deliver: bool, meanwhile: seq<seq<u8>>)
      requires Valid() && Whole(State()) && Sized(meanwhile) && Pending(State()) != []
      requires offset == Add16(rd, |Pending(State())[0]| + 2)
      modifies this, mem
      ensures Valid() && State() == Off(ArriveAll(old(State()), meanwhile), deliver, false)
    {
      ghost var c := State();
      ArriveAllKeeps(c, meanwhile);
      ArriveAllSets(c, meanwhile, false);
      hide Encode, Encoded, Window, Size, Pos, Take, Sized, Add16, Whole, ArriveAll, Pending;
      packetsRemain := false;
      SamePending(c, State());
      HearAll(meanwhile);
      SamePending(ArriveAll(c, meanwhile), State());
      Release(offset, deliver);
    }

    /** `emac_w5500_receive` on a buffer from `AllocRecvBuf`; frames arrive before the RECV command. */
    method Receive(info: Info, meanwhile: seq<seq<u8>>) returns (out: seq<u8>)
      requires Valid() && Whole(State()) && Sized(meanwhile) && Pending(State()) != []
      requires info.offset == rd && info.rxLen == |Pending(State())[0]|
      requires info.copyLen <= info.rxLen && info.rxLen + 2 <= info.remain
      modifies this, mem
      ensures Valid()
      ensures out == old(Pending(State()))[0][..info.copyLen]
      ensures State() == Off(ArriveAll(old(State()), meanwhile), info.copyLen == info.rxLen, info.remain > info.rxLen + 2)
    {
      hide Encode, Encoded, Window, Size, Pos, Take, Sized;
      FrontInMemory(mem[..], rd, Pending(State()), info.copyLen);
      var offset := Add16(info.offset, 2);
      out := ReadBuffer(offset, info.copyLen);
      AddTwice(info.offset, 2, info.rxLen);
      offset := Add16(offset, info.rxLen);
      hide Whole, ArriveAll, Add16, Pending;
      ReleaseLater(offset, info.copyLen == info.rxLen, meanwhile);
      var remain := Sub16(info.remain, info.rxLen + 2);
      packetsRemain := remain > 0;
    }

    /**
     `emac_w5500_receive` with the caller's own buffer of `length` bytes: nothing when no frame
     waits; else the front frame leaves the chip whole, and as much of it as fits is copied.
     */
    method ReceiveSized(length: u16, meanwhile: seq<seq<u8>>) returns (out: seq<u8>)
      requires Valid() && Whole(State()) && Sized(meanwhile) && length > 0
      modifies this, mem
      ensures Valid()
      ensures old(Pending(State())) == [] ==> out == [] && State() == old(State()).(remain := false)
      ensures old(Pending(State())) != [] ==>
        out == old(Pending(State()))[0][..if |old(Pending(State()))[0]| > length then length else |old(Pending(State()))[0]|]
      ensures old(Pending(State())) != [] ==>
        State() == Off(ArriveAll(old(State()), meanwhile), |old(Pending(State()))[0]| <= length, |old(Pending(State()))| > 1)
    {
      hide Encode, Encoded, Window, Size, Pos, Add16, Sized, ArriveAll;
      ghost var c := State();
      var remain := ReceivedSize();
      if remain == 0 {
        SamePending(c, c.(remain := false));
        packetsRemain := false;
        return [];
      }
      ghost var p := Pending(c);
      FrontInMemory(mem[..], rd, p, 0);
      SizeRest(p);
      var head := ReadBuffer(rd, 2);
      var rxLen := Sub16(Number(head), 2);
      var copyLen := if rxLen > length then length else rxLen;
      out := Receive(Info(rd, copyLen, rxLen, remain), meanwhile);
    }

    /** `emac_w5500_flush_recv_frame`. */
    method Flush(meanwhile: seq<seq<u8>>)
      requires Valid() && Whole(State()) && Sized(meanwhile) && Pending(State()) != []
      modifies this, mem
      ensures Valid()
      ensures State() == Off(ArriveAll(old(State()), meanwhile), false, |old(Pending(State()))| > 1)
    {
      hide Encode, Encoded, Window, Size, Pos, Take, Sized, Add16;
      ghost var p := Pending(State());
      var remain := ReceivedSize();
      if remain != 0 {
        FrontInMemory(mem[..], rd, p, 0);
        var offset := rd;
        var head := ReadBuffer(offset, 2);
        var rxLen := Number(head);
        offset := Add16(offset, rxLen);
        SizeRest(p);
        hide Whole, ArriveAll, Pending;
        ReleaseLater(offset, false, meanwhile);
        remain := Sub16(remain, rxLen);
        packetsRemain := remain > 0;
      }
    }

    method StackInput(frame: seq<u8>)
      requires Valid()
      modifies this
      ensures Valid() && State() == old(State()).(up := old(up) + [frame]) && rd == old(rd)
    {
      SamePending(State(), State().(up := up + [frame]));
      up := up + [frame];
      hide Pending, Encoded, Storable, Size, Window;
    }

    /** The branch with a buffer: the frame is read and passed up, unless it was cut. */
    method Deliver(info: Info, frameLen: u16, meanwhile: seq<seq<u8>>)
      requires Valid() && Whole(State()) && Sized(meanwhile) && Pending(State()) != []
      requires info.offset == rd && info.rxLen == frameLen == |Pending(State())[0]|
      requires info.copyLen == Cut(info.rxLen) && info.rxLen + 2 <= info.remain
      modifies this, mem
      ensures Valid()
      ensures var off := Off(ArriveAll(old(State()), meanwhile), frameLen <= MAX_FRAME, info.remain > frameLen + 2);
        State() == if frameLen <= MAX_FRAME then off.(up := off.up + [old(Pending(State()))[0]]) else off
    {
      hide Size, Pos, Add16, Arrive, ArriveAll, Valid, Whole, Sized, Pending;
      ghost var f := Pending(State())[0];
      var out := Receive(info, meanwhile);
      var bufLen := |out|;
      assert out == f[..bufLen];
      if frameLen <= bufLen {
        assert out == f;
        StackInput(out);
      }
    }

    /** One pass of the loop in `emac_w5500_task`. */
    method Pass(w: Weather)
      requires Valid() && Whole(State()) && Mild(w)
      modifies this, mem
      ensures Valid() && State() == Turn(old(State()), w)
    {
      ghost var c1 := ArriveAll(State(), w.first);
      ghost var c2 := ArriveAll(c1, w.second);
      Fronts(State(), c1, c2, w);
      if Pending(c1) == [] {
        assert Turn(State(), w) == ArriveAll(c2, w.third);
      } else {
        TurnTaken(State(), w);
      }
      hide Size, Pos, Add16, Arrive, ArriveAll, Turn, Valid, Whole, Sized, Pending;
      HearAll(w.first);
      var ret, info, frameLen := AllocRecvBuf(w.granted);
      HearAll(w.second);
      if ret == Ok {
        if info.Some? {
          Deliver(info.value, frameLen, w.third);
        } else {
          HearAll(w.third);
        }
      } else if ret == NoMem {
        Flush(w.third);
      }
    }

    /** The RX part of `emac_w5500_task`: `ws` is what happens around the passes. */
    method Drain(ws: seq<Weather>)
      requires Valid() && Whole(State()) && AllMild(ws)
      modifies this, mem
      ensures Valid() && State() == W5500RxSpec.Drain(old(State()), ws)
      ensures Resting(State())
    {
      sir := false;
      ghost var c := State();
      SamePending(c, old(State()));
      hide Size, Pos, Add16, Pending, Encoded, Storable, Window, Mild, AllMild, Turn;
      assert Valid() && Whole(c);
      hide Valid, Whole;
      LoopRests(c, ws);
      var rest := ws;
      var again := true;
      while again
        invariant Valid() && Whole(State()) && AllMild(rest)
        invariant again ==> Loop(State(), rest) == Loop(c, ws)
        invariant !again ==> State() == Loop(c, ws)
        decreases again, |rest|, |Pending(State())|
      {
        HeadMild(rest);
        TurnKeeps(State(), Head(rest));
        TurnShrinks(State());
        Pass(Head(rest));
        rest := Tail(rest);
        again := packetsRemain;
      }
    }
  }
}