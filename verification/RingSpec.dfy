/**
 The capture ring as a plain byte queue: all-or-nothing writes, reads from the front, and
 the data-ready signal. Histories of calls conserve bytes.
 */
module RingSpec {
  import opened Words

  /** What callers see of the ring: allocated or not, its size, the queued bytes, the drop count, the signal. */
  datatype Ring = Ring(present: bool, size: nat, bytes: seq<u8>, dropped: u32, signal: bool)

  ghost predicate Sane(r: Ring) {
    |r.bytes| <= r.size && (!r.present ==> r.size == 0)
  }

  /** The part of `ringbuf_write` under the mutex; `free` says the non-blocking take succeeded. */
  function Append(r: Ring, src: seq<u8>, free: bool): (Ring, bool) {
    if !r.present then (r, false)
    else if !free || |src| > r.size - |r.bytes| then (r.(dropped := Inc32(r.dropped)), false)
    else (r.(bytes := r.bytes + src), true)
  }

  /** `ringbuf_write`: append, then give the signal. */
  function Put(r: Ring, src: seq<u8>, free: bool): (Ring, bool) {
    var (a, ok) := Append(r, src, free);
    (if ok then a.(signal := true) else a, ok)
  }

  function Min(a: nat, b: nat): nat { if a < b then a else b }

  /** The part of `ringbuf_read` under the mutex, with the signal already taken. */
  function Detach(r: Ring, max: nat): (Ring, seq<u8>) {
    if !r.present || r.bytes == [] then (r, [])
    else
      var n := Min(max, |r.bytes|);
      (r.(bytes := r.bytes[n..], signal := r.signal || n < |r.bytes|), r.bytes[..n])
  }

  /** `ringbuf_read` when the signal is already there, or never comes before the timeout. */
  function Take(r: Ring, max: nat): (Ring, seq<u8>) {
    if !r.present || !r.signal then (r, []) else Detach(r.(signal := false), max)
  }

  /** `ringbuf_skip`. */
  function Skip(r: Ring, n: nat): Ring {
    if !r.present then r else r.(bytes := r.bytes[Min(n, |r.bytes|)..])
  }

  function Cleared(r: Ring): Ring {
    r.(bytes := [], dropped := 0)
  }

  // ----- histories -----

  datatype Op = Write(src: seq<u8>, free: bool) | Read(max: nat)

  /** A ring with the writes it has accepted and the chunks it has given out. */
  datatype History = History(ring: Ring, accepted: seq<seq<u8>>, taken: seq<seq<u8>>)

  function Apply(h: History, op: Op): History {
    match op
    case Write(src, free) =>
      var (r, ok) := Put(h.ring, src, free);
      History(r, if ok then h.accepted + [src] else h.accepted, h.taken)
    case Read(max) =>
      var (r, out) := Take(h.ring, max);
      History(r, h.accepted, h.taken + [out])
  }

  function Replay(r: Ring, ops: seq<Op>): History {
    if ops == [] then History(r, [], []) else Apply(Replay(r, ops[..|ops| - 1]), ops[|ops| - 1])
  }

  function Flatten<T>(ss: seq<seq<T>>): seq<T> {
    if ss == [] then [] else ss[0] + Flatten(ss[1..])
  }

  lemma {:induction false} FlattenSnoc<T>(ss: seq<seq<T>>, s: seq<T>)
    ensures Flatten(ss + [s]) == Flatten(ss) + s
  {
    if ss == [] {
      assert [s][1..] == [];
    } else {
      assert (ss + [s])[1..] == ss[1..] + [s];
      FlattenSnoc(ss[1..], s);
      assert ss[0] + (Flatten(ss[1..]) + s) == (ss[0] + Flatten(ss[1..])) + s;
    }
  }

  /** A read takes bytes off the front, at most as many as asked for, and leaves the signal on while bytes remain. */
  lemma TakeSplits(r: Ring, max: nat)
    ensures var (t, out) := Take(r, max);
      && out + t.bytes == r.bytes && |out| <= max
      && (r.present && r.signal ==> |out| == Min(max, |r.bytes|) && (t.signal <==> t.bytes != []))
      && (!r.signal ==> t == r)
  {
    var (t, out) := Take(r, max);
    if out == [] {
      if r.present && r.signal && r.bytes != [] {
        assert r.bytes[0..] == r.bytes;
      }
      assert t.bytes == r.bytes;
    } else {
      var n := |out|;
      assert r.bytes[..n] + r.bytes[n..] == r.bytes;
    }
  }

  ghost predicate Conserved(r: Ring, h: History) {
    && Sane(h.ring) && h.ring.size == r.size && h.ring.present == r.present
    && Flatten(h.taken) + h.ring.bytes == r.bytes + Flatten(h.accepted)
  }

  lemma ApplyConserves(r: Ring, h: History, op: Op)
    requires Conserved(r, h)
    ensures Conserved(r, Apply(h, op))
  {
    hide Flatten;
    var a, b, q := Flatten(h.taken), Flatten(h.accepted), h.ring.bytes;
    match op
    case Write(src, free) =>
      FlattenSnoc(h.accepted, src);
      assert a + (q + src) == (a + q) + src;
      assert (r.bytes + b) + src == r.bytes + (b + src);
    case Read(max) =>
      var (t, out) := Take(h.ring, max);
      FlattenSnoc(h.taken, out);
      TakeSplits(h.ring, max);
      assert out + t.bytes == q;
      assert (a + out) + t.bytes == a + (out + t.bytes);
  }

  /**
   Conservation: after any calls, in any order and split, the bytes taken out followed by
   the bytes still queued are the bytes queued at the start followed by the accepted writes.
   */
  lemma {:induction false} BytesConserved(r: Ring, ops: seq<Op>)
    requires Sane(r)
    ensures Conserved(r, Replay(r, ops))
  {
    if ops == [] {
      assert [] + r.bytes == r.bytes + [];
    } else {
      BytesConserved(r, ops[..|ops| - 1]);
      ApplyConserves(r, Replay(r, ops[..|ops| - 1]), ops[|ops| - 1]);
    }
  }

  /** Writes refused by a ring that is there. */
  function Refused(r: Ring, ops: seq<Op>): nat {
    if ops == [] then 0
    else
      var (h, op) := (Replay(r, ops[..|ops| - 1]), ops[|ops| - 1]);
      Refused(r, ops[..|ops| - 1])
      + if op.Write? && (!op.free || |h.ring.bytes| + |op.src| > r.size) then 1 else 0
  }

  /** Every write a ring refuses is counted, and nothing else is. */
  lemma {:induction false} DropsCounted(r: Ring, ops: seq<Op>)
    requires Sane(r) && r.present
    ensures Replay(r, ops).ring.dropped == (r.dropped + Refused(r, ops)) % M32
  {
    if ops != [] {
      var h, n := Replay(r, ops[..|ops| - 1]), r.dropped + Refused(r, ops[..|ops| - 1]);
      DropStep(h, ops[|ops| - 1]);
      hide Flatten, Apply, Inc32;
      DropsCounted(r, ops[..|ops| - 1]);
      BytesConserved(r, ops[..|ops| - 1]);
      IncWraps(n);
    }
  }

  lemma DropStep(h: History, op: Op)
    ensures var refused := op.Write? && (!op.free || |h.ring.bytes| + |op.src| > h.ring.size);
      Sane(h.ring) && h.ring.present ==>
        Apply(h, op).ring.dropped == if refused then Inc32(h.ring.dropped) else h.ring.dropped
  {
  }

  /** Skipping drops that many bytes off the front, or all, and nothing else changes. */
  lemma SkipSplits(r: Ring, n: nat)
    requires r.present
    ensures var t := Skip(r, n);
      && t == r.(bytes := t.bytes)
      && exists gone: seq<u8> :: gone + t.bytes == r.bytes && |gone| == if n < |r.bytes| then n else |r.bytes|
  {
    var k := Min(n, |r.bytes|);
    assert r.bytes[..k] + r.bytes[k..] == r.bytes;
  }

  /** A write is accepted exactly when the ring exists, the mutex is free and there is room; else nothing is queued. */
  lemma AllOrNothing(r: Ring, src: seq<u8>, free: bool)
    requires Sane(r)
    ensures var (t, ok) := Put(r, src, free);
      && Sane(t)
      && (ok <==> r.present && free && |r.bytes| + |src| <= r.size)
      && t.bytes == (if ok then r.bytes + src else r.bytes)
      && (ok ==> t.signal) && (!ok ==> t.signal == r.signal)
  {
  }
}
