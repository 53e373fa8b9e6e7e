/**
 The ring shared between packet hooks that write and one task that reads, as a machine over
 the steps another thread can come between. No wake-up is lost.
 */
module RingSignal {
  import opened Words
  import opened RingSpec

  /** `givers` writers are between releasing the mutex and giving the signal; the reader is
      between taking the signal and releasing the mutex when `holding`, and between allocating
      the buffer and draining the signal when `draining`. */
  datatype Machine = Machine(ring: Ring, givers: nat, holding: bool, draining: bool)

  datatype Step =
    | WriteLocked(src: seq<u8>, free: bool)  // under the mutex; then on to the give
    | Give                                   // a writer gives the signal
    | TakeSignal                             // the reader's wait ends with the signal
    | TimedOut                               // the reader's wait ends without it
    | ReadLocked(max: nat)                   // the reader's part under the mutex
    | SkipLocked(n: nat)
    | ResetLocked
    | FreeLocked
    | Allocate(n: nat)                       // buffer and drained signal as one step
    | AllocLocked(n: nat)                    // the buffer alone, under the mutex
    | Drain                                  // then the signal, after the mutex is released
    | Peek

  ghost predicate Enabled(m: Machine, e: Step) {
    match e
    case Give => m.givers > 0
    case TakeSignal => !m.holding && !m.draining && m.ring.present && m.ring.signal
    case ReadLocked(_) => m.holding
    case FreeLocked => !m.draining
    case Allocate(n) => !m.ring.present && !m.holding && !m.draining && n > 0
    case AllocLocked(n) => !m.ring.present && !m.holding && !m.draining && n > 0
    case Drain => m.draining
    case _ => true
  }

  function Next(m: Machine, e: Step): Machine {
    match e
    case WriteLocked(src, free) =>
      var (r, ok) := Append(m.ring, src, free);
      m.(ring := r, givers := if ok then m.givers + 1 else m.givers)
    case Give => m.(ring := m.ring.(signal := true), givers := if m.givers > 0 then m.givers - 1 else 0)
    case TakeSignal => m.(ring := m.ring.(signal := false), holding := true)
    case TimedOut => m
    case ReadLocked(max) => m.(ring := Detach(m.ring, max).0, holding := false)
    case SkipLocked(n) => m.(ring := RingSpec.Skip(m.ring, n))
    case ResetLocked => m.(ring := Cleared(m.ring))
    case FreeLocked => m.(ring := if m.ring.present then Ring(false, 0, [], 0, m.ring.signal) else m.ring)
    case Allocate(n) => m.(ring := Ring(true, n, [], 0, false))
    case AllocLocked(n) => m.(ring := Ring(true, n, [], 0, m.ring.signal), draining := true)
    case Drain => m.(ring := m.ring.(signal := false), draining := false)
    case Peek => m
  }

  /** Whenever bytes are queued the reader will learn of it. */
  predicate NoLostWakeup(m: Machine) {
    m.ring.bytes != [] ==> m.ring.signal || m.givers > 0 || m.holding
  }

  ghost predicate Shape(m: Machine) {
    Sane(m.ring) && (!m.ring.present ==> m.ring.bytes == []) && (m.draining ==> m.ring.present && !m.holding)
  }

  lemma StepKeeps(m: Machine, e: Step)
    requires Shape(m) && Enabled(m, e)
    ensures Shape(Next(m, e))
    ensures NoLostWakeup(m) && e != Drain ==> NoLostWakeup(Next(m, e))
  {
    match e
    case ReadLocked(max) =>
      var (r, out) := Detach(m.ring, max);
      if m.ring.present && m.ring.bytes != [] {
        assert r.bytes == m.ring.bytes[Min(max, |m.ring.bytes|)..];
      }
    case _ =>
  }

  ghost predicate Run(ms: seq<Machine>, es: seq<Step>) {
    && |ms| == |es| + 1
    && forall i :: 0 <= i < |es| ==> Enabled(ms[i], es[i]) && ms[i + 1] == Next(ms[i], es[i])
  }

  /** The state after `ringbuf_init`. */
  const Initial: Machine := Machine(Ring(false, 0, [], 0, false), 0, false, false)

  lemma {:induction false} RunShape(ms: seq<Machine>, es: seq<Step>, k: nat)
    requires Run(ms, es) && ms[0] == Initial && k < |ms|
    ensures Shape(ms[k])
  {
    if k > 0 {
      RunShape(ms, es, k - 1);
      StepKeeps(ms[k - 1], es[k - 1]);
    }
  }

  /** Every state of every run that allocates in one step, under any interleaving of writers, reader and control calls. */
  lemma {:induction false} RunKeeps(ms: seq<Machine>, es: seq<Step>, k: nat)
    requires Run(ms, es) && ms[0] == Initial && k < |ms|
    requires forall i :: 0 <= i < k ==> es[i] != Drain
    ensures NoLostWakeup(ms[k])
  {
    if k > 0 {
      RunKeeps(ms, es, k - 1);
      RunShape(ms, es, k - 1);
      StepKeeps(ms[k - 1], es[k - 1]);
    }
  }

  /**
   With every writer past its give and the reader waiting, queued bytes mean the wait ends
   at once and the read returns some of them.
   */
  lemma QuiescentReadSucceeds(ms: seq<Machine>, es: seq<Step>, k: nat, max: nat)
    requires Run(ms, es) && ms[0] == Initial && k < |ms| && max > 0
    requires forall i :: 0 <= i < k ==> es[i] != Drain
    requires ms[k].givers == 0 && !ms[k].holding && !ms[k].draining && ms[k].ring.bytes != []
    ensures Enabled(ms[k], TakeSignal)
    ensures var out := Detach(Next(ms[k], TakeSignal).ring, max).1; out != [] && out <= ms[k].ring.bytes
  {
    RunKeeps(ms, es, k);
    RunShape(ms, es, k);
  }

  /** A call that nobody interrupts is the write or read of the plain queue. */
  lemma UninterruptedWrite(m: Machine, src: seq<u8>, free: bool)
    ensures var (r, ok) := Put(m.ring, src, free);
      var mid := Next(m, WriteLocked(src, free));
      m.(ring := r) == if ok then Next(mid, Give) else mid
  {
  }

  lemma UninterruptedRead(m: Machine, max: nat)
    requires Shape(m) && !m.holding && !m.draining
    ensures Take(m.ring, max).0 == if Enabled(m, TakeSignal)
      then Next(Next(m, TakeSignal), ReadLocked(max)).ring else m.ring
  {
  }

  // ----- the drain in `ringbuf_alloc`, taken apart -----

  predicate Accepted(m: Machine, e: Step) {
    e.WriteLocked? && Append(m.ring, e.src, e.free).1
  }

  /** Accepted writes less gives, among the first `k` steps. */
  function Owed(ms: seq<Machine>, es: seq<Step>, k: nat): int
    requires k <= |es| <= |ms|
  {
    if k == 0 then 0
    else
      Owed(ms, es, k - 1)
      + (if Accepted(ms[k - 1], es[k - 1]) then 1 else 0) - (if es[k - 1] == Give then 1 else 0)
  }

  lemma {:induction false} OwedIsGivers(ms: seq<Machine>, es: seq<Step>, k: nat)
    requires Run(ms, es) && ms[0] == Initial && k < |ms|
    ensures Owed(ms, es, k) == ms[k].givers
  {
    if k > 0 {
      OwedIsGivers(ms, es, k - 1);
      assert ms[k] == Next(ms[k - 1], es[k - 1]);
    }
  }

  /** Step `a` allocates, and up to step `d` that allocation is not drained yet. */
  ghost predicate Open(es: seq<Step>, a: nat, d: nat) {
    a < d <= |es| && es[a].AllocLocked? && forall i :: a < i < d ==> es[i] != Drain && !es[i].AllocLocked?
  }

  /** After step `a` and before step `d` some byte was written that no later reset cleared. */
  ghost predicate WroteSince(ms: seq<Machine>, es: seq<Step>, a: nat, d: nat)
    requires d <= |es| <= |ms|
  {
    exists w :: a < w < d && Accepted(ms[w], es[w]) && es[w].src != [] && forall r :: w < r < d ==> es[r] != ResetLocked
  }

  /** Before the drain the queue holds bytes exactly when some were written since the allocation. */
  lemma {:induction false} BytesSince(ms: seq<Machine>, es: seq<Step>, a: nat, d: nat)
    requires Run(ms, es) && ms[0] == Initial && Open(es, a, d)
    requires forall i :: 0 <= i < |es| ==> !es[i].SkipLocked?
    ensures ms[d].draining && (ms[d].ring.bytes != [] <==> WroteSince(ms, es, a, d))
    decreases d
  {
    assert ms[d] == Next(ms[d - 1], es[d - 1]);
    if d > a + 1 {
      BytesSince(ms, es, a, d - 1);
      RunShape(ms, es, d - 1);
      assert Enabled(ms[d - 1], es[d - 1]);
      SinceStep(ms, es, a, d);
    }
  }

  lemma SinceStep(ms: seq<Machine>, es: seq<Step>, a: nat, d: nat)
    requires a + 1 < d <= |es| <= |ms|
    ensures WroteSince(ms, es, a, d) <==>
      (Accepted(ms[d - 1], es[d - 1]) && es[d - 1].src != [])
      || (WroteSince(ms, es, a, d - 1) && es[d - 1] != ResetLocked)
  {
    if WroteSince(ms, es, a, d - 1) && es[d - 1] != ResetLocked {
      var w :| a < w < d - 1 && Accepted(ms[w], es[w]) && es[w].src != []
        && forall r :: w < r < d - 1 ==> es[r] != ResetLocked;
      assert forall r :: w < r < d ==> es[r] != ResetLocked;
    }
  }

  lemma {:induction false} DrainHasAlloc(ms: seq<Machine>, es: seq<Step>, d: nat) returns (a: nat)
    requires Run(ms, es) && ms[0] == Initial && d < |ms| && ms[d].draining
    ensures Open(es, a, d)
  {
    assert d > 0 && ms[d] == Next(ms[d - 1], es[d - 1]) && Enabled(ms[d - 1], es[d - 1]);
    if es[d - 1].AllocLocked? {
      a := d - 1;
    } else {
      a := DrainHasAlloc(ms, es, d - 1);
    }
  }

  /**
   With the allocation in two steps, a run keeps every wake-up if and only if at each drain
   nothing was written since its allocation, or some writer has yet to give.
   */
  lemma SplitKeepsIff(ms: seq<Machine>, es: seq<Step>)
    requires Run(ms, es) && ms[0] == Initial
    requires forall i :: 0 <= i < |es| ==> !es[i].SkipLocked?
    ensures (forall k :: 0 <= k < |ms| ==> NoLostWakeup(ms[k])) <==>
      (forall a, d :: 0 <= a < d < |es| && es[d] == Drain && Open(es, a, d) ==>
        !WroteSince(ms, es, a, d) || Owed(ms, es, d) > 0)
  {
    if forall k :: 0 <= k < |ms| ==> NoLostWakeup(ms[k]) {
      forall a, d | 0 <= a < d < |es| && es[d] == Drain && Open(es, a, d)
        ensures !WroteSince(ms, es, a, d) || Owed(ms, es, d) > 0 {
        BytesSince(ms, es, a, d);
        OwedIsGivers(ms, es, d);
        RunShape(ms, es, d);
        assert NoLostWakeup(ms[d + 1]) && ms[d + 1] == Next(ms[d], es[d]);
      }
    }
    if forall a, d :: 0 <= a < d < |es| && es[d] == Drain && Open(es, a, d) ==>
        !WroteSince(ms, es, a, d) || Owed(ms, es, d) > 0 {
      forall k | 0 <= k < |ms| ensures NoLostWakeup(ms[k]) {
        SplitKeeps(ms, es, k);
      }
    }
  }

  lemma {:induction false} SplitKeeps(ms: seq<Machine>, es: seq<Step>, k: nat)
    requires Run(ms, es) && ms[0] == Initial && k < |ms|
    requires forall i :: 0 <= i < |es| ==> !es[i].SkipLocked?
    requires forall a, d :: 0 <= a < d < |es| && es[d] == Drain && Open(es, a, d) ==>
        !WroteSince(ms, es, a, d) || Owed(ms, es, d) > 0
    ensures NoLostWakeup(ms[k])
  {
    if k > 0 {
      var d := k - 1;
      SplitKeeps(ms, es, d);
      RunShape(ms, es, d);
      assert Enabled(ms[d], es[d]) && ms[k] == Next(ms[d], es[d]);
      if es[d] == Drain {
        var a := DrainHasAlloc(ms, es, d);
        BytesSince(ms, es, a, d);
        OwedIsGivers(ms, es, d);
      } else {
        StepKeeps(ms[d], es[d]);
      }
    }
  }

  /** Once lost, the wake-up stays lost while nothing is written or cleared: the reader waits with bytes queued. */
  lemma LostStays(m: Machine, e: Step)
    requires !NoLostWakeup(m) && Enabled(m, e) && m.ring.present
    requires !e.WriteLocked? && e !in {ResetLocked, FreeLocked} && !e.SkipLocked?
    ensures !NoLostWakeup(Next(m, e))
  {
  }

  /** A packet written and signalled between the two steps waits for the next packet to be noticed. */
  lemma SplitAllocLosesWakeup(b: u8) returns (ms: seq<Machine>, es: seq<Step>)
    ensures Run(ms, es) && ms[0] == Initial && es == [AllocLocked(32768), WriteLocked([b], true), Give, Drain]
    ensures ms[4].ring.bytes == [b] && !NoLostWakeup(ms[4])
  {
    es := [AllocLocked(32768), WriteLocked([b], true), Give, Drain];
    var m1 := Next(Initial, es[0]);
    var m2 := Next(m1, es[1]);
    var m3 := Next(m2, es[2]);
    ms := [Initial, m1, m2, m3, Next(m3, es[3])];
    assert m2.ring.bytes == [b] && m2.givers == 1;
  }
}
