/**
 What follows from the stretches of `NetFlowHistory`: a flow's times are packet times, flows
 age and are thrown out by them, and packets and bytes are conserved for each key.
 */
module NetFlowTimes {
  import opened Words
  import opened Wrappers
  import opened NetFlowSpec
  import opened NetFlowExport
  import opened NetFlowHistory

  // ----- the times of a flow -----

  /** The flow of a key in the table: its times, counters and flags are those of the packets since the key last left it. */
  lemma FlowIsPackets(n: nat, es: seq<Event>, c: Counter, q: Key)
    requires PROBE <= n
    ensures var ps := PacketsOf(es[Since(n, es, c, q)..], q);
      match FlowAfter(n, es, c, q)
      case Some(f) => FlowTells(f, ps)
      case None => ps == []
  {
    var done, open := RunTells(n, es, c, q);
    hide Run, Since, PacketsOf, Lookup, Concat, LogOf, Tells, Inv, FlowTells;
  }

  /** The time of a key's latest packet, of all the packets there ever were of it. */
  function LatestAt(es: seq<Event>, q: Key): nat {
    var ps := PacketsOf(es, q);
    if ps == [] then 0 else ps[|ps| - 1].at
  }

  lemma LatestIsLast(n: nat, es: seq<Event>, c: Counter, q: Key)
    requires PROBE <= n && FlowAfter(n, es, c, q).Some?
    ensures FlowAfter(n, es, c, q).value.last == LatestAt(es, q) % M32
  {
    var done, open := RunTells(n, es, c, q);
    hide Run, Since, PacketsOf, Lookup, Concat, LogOf, Tells, Inv;
    var ps := PacketsOf(es, q);
    assert open != [] && ps[|ps| - 1] == open[|open| - 1];
  }

  lemma SubTimes(a: nat, b: nat)
    ensures Sub32(a % M32, b % M32) == (a - b) % M32
  {
    var (qa, qb) := (a / M32, b / M32);
    assert a == M32 * qa + a % M32 && b == M32 * qb + b % M32;
    var d := a % M32 - b % M32;
    assert a - b == M32 * (qa - qb) + d;
  }

  /**
   Ageing by packets: a sweep takes a key's flow out if and only if, as 32 bits can tell, its
   latest packet is at least the idle time ago, or the first one since the key last left the
   table at least the active time.
   */
  lemma SweptIff(n: nat, es: seq<Event>, c: Counter, q: Key, e: Event)
    requires PROBE <= n && e.Sweep? && FlowAfter(n, es, c, q).Some?
    ensures var ps := PacketsOf(es[Since(n, es, c, q)..], q);
      ps != [] && (FlowAfter(n, es + [e], c, q) == None <==>
        (e.at - LatestAt(es, q)) % M32 >= e.idle || (e.at - ps[0].at) % M32 >= e.age)
  {
    hide *;
    var s := Run(Enabled(n), es, c);
    RunSnoc(n, es, c, e);
    AfterIs(n, es, c, q);
    AfterIs(n, es + [e], c, q);
    RunKeepsInv(n, es, c);
    FlowIsPackets(n, es, c, q);
    LatestIsLast(n, es, c, q);
    var ps := PacketsOf(es[Since(n, es, c, q)..], q);
    var f := FlowAfter(n, es, c, q).value;
    FlowTimes(f, ps);
    SubTimes(e.at, LatestAt(es, q));
    SubTimes(e.at, ps[0].at);
    SweptTimes(s, e, c, q, f);
  }

  lemma FlowTimes(f: Flow, ps: seq<Event>)
    requires FlowTells(f, ps)
    ensures ps != [] && f.first == ps[0].at % M32
  {
  }

  lemma RunSnoc(n: nat, es: seq<Event>, c: Counter, e: Event)
    requires PROBE <= n
    ensures PROBE <= |Run(Enabled(n), es, c).table|
    ensures Run(Enabled(n), es + [e], c) == Handle(Run(Enabled(n), es, c), e, c)
  {
    assert (es + [e])[..|es|] == es;
    hide Handle;
  }

  lemma RunKeepsInv(n: nat, es: seq<Event>, c: Counter)
    requires PROBE <= n
    ensures Inv(Run(Enabled(n), es, c).table) && |Run(Enabled(n), es, c).table| == n
  {
    RunConserves(n, es, c);
    hide Run, Inv, Sum, Total;
  }

  lemma SweptTimes(s: Collector, e: Event, c: Counter, q: Key, f: Flow)
    requires Inv(s.table) && e.Sweep? && PROBE <= |s.table| && Lookup(s.table, q) == Some(f)
    ensures PROBE <= |Handle(s, e, c).table|
    ensures Lookup(Handle(s, e, c).table, q) == None <==>
      Sub32(e.at % M32, f.last) >= e.idle || Sub32(e.at % M32, f.first) >= e.age
  {
    hide Handle, Swept, Inv, Sub32;
    SweepState(s, e, c);
    SweptLaw(s.table, Ms(e.at), e.idle, e.age, q);
    FoundIsActive(s.table, q);
    hide Lookup;
  }

  lemma FoundIsActive(t: seq<Flow>, q: Key)
    requires PROBE <= |t|
    ensures Lookup(t, q).Some? ==> Lookup(t, q).value.active && Lookup(t, q).value.key == q
  {
  }

  // ----- eviction -----

  /** A packet throws a flow out if and only if its key has none and every slot of its window is taken. */
  lemma EvictsIff(t: seq<Flow>, k: Key)
    requires Inv(t)
    ensures Evicted(t, k).Some? <==>
      Lookup(t, k) == None && forall i :: 0 <= i < PROBE ==> t[Slot(Bucket(k, |t|), i, |t|)].active
  {
    PlaceInWindow(t, k);
    var b := Bucket(k, |t|);
    hide Bucket;
    if Lookup(t, k) == None {
      NotFound(t, k, Place(t, k));
      var f := FreeFrom(t, b, 0);
      if f < PROBE {
        assert !t[Slot(b, f, |t|)].active;
      }
    } else {
      assert t[Place(t, k)].key == k;
    }
  }

  /**
   Of the eight keys in its window a packet throws out one whose latest packet is oldest, as
   long as these packets lie within 2^31 milliseconds.
   */
  lemma VictimIsStalest(n: nat, es: seq<Event>, c: Counter, k: Key, j: nat)
    requires PROBE <= n && j < PROBE
    requires var t := Run(Enabled(n), es, c).table;
      && Evicted(t, k).Some?
      && forall x, y :: 0 <= x < PROBE && 0 <= y < PROBE ==>
           LatestAt(es, t[Slot(Bucket(k, n), x, n)].key) - LatestAt(es, t[Slot(Bucket(k, n), y, n)].key) < 0x8000_0000
    ensures var t := Run(Enabled(n), es, c).table;
      LatestAt(es, Evicted(t, k).value.key) <= LatestAt(es, t[Slot(Bucket(k, n), j, n)].key)
  {
    hide Run, LatestAt, Evicted, Inv, Bucket, Slot, Lookup, FlowAfter, WindowTimes, Enabled;
    var t := Run(Enabled(n), es, c).table;
    RunKeepsInv(n, es, c);
    EvictsIff(t, k);
    var b := Bucket(k, n);
    var time := WindowTimes(es, t, b);
    forall i | 0 <= i < PROBE ensures t[Slot(b, i, n)].last == time[i] % M32 {
      SlotLatest(n, es, c, Slot(b, i, n));
    }
    VictimIsOldest(t, k, time, j);
  }

  /** The latest packets of the keys in a window. */
  function WindowTimes(es: seq<Event>, t: seq<Flow>, b: nat): (r: seq<int>)
    requires b < |t| && PROBE <= |t|
    ensures |r| == PROBE && forall i :: 0 <= i < PROBE ==> r[i] == LatestAt(es, t[Slot(b, i, |t|)].key)
  {
    seq(PROBE, i requires 0 <= i < PROBE => LatestAt(es, t[Slot(b, i, |t|)].key))
  }

  lemma SlotLatest(n: nat, es: seq<Event>, c: Counter, i: nat)
    requires PROBE <= n && i < n
    requires Run(Enabled(n), es, c).table[i].active
    ensures var f := Run(Enabled(n), es, c).table[i]; f.last == LatestAt(es, f.key) % M32
  {
    hide Run, LatestAt, Inv, Lookup, FlowAfter;
    RunKeepsInv(n, es, c);
    var t := Run(Enabled(n), es, c).table;
    LookupIsMembership(t, t[i].key, i);
    AfterIs(n, es, c, t[i].key);
    LatestIsLast(n, es, c, t[i].key);
  }

  // ----- conservation for each key -----

  function OutWeight(o: Out, c: Counter): nat {
    match o
    case Sent(r) => if c == Packets then r.pkts else r.bytes
    case Thrown(f) => if c == Packets then f.pkts else f.bytes
  }

  function OutSum(log: seq<Out>, c: Counter): nat {
    if log == [] then 0 else OutSum(log[..|log| - 1], c) + OutWeight(log[|log| - 1], c)
  }

  function Counts(ps: seq<Event>, c: Counter): nat {
    if c == Packets then |ps| else BytesOf(ps)
  }

  lemma {:induction false} BytesConcat(a: seq<Event>, b: seq<Event>)
    ensures BytesOf(a + b) == BytesOf(a) + BytesOf(b)
  {
    if b == [] {
      assert a + b == a;
    } else {
      assert (a + b)[..|a + b| - 1] == a + b[..|b| - 1];
      BytesConcat(a, b[..|b| - 1]);
    }
  }

  /** The exits of a key hold what their stretches hold, modulo 2^32. */
  lemma {:induction false} ExitsHold(log: seq<Out>, done: seq<seq<Event>>, c: Counter)
    requires |log| == |done| && forall i :: 0 <= i < |done| ==> Tells(log[i], done[i])
    ensures (Counts(Concat(done), c) - OutSum(log, c)) % M32 == 0
  {
    if done != [] {
      var k := |done| - 1;
      ExitsHold(log[..k], done[..k], c);
      assert Tells(log[k], done[k]);
      BytesConcat(Concat(done[..k]), done[k]);
      TellsWeight(log[k], done[k], c);
      hide Tells, BytesOf, OutWeight;
      AddCong(Counts(Concat(done[..k]), c), OutSum(log[..k], c), Counts(done[k], c), OutWeight(log[k], c));
    }
  }

  lemma TellsWeight(o: Out, ps: seq<Event>, c: Counter)
    requires Tells(o, ps)
    ensures OutWeight(o, c) == Counts(ps, c) % M32
  {
    hide BytesOf, FlagsOf;
  }

  lemma AddCong(a: nat, b: nat, x: nat, y: nat)
    requires (a - b) % M32 == 0 && y == x % M32
    ensures (a + x - (b + y)) % M32 == 0
  {
    var q := x / M32;
    assert x == M32 * q + y;
    var d := a - b;
    assert a + x - (b + y) == d + M32 * q;
  }

  /**
   Conservation for each key: the packets counted under it, and their bytes, are those in its
   flow in the table, in the records sent with its five fields, and in its flows thrown out.
   */
  lemma KeyConserves(n: nat, es: seq<Event>, c: Counter, q: Key)
    requires PROBE <= n
    ensures var s := Run(Enabled(n), es, c);
      var held := match FlowAfter(n, es, c, q) case Some(f) => Weight(f, c) case None => 0;
      (Counts(PacketsOf(es, q), c) - OutSum(LogOf(s.log, q), c) - held) % M32 == 0
  {
    hide *;
    var done, open := RunTells(n, es, c, q);
    AfterIs(n, es, c, q);
    ToldConserves(Run(Enabled(n), es, c), q, PacketsOf(es, q), done, open, c);
  }

  lemma AfterIs(n: nat, es: seq<Event>, c: Counter, q: Key)
    requires PROBE <= n
    ensures PROBE <= |Run(Enabled(n), es, c).table|
    ensures FlowAfter(n, es, c, q) == Lookup(Run(Enabled(n), es, c).table, q)
  {
  }

  lemma ToldConserves(s: Collector, q: Key, ps: seq<Event>, done: seq<seq<Event>>, open: seq<Event>, c: Counter)
    requires PROBE <= |s.table| && Told(s, q, ps, done, open)
    ensures var held := match Lookup(s.table, q) case Some(f) => Weight(f, c) case None => 0;
      (Counts(ps, c) - OutSum(LogOf(s.log, q), c) - held) % M32 == 0
  {
    hide Lookup, Concat, LogOf, Tells, Inv, OutSum, BytesOf, FlagsOf;
    ExitsHold(LogOf(s.log, q), done, c);
    BytesConcat(Concat(done), open);
    NoBytes();
    var held := match Lookup(s.table, q) case Some(f) => Weight(f, c) case None => 0;
    AddCong(Counts(Concat(done), c), OutSum(LogOf(s.log, q), c), Counts(open, c), held);
  }

  lemma NoBytes()
    ensures BytesOf([]) == 0
  {
  }

  /** The records of the log are the records sent. */
  function SentIn(log: seq<Out>): seq<Record> {
    if log == [] then []
    else SentIn(log[..|log| - 1]) + match log[|log| - 1] case Sent(r) => [r] case Thrown(_) => []
  }

  lemma {:induction false} SentInOutgoing(log: seq<Out>, rs: seq<Record>)
    ensures SentIn(log + Outgoing(rs)) == SentIn(log) + rs
  {
    if rs == [] {
      assert log + Outgoing(rs) == log && SentIn(log) + rs == SentIn(log);
    } else {
      var k := |rs| - 1;
      assert log + Outgoing(rs) == (log + Outgoing(rs[..k])) + [Sent(rs[k])];
      SentInOutgoing(log, rs[..k]);
      SentInSnoc(log + Outgoing(rs[..k]), Sent(rs[k]));
      assert rs == rs[..k] + [rs[k]];
    }
  }

  lemma SentInSnoc(log: seq<Out>, o: Out)
    ensures SentIn(log + [o]) == SentIn(log) + match o case Sent(r) => [r] case Thrown(_) => []
  {
    assert (log + [o])[..|log|] == log;
  }

  lemma {:induction false} LogIsSent(n: nat, es: seq<Event>, c: Counter)
    requires PROBE <= n
    ensures SentIn(Run(Enabled(n), es, c).log) == Run(Enabled(n), es, c).sent
  {
    if es != [] {
      var s, e := Run(Enabled(n), es[..|es| - 1], c), es[|es| - 1];
      LogIsSent(n, es[..|es| - 1], c);
      hide SentIn;
      if e.Packet? {
        if Evicted(s.table, e.k).Some? {
          SentInSnoc(s.log, Thrown(Evicted(s.table, e.k).value));
        }
        assert s.log + [] == s.log && s.sent + [] == s.sent;
      } else {
        SentInOutgoing(s.log, ToRecords(ExpiredTo(s.table, |s.table|, Ms(e.at), e.idle, e.age)));
      }
    }
  }
}
