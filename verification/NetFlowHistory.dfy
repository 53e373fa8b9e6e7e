/**
 What flows, records and evictions have to do with packets. For every key, the packets
 counted under it fall into consecutive stretches: one for each record sent and each flow
 thrown out, in the order in which they left the table, and the last for the flow that is
 still there. Each says exactly what its own stretch holds.
 */
module NetFlowHistory {
  import opened Words
  import opened Wrappers
  import opened NetFlowSpec
  import opened NetFlowExport

  // ----- stretches of packets -----

  /** The packets of one key, in order. */
  function PacketsOf(es: seq<Event>, q: Key): seq<Event> {
    if es == [] then []
    else
      var e := es[|es| - 1];
      PacketsOf(es[..|es| - 1], q) + if e.Packet? && e.k == q then [e] else []
  }

  function BytesOf(ps: seq<Event>): nat {
    if ps == [] then 0
    else BytesOf(ps[..|ps| - 1]) + if ps[|ps| - 1].Packet? then ps[|ps| - 1].len else 0
  }

  /** Every TCP flag that any of the packets carried. */
  function FlagsOf(ps: seq<Event>): bv8 {
    if ps == [] then 0
    else FlagsOf(ps[..|ps| - 1]) | if ps[|ps| - 1].Packet? then ps[|ps| - 1].flags else 0
  }

  /** The counters, times and flags of some packets. */
  predicate Sums(pkts: u32, bytes: u32, first: u32, last: u32, flags: bv8, ps: seq<Event>) {
    && ps != []
    && pkts == |ps| % M32 && bytes == BytesOf(ps) % M32
    && first == ps[0].at % M32 && last == ps[|ps| - 1].at % M32
    && flags == FlagsOf(ps)
  }

  predicate FlowTells(f: Flow, ps: seq<Event>) {
    Sums(f.pkts, f.bytes, f.first, f.last, f.flags, ps)
  }

  /** What left the table left it under this key. */
  predicate About(o: Out, q: Key) {
    match o
    case Sent(r) => r.src == q.src && r.dst == q.dst && r.sport == q.sport && r.dport == q.dport && r.proto == q.proto
    case Thrown(f) => f.key == q
  }

  predicate Tells(o: Out, ps: seq<Event>) {
    match o
    case Sent(r) => Sums(r.pkts, r.bytes, r.first, r.last, r.flags, ps)
    case Thrown(f) => FlowTells(f, ps)
  }

  function LogOf(log: seq<Out>, q: Key): seq<Out> {
    if log == [] then []
    else LogOf(log[..|log| - 1], q) + if About(log[|log| - 1], q) then [log[|log| - 1]] else []
  }

  function Concat(lives: seq<seq<Event>>): seq<Event> {
    if lives == [] then [] else Concat(lives[..|lives| - 1]) + lives[|lives| - 1]
  }

  /** The packets `ps` of a key are the stretches `done` behind its exits, and the stretch `open` of its flow. */
  ghost predicate Told(s: Collector, q: Key, ps: seq<Event>, done: seq<seq<Event>>, open: seq<Event>) {
    && Inv(s.table)
    && ps == Concat(done) + open
    && |LogOf(s.log, q)| == |done|
    && (forall i :: 0 <= i < |done| ==> Tells(LogOf(s.log, q)[i], done[i]))
    && match Lookup(s.table, q)
       case Some(f) => FlowTells(f, open)
       case None => open == []
  }

  // ----- one packet -----

  /** What an entry says before a packet is counted in it. */
  lemma EntryBefore(f: Flow, ps: seq<Event>, e: Event)
    requires e.Packet? && (FlowTells(f, ps) || (f == Fresh(e.k, Ms(e.at)) && ps == []))
    ensures f.pkts == |ps| % M32 && f.bytes == BytesOf(ps) % M32 && f.flags == FlagsOf(ps)
    ensures f.first == (if ps == [] then e.at else ps[0].at) % M32
  {
  }

  /** And after. */
  lemma EntryAfter(f: Flow, now: u32, len: u16, flags: bv8)
    ensures var g := Counted(f, now, len, flags);
      && g.pkts == Inc32(f.pkts) && g.bytes == (f.bytes + len) % M32 && g.first == f.first && g.last == now
      && g.flags == f.flags | flags
  {
    hide Inc32;
  }

  lemma SumsMore(f: Flow, ps: seq<Event>, e: Event)
    requires e.Packet? && (FlowTells(f, ps) || (f == Fresh(e.k, Ms(e.at)) && ps == []))
    ensures FlowTells(Counted(f, Ms(e.at), e.len, e.flags), ps + [e])
  {
    EntryBefore(f, ps, e);
    hide Fresh, Counted, FlowTells, BytesOf, FlagsOf, Inc32;
    EntryAfter(f, Ms(e.at), e.len, e.flags);
    BytesSnoc(ps, e);
    IncWraps(|ps|);
    WrapsOn(BytesOf(ps), e.len);
    assert ps != [] ==> (ps + [e])[0] == ps[0];
    Summed(Counted(f, Ms(e.at), e.len, e.flags), ps + [e]);
  }

  lemma Summed(f: Flow, ps: seq<Event>)
    requires ps != [] && f.pkts == |ps| % M32 && f.bytes == BytesOf(ps) % M32 && f.flags == FlagsOf(ps)
    requires f.first == ps[0].at % M32 && f.last == ps[|ps| - 1].at % M32
    ensures FlowTells(f, ps)
  {
    hide BytesOf, FlagsOf;
  }

  lemma WrapsOn(a: nat, b: nat)
    ensures (a % M32 + b) % M32 == (a + b) % M32
  {
  }

  lemma BytesSnoc(ps: seq<Event>, e: Event)
    requires e.Packet?
    ensures BytesOf(ps + [e]) == BytesOf(ps) + e.len && FlagsOf(ps + [e]) == FlagsOf(ps) | e.flags
    ensures BytesOf([]) == 0 && FlagsOf([]) == 0
  {
    assert (ps + [e])[..|ps|] == ps;
  }

  lemma LogSnoc(log: seq<Out>, o: Out, q: Key)
    ensures LogOf(log + [o], q) == LogOf(log, q) + if About(o, q) then [o] else []
  {
    assert (log + [o])[..|log|] == log;
  }

  lemma PacketSnoc(es: seq<Event>, e: Event, q: Key)
    ensures PacketsOf(es + [e], q) == PacketsOf(es, q) + if e.Packet? && e.k == q then [e] else []
  {
    assert (es + [e])[..|es|] == es;
  }

  /** The flow thrown out is what its key looks up to, and its key is not the packet's. */
  lemma VictimFound(t: seq<Flow>, k: Key)
    requires Inv(t) && Evicted(t, k).Some?
    ensures Evicted(t, k).value.key != k && Lookup(t, Evicted(t, k).value.key) == Evicted(t, k)
  {
    var p := Place(t, k);
    LookupIsMembership(t, t[p].key, p);
    hide Place, Lookup;
  }

  lemma PacketState(s: Collector, e: Event, c: Counter)
    requires Inv(s.table) && e.Packet?
    ensures PROBE <= |s.table|
    ensures var s' := Handle(s, e, c);
      && s'.table == Account(s.table, e.k, Ms(e.at), e.len, e.flags)
      && s'.log == match Evicted(s.table, e.k) case Some(f) => s.log + [Thrown(f)] case None => s.log
  {
    hide Account, Evicted;
    assert s.log + [] == s.log;
  }

  /** A key's stretch grows by a packet, and nothing of it leaves. */
  lemma Grown(s: Collector, s': Collector, q: Key, ps: seq<Event>, done: seq<seq<Event>>, open: seq<Event>, e: Event, f: Flow)
    requires Told(s, q, ps, done, open) && Inv(s'.table) && Lookup(s'.table, q) == Some(f)
    requires LogOf(s'.log, q) == LogOf(s.log, q) && FlowTells(f, open + [e])
    ensures Told(s', q, ps + [e], done, open + [e])
  {
    hide Inv, Lookup, Concat, LogOf, Tells, FlowTells;
    assert ps + [e] == Concat(done) + (open + [e]);
  }

  /** The packet's own key: its stretch grows, or a new one begins. */
  lemma OwnPacket(s: Collector, e: Event, c: Counter, ps: seq<Event>, done: seq<seq<Event>>, open: seq<Event>)
    requires e.Packet? && Told(s, e.k, ps, done, open)
    ensures Told(Handle(s, e, c), e.k, ps + [e], done, open + [e])
  {
    hide Handle, Account, Evicted, Inv, Lookup, Concat, LogOf, FlowTells, Counted, Fresh, Tells;
    var t, q := s.table, e.k;
    PacketState(s, e, c);
    AccountKeepsInv(t, q, Ms(e.at), e.len, e.flags);
    AccountLaw(t, q, Ms(e.at), e.len, e.flags, q);
    var f := match Lookup(t, q) case Some(f) => f case None => Fresh(q, Ms(e.at));
    SumsMore(f, open, e);
    if Evicted(t, q).Some? {
      VictimFound(t, q);
      LogSnoc(s.log, Thrown(Evicted(t, q).value), q);
    }
    hide Told;
    Grown(s, Handle(s, e, c), q, ps, done, open, e, Counted(f, Ms(e.at), e.len, e.flags));
  }

  lemma ConcatSnoc(done: seq<seq<Event>>, open: seq<Event>)
    ensures Concat(done + [open]) == Concat(done) + open
  {
    assert (done + [open])[..|done|] == done;
  }

  /** A key's flow leaves the table, and what leaves says what its stretch holds. */
  lemma Closed(s: Collector, s': Collector, q: Key, ps: seq<Event>, done: seq<seq<Event>>, open: seq<Event>, o: Out)
    requires Told(s, q, ps, done, open) && Inv(s'.table) && Lookup(s'.table, q) == None
    requires LogOf(s'.log, q) == LogOf(s.log, q) + [o] && Tells(o, open)
    ensures Told(s', q, ps, done + [open], [])
  {
    hide Inv, Lookup, Concat, LogOf, Tells;
    ConcatSnoc(done, open);
    assert Concat(done + [open]) + [] == ps;
  }

  /** Another key's packet: the stretch goes on, or ends with its flow thrown out. */
  lemma OtherPacket(s: Collector, e: Event, c: Counter, q: Key, ps: seq<Event>, done: seq<seq<Event>>, open: seq<Event>)
    returns (done': seq<seq<Event>>, open': seq<Event>)
    requires e.Packet? && e.k != q && Told(s, q, ps, done, open)
    ensures Told(Handle(s, e, c), q, ps, done', open')
    ensures PROBE <= |Handle(s, e, c).table|
    ensures Lookup(Handle(s, e, c).table, q).Some? ==> open' == open
  {
    var t := s.table;
    PacketState(s, e, c);
    hide Handle, Account, Evicted, Inv, Lookup, Concat, LogOf, FlowTells;
    AccountKeepsInv(t, e.k, Ms(e.at), e.len, e.flags);
    AccountLaw(t, e.k, Ms(e.at), e.len, e.flags, q);
    done', open' := done, open;
    if Evicted(t, e.k).Some? {
      var f := Evicted(t, e.k).value;
      VictimFound(t, e.k);
      LogSnoc(s.log, Thrown(f), q);
      if f.key == q {
        done', open' := done + [open], [];
        Closed(s, Handle(s, e, c), q, ps, done, open, Thrown(f));
      }
    }
  }

  // ----- one sweep -----

  lemma {:induction false} LogConcat(a: seq<Out>, b: seq<Out>, q: Key)
    ensures LogOf(a + b, q) == LogOf(a, q) + LogOf(b, q)
  {
    if b == [] {
      assert a + b == a;
    } else {
      assert (a + b)[..|a + b| - 1] == a + b[..|b| - 1];
      LogConcat(a, b[..|b| - 1], q);
    }
  }

  /** What a sweep sends of the first `k` slots. */
  function SentTo(t: seq<Flow>, k: nat, now: u32, idle: u32, age: u32): seq<Out>
    requires k <= |t|
  {
    Outgoing(ToRecords(ExpiredTo(t, k, now, idle, age)))
  }

  lemma SentStep(t: seq<Flow>, k: nat, now: u32, idle: u32, age: u32, q: Key)
    requires k < |t|
    ensures LogOf(SentTo(t, k + 1, now, idle, age), q) == LogOf(SentTo(t, k, now, idle, age), q)
      + if Expired(t[k], now, idle, age) && t[k].key == q then [Sent(ToRecord(t[k]))] else []
  {
    var es := ExpiredTo(t, k, now, idle, age);
    var out := SentTo(t, k, now, idle, age);
    if Expired(t[k], now, idle, age) {
      assert SentTo(t, k + 1, now, idle, age) == out + [Sent(ToRecord(t[k]))];
      LogSnoc(out, Sent(ToRecord(t[k])), q);
    } else {
      assert es + [] == es;
    }
    hide LogOf, ExpiredTo;
  }

  ghost predicate Absent(t: seq<Flow>, k: nat, q: Key)
    requires k <= |t|
  {
    forall j :: 0 <= j < k ==> !Matches(t[j], q)
  }

  /** Of a key no slot holds a sweep sends nothing. */
  lemma {:induction false} SentNothing(t: seq<Flow>, k: nat, now: u32, idle: u32, age: u32, q: Key)
    requires k <= |t| && Absent(t, k, q)
    ensures LogOf(SentTo(t, k, now, idle, age), q) == []
  {
    if k > 0 {
      assert !Matches(t[k - 1], q) && Absent(t, k - 1, q);
      hide LogOf, SentTo, Absent;
      SentNothing(t, k - 1, now, idle, age, q);
      SentStep(t, k - 1, now, idle, age, q);
    }
  }

  /** Of a key one slot holds it sends that flow, if it has expired. */
  lemma {:induction false} SentOf(t: seq<Flow>, j: nat, k: nat, now: u32, idle: u32, age: u32, q: Key)
    requires j < k <= |t| && Matches(t[j], q) && forall i :: 0 <= i < |t| && i != j ==> !Matches(t[i], q)
    ensures LogOf(SentTo(t, k, now, idle, age), q) == if Expired(t[j], now, idle, age) then [Sent(ToRecord(t[j]))] else []
  {
    SentStep(t, k - 1, now, idle, age, q);
    if j == k - 1 {
      SentNothing(t, j, now, idle, age, q);
      hide LogOf, SentTo, Expired;
    } else {
      assert !Matches(t[k - 1], q);
      hide LogOf, SentTo;
      SentOf(t, j, k - 1, now, idle, age, q);
    }
  }

  lemma SentOfKey(t: seq<Flow>, now: u32, idle: u32, age: u32, q: Key)
    requires Inv(t)
    ensures LogOf(SentTo(t, |t|, now, idle, age), q) ==
      match Lookup(t, q)
      case Some(f) => if Expired(f, now, idle, age) then [Sent(ToRecord(f))] else []
      case None => []
  {
    if Lookup(t, q).Some? {
      var j := Slot(Bucket(q, |t|), MatchFrom(t, q, 0), |t|);
      assert Matches(t[j], q) && Lookup(t, q) == Some(t[j]);
      assert forall i :: 0 <= i < |t| && i != j ==> !Matches(t[i], q);
      hide LogOf, SentTo, Expired, Inv, Lookup;
      SentOf(t, j, |t|, now, idle, age, q);
    } else {
      forall j | 0 <= j < |t| ensures !Matches(t[j], q) {
        NotFound(t, q, j);
      }
      hide LogOf, SentTo, Expired, Inv, Lookup;
      SentNothing(t, |t|, now, idle, age, q);
    }
  }

  lemma RecordTells(f: Flow, ps: seq<Event>)
    requires FlowTells(f, ps)
    ensures Tells(Sent(ToRecord(f)), ps)
  {
  }

  lemma SweepState(s: Collector, e: Event, c: Counter)
    requires Inv(s.table) && e.Sweep?
    ensures PROBE <= |s.table|
    ensures var s' := Handle(s, e, c);
      && s'.table == Swept(s.table, Ms(e.at), e.idle, e.age)
      && s'.log == s.log + SentTo(s.table, |s.table|, Ms(e.at), e.idle, e.age)
  {
    hide ExpiredTo, Swept;
  }

  /** A sweep: the stretch goes on, or ends with its record sent. */
  lemma SweepTells(s: Collector, e: Event, c: Counter, q: Key, ps: seq<Event>, done: seq<seq<Event>>, open: seq<Event>)
    returns (done': seq<seq<Event>>, open': seq<Event>)
    requires e.Sweep? && Told(s, q, ps, done, open)
    ensures Told(Handle(s, e, c), q, ps, done', open')
    ensures PROBE <= |Handle(s, e, c).table|
    ensures Lookup(Handle(s, e, c).table, q).Some? ==> open' == open
  {
    var t := s.table;
    SweepState(s, e, c);
    hide Handle, Swept, Inv, Lookup, Concat, LogOf, FlowTells, SentTo, Expired, Tells, ToRecord;
    SweptKeepsInv(t, Ms(e.at), e.idle, e.age);
    SweptLaw(t, Ms(e.at), e.idle, e.age, q);
    SentOfKey(t, Ms(e.at), e.idle, e.age, q);
    LogConcat(s.log, SentTo(t, |t|, Ms(e.at), e.idle, e.age), q);
    done', open' := done, open;
    if Lookup(t, q).Some? && Expired(Lookup(t, q).value, Ms(e.at), e.idle, e.age) {
      var f := Lookup(t, q).value;
      RecordTells(f, open);
      done', open' := done + [open], [];
      Closed(s, Handle(s, e, c), q, ps, done, open, Sent(ToRecord(f)));
    }
  }

  // ----- whole runs -----

  lemma EnabledTells(n: nat, q: Key)
    requires PROBE <= n
    ensures Told(Enabled(n), q, [], [], [])
  {
    var t := Enabled(n).table;
    assert forall j :: 0 <= j < |t| ==> !t[j].active;
    hide Bucket, Dist;
    assert Lookup(t, q) == None;
  }

  /** The key's flow in the table after a run. */
  function FlowAfter(n: nat, es: seq<Event>, c: Counter, q: Key): Option<Flow>
    requires PROBE <= n
  {
    Lookup(Run(Enabled(n), es, c).table, q)
  }

  /** The number of events up to the last that took the key's flow out of the table. */
  function Since(n: nat, es: seq<Event>, c: Counter, q: Key): (r: nat)
    requires PROBE <= n
    ensures r <= |es|
  {
    if es == [] then 0
    else if FlowAfter(n, es[..|es| - 1], c, q).Some? && FlowAfter(n, es, c, q) == None then |es|
    else Since(n, es[..|es| - 1], c, q)
  }

  lemma TailSnoc(es: seq<Event>, since: nat, q: Key)
    requires since < |es|
    ensures PacketsOf(es[since..], q) == PacketsOf(es[..|es| - 1][since..], q)
      + if es[|es| - 1].Packet? && es[|es| - 1].k == q then [es[|es| - 1]] else []
  {
    assert es[since..] == es[..|es| - 1][since..] + [es[|es| - 1]];
    PacketSnoc(es[..|es| - 1][since..], es[|es| - 1], q);
    hide PacketsOf;
  }

  lemma SinceSnoc(n: nat, es: seq<Event>, c: Counter, q: Key)
    requires PROBE <= n && es != []
    ensures var (init, e) := (es[..|es| - 1], es[|es| - 1]);
      var (since, left) := (Since(n, es, c, q), FlowAfter(n, init, c, q).Some? && FlowAfter(n, es, c, q) == None);
      && (left ==> PacketsOf(es[since..], q) == [])
      && (!left ==> since == Since(n, init, c, q))
      && (!left ==>
            PacketsOf(es[since..], q) == PacketsOf(init[since..], q) + if e.Packet? && e.k == q then [e] else [])
  {
    var since := Since(n, es, c, q);
    if since < |es| {
      hide FlowAfter, PacketsOf;
      TailSnoc(es, since, q);
    } else {
      hide FlowAfter;
    }
  }

  /**
   In every run, for every key: the packets counted under the key are, in order, those of its
   records and evictions, in the order these happened, and then those of its flow in the
   table, which are the ones since the key last left it; each record, eviction and flow has
   the number of its packets, their bytes, the time of the first and of the last of them, and
   all their flags.
   */
  lemma {:induction false} RunTells(n: nat, es: seq<Event>, c: Counter, q: Key)
    returns (done: seq<seq<Event>>, open: seq<Event>)
    requires PROBE <= n
    ensures Told(Run(Enabled(n), es, c), q, PacketsOf(es, q), done, open)
    ensures open == PacketsOf(es[Since(n, es, c, q)..], q)
  {
    if es == [] {
      EnabledTells(n, q);
      done, open := [], [];
    } else {
      var init, e := es[..|es| - 1], es[|es| - 1];
      done, open := RunTells(n, init, c, q);
      var s, ps := Run(Enabled(n), init, c), PacketsOf(init, q);
      assert Run(Enabled(n), es, c) == Handle(s, e, c);
      assert ps + [] == ps && open + [] == open;
      SinceSnoc(n, es, c, q);
      hide Run, Handle, Since;
      assert FlowAfter(n, init, c, q) == None ==> open == [];
      ToldOpen(s, q, ps, done, open);
      hide Told;
      if e.Sweep? {
        done, open := SweepTells(s, e, c, q, ps, done, open);
      } else if e.k == q {
        OwnPacket(s, e, c, ps, done, open);
        open := open + [e];
      } else {
        done, open := OtherPacket(s, e, c, q, ps, done, open);
      }
      ToldOpen(Run(Enabled(n), es, c), q, PacketsOf(es, q), done, open);
    }
  }

  lemma ToldOpen(s: Collector, q: Key, ps: seq<Event>, done: seq<seq<Event>>, open: seq<Event>)
    requires Told(s, q, ps, done, open)
    ensures PROBE <= |s.table| && (Lookup(s.table, q) == None <==> open == [])
  {
    hide Lookup, Concat, LogOf, Tells;
  }
}
