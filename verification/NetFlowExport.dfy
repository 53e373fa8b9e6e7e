/**
 Ageing and export: a sweep takes out exactly the expired flows and sends them, in table
 order, in datagrams of at most thirty records with running sequence numbers. Over whole
 runs every packet counted is in the table, in an exported record, or in an evicted flow.
 */
module NetFlowExport {
  import opened Words
  import opened Wrappers
  import opened NetFlowSpec

  const MAX_RECS: int := 30

  // ----- export -----

  /** `nfv5_rec_t`, as far as it is filled in. */
  datatype Record = Record(src: u32, dst: u32, pkts: u32, bytes: u32, first: u32, last: u32,
                           sport: u16, dport: u16, flags: bv8, proto: u8)

  datatype Datagram = Datagram(count: u16, uptime: u32, seqNo: u32, records: seq<Record>)

  function ToRecord(f: Flow): Record {
    Record(f.key.src, f.key.dst, f.pkts, f.bytes, f.first, f.last, f.key.sport, f.key.dport, f.flags, f.key.proto)
  }

  function ToRecords(fs: seq<Flow>): (r: seq<Record>)
    ensures |r| == |fs|
    ensures forall i :: 0 <= i < |fs| ==> r[i] == ToRecord(fs[i])
  {
    seq(|fs|, i requires 0 <= i < |fs| => ToRecord(fs[i]))
  }

  /** The records of a series of datagrams, in order. */
  function AllRecords(ds: seq<Datagram>): seq<Record> {
    if ds == [] then [] else AllRecords(ds[..|ds| - 1]) + ds[|ds| - 1].records
  }

  /**
   What a collector relies on: each datagram says how many records it carries, between one
   and thirty, and its sequence number is the start value plus all records sent before it.
   */
  ghost predicate Series(ds: seq<Datagram>, start: u32, now: u32) {
    ds == [] || (Series(ds[..|ds| - 1], start, now) && Follows(ds[..|ds| - 1], ds[|ds| - 1], start, now))
  }

  ghost predicate Follows(ds: seq<Datagram>, d: Datagram, start: u32, now: u32) {
    && d.count == |d.records| && 0 < |d.records| <= MAX_RECS
    && d.uptime == now
    && d.seqNo == (start + |AllRecords(ds)|) % M32
  }

  /** The same for each datagram of a series and the ones before it. */
  lemma {:induction false} SeriesMeaning(ds: seq<Datagram>, start: u32, now: u32, i: nat)
    requires Series(ds, start, now) && i < |ds|
    ensures Follows(ds[..i], ds[i], start, now)
  {
    var n := |ds| - 1;
    if i < n {
      SeriesMeaning(ds[..n], start, now, i);
      assert ds[..n][..i] == ds[..i];
    }
  }

  lemma SeriesSnoc(ds: seq<Datagram>, start: u32, now: u32, d: Datagram)
    requires Series(ds, start, now) && Follows(ds, d, start, now)
    ensures Series(ds + [d], start, now)
    ensures AllRecords(ds + [d]) == AllRecords(ds) + d.records
  {
    assert (ds + [d])[..|ds|] == ds;
  }

  /** `export_batch`, with the socket open. */
  method ExportBatch(flows: seq<Flow>, now: u32, seqNo: u32) returns (ds: seq<Datagram>, next: u32)
    ensures AllRecords(ds) == ToRecords(flows)
    ensures Series(ds, seqNo, now)
    ensures next == (seqNo + |flows|) % M32
    ensures forall i :: 0 <= i < |ds| - 1 ==> |ds[i].records| == MAX_RECS
  {
    var sent := 0;
    ds, next := [], seqNo;
    hide Series, AllRecords, ToRecords, Follows;
    assert AllRecords([]) == [] && Series([], seqNo, now) && ToRecords(flows[..0]) == [] by { NoDatagrams(seqNo, now); }
    while sent < |flows|
      invariant 0 <= sent <= |flows|
      invariant AllRecords(ds) == ToRecords(flows[..sent])
      invariant Series(ds, seqNo, now)
      invariant next == (seqNo + sent) % M32
      invariant forall i :: 0 <= i < |ds| ==> |ds[i].records| == MAX_RECS || sent == |flows|
      invariant forall i :: 0 <= i < |ds| - 1 ==> |ds[i].records| == MAX_RECS
    {
      var batch := |flows| - sent;
      if batch > MAX_RECS {
        batch := MAX_RECS;
      }
      var records := FillRecords(flows, sent, batch);
      var d := Datagram(batch, now, next, records);
      Appended(flows, ds, d, sent, batch, seqNo, now);
      ds := ds + [d];
      next := (next + batch) % M32;
      sent := sent + batch;
    }
    assert flows[..sent] == flows;
  }

  lemma NoDatagrams(start: u32, now: u32)
    ensures AllRecords([]) == [] && Series([], start, now) && ToRecords([]) == []
  {
  }

  lemma Appended(flows: seq<Flow>, ds: seq<Datagram>, d: Datagram, sent: nat, batch: nat, start: u32, now: u32)
    requires sent + batch <= |flows| && 0 < batch <= MAX_RECS
    requires AllRecords(ds) == ToRecords(flows[..sent]) && Series(ds, start, now)
    requires d == Datagram(batch, now, (start + sent) % M32, ToRecords(flows[sent..sent + batch]))
    ensures Series(ds + [d], start, now)
    ensures AllRecords(ds + [d]) == ToRecords(flows[..sent + batch])
  {
    hide Series;
    SeriesSnoc(ds, start, now, d);
  }

  /** The loop that fills one datagram's records. */
  method FillRecords(flows: seq<Flow>, sent: nat, batch: nat) returns (records: seq<Record>)
    requires sent + batch <= |flows|
    ensures records == ToRecords(flows[sent..sent + batch])
  {
    records := [];
    for i := 0 to batch
      invariant records == ToRecords(flows[sent..sent + i])
    {
      var f := flows[sent + i];
      records := records + [Record(f.key.src, f.key.dst, f.pkts, f.bytes, f.first, f.last,
                                   f.key.sport, f.key.dport, f.flags, f.key.proto)];
    }
  }

  // ----- ageing -----

  /** Idle or over age, by unsigned wrapping subtraction. */
  predicate Expired(f: Flow, now: u32, idle: u32, age: u32) {
    f.active && (Sub32(now, f.last) >= idle || Sub32(now, f.first) >= age)
  }

  /** The expired flows among the first `k` slots, in table order. */
  function ExpiredTo(t: seq<Flow>, k: nat, now: u32, idle: u32, age: u32): seq<Flow>
    requires k <= |t|
  {
    if k == 0 then []
    else ExpiredTo(t, k - 1, now, idle, age) + if Expired(t[k - 1], now, idle, age) then [t[k - 1]] else []
  }

  /** The table after a sweep: expired entries inactive, the rest as they were. */
  function Swept(t: seq<Flow>, now: u32, idle: u32, age: u32): (r: seq<Flow>)
    ensures |r| == |t|
  {
    seq(|t|, j requires 0 <= j < |t| => if Expired(t[j], now, idle, age) then t[j].(active := false) else t[j])
  }

  lemma SweptKeepsInv(t: seq<Flow>, now: u32, idle: u32, age: u32)
    requires Inv(t)
    ensures Inv(Swept(t, now, idle, age))
  {
    var s := Swept(t, now, idle, age);
    assert forall j :: 0 <= j < |t| && s[j].active ==> t[j].active && s[j].key == t[j].key;
    hide Bucket, Dist, Swept, Expired;
  }

  /** A sweep removes exactly the expired flows; every other key looks up as before. */
  lemma SweptLaw(t: seq<Flow>, now: u32, idle: u32, age: u32, q: Key)
    requires Inv(t)
    ensures Lookup(Swept(t, now, idle, age), q) ==
      match Lookup(t, q)
      case Some(f) => if Expired(f, now, idle, age) then None else Some(f)
      case None => None
  {
    var s := Swept(t, now, idle, age);
    SweptKeepsInv(t, now, idle, age);
    if Lookup(s, q).Some? {
      var i := Slot(Bucket(q, |t|), MatchFrom(s, q, 0), |t|);
      assert Matches(s[i], q) && s[i] == t[i];
      LookupIsMembership(t, q, i);
    } else if Lookup(t, q).Some? {
      var j := Slot(Bucket(q, |t|), MatchFrom(t, q, 0), |t|);
      NotFound(s, q, j);
    }
  }

  // ----- conservation -----

  /** Which counter is followed: packets or bytes. */
  datatype Counter = Packets | Octets

  function Weight(f: Flow, c: Counter): nat {
    if c == Packets then f.pkts else f.bytes
  }

  function Sum(t: seq<Flow>, c: Counter): nat {
    if t == [] then 0
    else Sum(t[..|t| - 1], c) + if t[|t| - 1].active then Weight(t[|t| - 1], c) else 0
  }

  function Share(f: Flow, c: Counter): nat {
    if f.active then Weight(f, c) else 0
  }

  lemma {:induction false} SumUpdate(t: seq<Flow>, p: nat, f: Flow, c: Counter)
    requires p < |t|
    ensures Sum(t[p := f], c) == Sum(t, c) - Share(t[p], c) + Share(f, c)
  {
    var n := |t| - 1;
    if p < n {
      assert t[p := f][..n] == t[..n][p := f];
      SumUpdate(t[..n], p, f, c);
    } else {
      assert t[p := f][..n] == t[..n];
    }
  }

  function Total(rs: seq<Record>, c: Counter): nat {
    if rs == [] then 0
    else Total(rs[..|rs| - 1], c) + if c == Packets then rs[|rs| - 1].pkts else rs[|rs| - 1].bytes
  }

  lemma {:induction false} TotalConcat(a: seq<Record>, b: seq<Record>, c: Counter)
    ensures Total(a + b, c) == Total(a, c) + Total(b, c)
  {
    if b == [] {
      assert a + b == a;
    } else {
      assert (a + b)[..|a + b| - 1] == a + b[..|b| - 1];
      TotalConcat(a, b[..|b| - 1], c);
    }
  }

  lemma {:induction false} SumSwept(t: seq<Flow>, now: u32, idle: u32, age: u32, c: Counter)
    ensures Sum(t, c) == Sum(Swept(t, now, idle, age), c)
                       + Total(ToRecords(ExpiredTo(t, |t|, now, idle, age)), c)
  {
    if t != [] {
      var n := |t| - 1;
      SumSwept(t[..n], now, idle, age, c);
      assert Swept(t, now, idle, age)[..n] == Swept(t[..n], now, idle, age);
      hide Total, ToRecords, ExpiredTo, Weight;
      ExpiredPrefix(t, n, n, now, idle, age);
      ExpiredTotal(t, n, now, idle, age, c);
    }
  }

  lemma ExpiredTotal(t: seq<Flow>, k: nat, now: u32, idle: u32, age: u32, c: Counter)
    requires k < |t|
    ensures Total(ToRecords(ExpiredTo(t, k + 1, now, idle, age)), c) ==
      Total(ToRecords(ExpiredTo(t, k, now, idle, age)), c) + if Expired(t[k], now, idle, age) then Weight(t[k], c) else 0
  {
    var es := ExpiredTo(t, k, now, idle, age);
    if Expired(t[k], now, idle, age) {
      hide Total;
      assert ToRecords(es + [t[k]]) == ToRecords(es) + [ToRecord(t[k])];
      TotalConcat(ToRecords(es), [ToRecord(t[k])], c);
      TotalOne(ToRecord(t[k]), c);
    } else {
      assert es + [] == es;
    }
  }

  lemma TotalOne(r: Record, c: Counter)
    ensures Total([r], c) == if c == Packets then r.pkts else r.bytes
  {
    assert [r][..0] == [];
  }

  lemma {:induction false} ExpiredPrefix(t: seq<Flow>, n: nat, k: nat, now: u32, idle: u32, age: u32)
    requires k <= n <= |t|
    ensures ExpiredTo(t[..n], k, now, idle, age) == ExpiredTo(t, k, now, idle, age)
  {
    if k > 0 {
      ExpiredPrefix(t, n, k - 1, now, idle, age);
    }
  }

  /** How a flow leaves the table: as a record sent, or thrown out for another. */
  datatype Out = Sent(rec: Record) | Thrown(flow: Flow)

  function Outgoing(rs: seq<Record>): seq<Out> {
    seq(|rs|, i requires 0 <= i < |rs| => Sent(rs[i]))
  }

  /** The component between two enables: the table, both running numbers, and what went where. */
  datatype Collector = Collector(
    table: seq<Flow>, seqNo: u32, exported: u32, sent: seq<Record>, log: seq<Out>,
    counted: nat, lost: nat)

  /** `at` is the time since boot in milliseconds, of which the component keeps 32 bits. */
  datatype Event = Packet(k: Key, at: nat, len: u16, flags: bv8) | Sweep(at: nat, idle: u32, age: u32)

  function Ms(at: nat): u32 {
    at % M32
  }

  function Added(e: Event, c: Counter): nat {
    match e
    case Packet(_, _, len, _) => if c == Packets then 1 else len
    case Sweep(_, _, _) => 0
  }

  function Handle(s: Collector, e: Event, c: Counter): Collector
    requires PROBE <= |s.table|
  {
    match e
    case Packet(k, at, len, flags) =>
      var v := Evicted(s.table, k);
      s.(table := Account(s.table, k, Ms(at), len, flags),
         counted := s.counted + Added(e, c),
         log := s.log + (match v case Some(f) => [Thrown(f)] case None => []),
         lost := s.lost + match v case Some(f) => Weight(f, c) case None => 0)
    case Sweep(at, idle, age) =>
      var es := ExpiredTo(s.table, |s.table|, Ms(at), idle, age);
      s.(table := Swept(s.table, Ms(at), idle, age),
         seqNo := (s.seqNo + |es|) % M32,
         exported := (s.exported + |es|) % M32,
         sent := s.sent + ToRecords(es),
         log := s.log + Outgoing(ToRecords(es)))
  }

  ghost predicate Balanced(s: Collector, c: Counter) {
    && Inv(s.table)
    && (s.counted - Sum(s.table, c) - Total(s.sent, c) - s.lost) % M32 == 0
    && s.seqNo == s.exported
  }

  lemma WrapKeeps(x: int, k: int)
    requires x % M32 == 0 && (k == 0 || k == M32)
    ensures (x + k) % M32 == 0
  {
  }

  /** What one packet does to the sums: its entry's share replaces the slot's old one, and the victim's share is lost. */
  lemma PacketEffect(s: Collector, e: Event, c: Counter)
    requires PROBE <= |s.table| && e.Packet?
    ensures var t, p := s.table, Place(s.table, e.k);
      var x := Entry(t, e.k, Ms(e.at));
      var y := Counted(x, Ms(e.at), e.len, e.flags);
      var s' := Handle(s, e, c);
      && s'.table == t[p := y] && s'.table == Account(t, e.k, Ms(e.at), e.len, e.flags)
      && s'.sent == s.sent && s'.seqNo == s.seqNo && s'.exported == s.exported
      && s'.counted == s.counted + Added(e, c)
      && s'.lost == s.lost + Share(t[p], c) - Weight(x, c)
      && Share(y, c) == Weight(y, c)
  {
    hide Place;
  }

  lemma PacketKeeps(s: Collector, e: Event, c: Counter)
    requires Balanced(s, c) && e.Packet?
    ensures Balanced(Handle(s, e, c), c)
  {
    hide Handle, Account, Place, Entry, Counted, Inv, Sum, Weight, Added, Share, Total;
    assert PROBE <= |s.table| by { InvSize(s.table); }
    var t, p := s.table, Place(s.table, e.k);
    var x := Entry(t, e.k, Ms(e.at));
    var y := Counted(x, Ms(e.at), e.len, e.flags);
    AccountKeepsInv(t, e.k, Ms(e.at), e.len, e.flags);
    SumUpdate(t, p, y, c);
    PacketEffect(s, e, c);
    Carry(x, y, e, c);
    WrapKeeps(s.counted - Sum(t, c) - Total(s.sent, c) - s.lost, Weight(x, c) + Added(e, c) - Weight(y, c));
  }

  lemma InvSize(t: seq<Flow>)
    requires Inv(t)
    ensures PROBE <= |t|
  {
  }

  lemma Carry(x: Flow, y: Flow, e: Event, c: Counter)
    requires e.Packet? && y == Counted(x, Ms(e.at), e.len, e.flags)
    ensures var carry := Weight(x, c) + Added(e, c) - Weight(y, c); carry == 0 || carry == M32
  {
  }

  lemma SweepKeeps(s: Collector, e: Event, c: Counter)
    requires Balanced(s, c) && e.Sweep?
    ensures Balanced(Handle(s, e, c), c)
  {
    SweptKeepsInv(s.table, Ms(e.at), e.idle, e.age);
    SumSwept(s.table, Ms(e.at), e.idle, e.age, c);
    var es := ExpiredTo(s.table, |s.table|, Ms(e.at), e.idle, e.age);
    TotalConcat(s.sent, ToRecords(es), c);
  }

  function Run(s: Collector, es: seq<Event>, c: Counter): Collector
    requires PROBE <= |s.table|
    ensures |Run(s, es, c).table| == |s.table|
  {
    if es == [] then s else Handle(Run(s, es[..|es| - 1], c), es[|es| - 1], c)
  }

  /**
   Conservation over whole runs, for packets and for bytes: what was counted equals what is
   in active flows, plus what is in exported records, plus what evicted flows held, modulo
   2^32; and the sequence number agrees with the exported-flow counter.
   */
  lemma {:induction false} RunConserves(n: nat, es: seq<Event>, c: Counter)
    requires PROBE <= n
    ensures Balanced(Run(Enabled(n), es, c), c)
  {
    if es == [] {
      SumInactive(Enabled(n).table, c);
    } else {
      RunConserves(n, es[..|es| - 1], c);
      var s, e := Run(Enabled(n), es[..|es| - 1], c), es[|es| - 1];
      if e.Packet? {
        PacketKeeps(s, e, c);
      } else {
        SweepKeeps(s, e, c);
      }
    }
  }

  const Blank: Flow := Flow(Key(0, 0, 0, 0, 0), 0, 0, 0, 0, 0, false)

  /** A freshly cleared table of `n` slots. */
  function Enabled(n: nat): (r: Collector)
    ensures |r.table| == n
  {
    Collector(seq(n, _ => Blank), 0, 0, [], [], 0, 0)
  }

  lemma {:induction false} SumInactive(t: seq<Flow>, c: Counter)
    requires forall j :: 0 <= j < |t| ==> !t[j].active
    ensures Sum(t, c) == 0
  {
    if t != [] {
      SumInactive(t[..|t| - 1], c);
    }
  }
}
