/**
 The NetFlow component in place: the flow table array, the running numbers and the loops
 over them, proved against `NetFlowSpec` and `NetFlowExport`.
 */
module NetFlow {
  import opened Words
  import opened NetFlowSpec
  import opened NetFlowExport

  /** `fnv1a`. */
  method Fnv1a(p: seq<u8>) returns (h: bv32)
    ensures h == Fnv(p)
  {
    hide XorByte, TimesPrime;
    h := 2166136261;
    for i := 0 to |p|
      invariant h == Fnv(p[..i])
    {
      assert p[..i + 1][..i] == p[..i];
      h := XorByte(h, p[i]);
      h := TimesPrime(h);
    }
    assert p[..|p|] == p;
  }

  class Exporter {
    const table: array<Flow>
    var seqNo: u32
    var exported: u32
    var idleMs: u32
    var activeMs: u32
    var sockOpen: bool
    var sent: seq<Datagram>  // datagrams handed to the socket

    constructor (n: nat)
      requires PROBE <= n
      ensures fresh(table) && table[..] == Enabled(n).table && Inv(table[..])
      ensures seqNo == 0 && exported == 0 && sent == [] && idleMs == 60000 && activeMs == 300000
    {
      table := new Flow[n](_ => Blank);
      seqNo, exported, idleMs, activeMs, sockOpen, sent := 0, 0, 60000, 300000, false, [];
    }

    /** First pass of `flow_find_or_create`. */
    method FindMatch(k: Key, b: nat) returns (m: nat)
      requires PROBE <= table.Length && b == Bucket(k, table.Length)
      ensures m == MatchFrom(table[..], k, 0)
    {
      hide Bucket;
      m := 0;
      while m < PROBE
        invariant 0 <= m <= PROBE
        invariant MatchFrom(table[..], k, 0) == MatchFrom(table[..], k, m)
      {
        var e := table[Slot(b, m, table.Length)];
        if e.active && e.key == k {
          return;
        }
        m := m + 1;
      }
    }

    /** Second pass. */
    method FindFree(b: nat) returns (f: nat)
      requires PROBE <= table.Length && b < table.Length
      ensures f == FreeFrom(table[..], b, 0)
    {
      f := 0;
      while f < PROBE
        invariant 0 <= f <= PROBE
        invariant FreeFrom(table[..], b, 0) == FreeFrom(table[..], b, f)
      {
        if !table[Slot(b, f, table.Length)].active {
          return;
        }
        f := f + 1;
      }
    }

    /** Third pass. */
    method FindOldest(b: nat) returns (r: nat)
      requires PROBE <= table.Length && b < table.Length
      ensures r == OldestTo(table[..], b, PROBE)
    {
      r := 0;
      var i := 1;
      while i < PROBE
        invariant 1 <= i <= PROBE
        invariant r == OldestTo(table[..], b, i)
      {
        var e := table[Slot(b, i, table.Length)];
        var oldest := table[Slot(b, r, table.Length)];
        if e.active && Before(e.last, oldest.last) {
          r := i;
        }
        i := i + 1;
      }
    }

    /** `flow_find_or_create`: the index of the entry to count in. */
    method FindOrCreate(k: Key, now: u32) returns (p: nat)
      requires PROBE <= table.Length
      modifies table
      ensures p == Place(old(table[..]), k) && p < table.Length
      ensures table[..] == old(table[..])[p := Entry(old(table[..]), k, now)]
    {
      ghost var t := table[..];
      var h := Fnv1a(KeyBytes(k));
      var b := (h as int) % table.Length;
      assert b == Bucket(k, table.Length);
      hide Fnv, Bucket, MatchFrom, FreeFrom, OldestTo;
      var m := FindMatch(k, b);
      if m < PROBE {
        p := Slot(b, m, table.Length);
        assert t[p := t[p]] == t;
        return;
      }
      var f := FindFree(b);
      if f < PROBE {
        p := Slot(b, f, table.Length);
      } else {
        var r := FindOldest(b);
        p := Slot(b, r, table.Length);
        assert t[p].active;
      }
      NotMatched(t, k, p);
      table[p] := Flow(k, 0, 0, now, now, 0, true);
    }

    /** `netflow_account` from the key on; `on` is the direction filter, `free` the non-blocking take of the mutex. */
    method AccountPacket(k: Key, now: u32, len: u16, flags: bv8, on: bool, free: bool)
      requires PROBE <= table.Length
      modifies table
      ensures table[..] == if on && free then Account(old(table[..]), k, now, len, flags) else old(table[..])
    {
      if !on || !free {
        return;
      }
      hide Place;
      var p := FindOrCreate(k, now);
      var f := table[p];
      table[p] := f.(pkts := Inc32(f.pkts), bytes := (f.bytes + len) % M32, last := now, flags := f.flags | flags);
    }

    /** The collecting loop of `sweep_and_export`: the expired slots in table order. */
    method CollectExpired(now: u32) returns (slots: seq<nat>)
      ensures forall i :: 0 <= i < |slots| ==> slots[i] < table.Length
      ensures forall j :: 0 <= j < table.Length ==> (j in slots <==> Expired(table[j], now, idleMs, activeMs))
      ensures Picked(slots, table[..]) == ExpiredTo(table[..], table.Length, now, idleMs, activeMs)
    {
      hide Picked, ExpiredTo;
      slots := [];
      ghost var t := table[..];
      CollectNothing(t, now, idleMs, activeMs);
      for i := 0 to table.Length
        invariant forall x :: 0 <= x < |slots| ==> slots[x] < i
        invariant forall j :: 0 <= j < i ==> (j in slots <==> Expired(t[j], now, idleMs, activeMs))
        invariant Picked(slots, t) == ExpiredTo(t, i, now, idleMs, activeMs)
      {
        ExpiredStep(t, i, now, idleMs, activeMs);
        var e := table[i];
        var expired := e.active && (Sub32(now, e.last) >= idleMs || Sub32(now, e.first) >= activeMs);
        if expired {
          PickedSnoc(slots, i, t);
          slots := slots + [i];
        }
      }
    }

    /** `sweep_and_export`, as one step: collect, send, deactivate. */
    method SweepAndExport(now: u32)
      modifies this`seqNo, this`exported, this`sent, table
      ensures table[..] == Swept(old(table[..]), now, idleMs, activeMs)
      ensures var es := ExpiredTo(old(table[..]), table.Length, now, idleMs, activeMs);
        if sockOpen && es != [] then
          seqNo == (old(seqNo) + |es|) % M32 && exported == (old(exported) + |es|) % M32
        else seqNo == old(seqNo) && exported == old(exported) && sent == old(sent)
      ensures var es := ExpiredTo(old(table[..]), table.Length, now, idleMs, activeMs);
        sockOpen ==> exists ds ::
          sent == old(sent) + ds && AllRecords(ds) == ToRecords(es) && Series(ds, old(seqNo), now)
    {
      hide ToRecords, Series, AllRecords, ExpiredTo;
      var slots := CollectExpired(now);
      var flows := Pick(slots);
      ghost var ds: seq<Datagram> := [];
      if |slots| == 0 || !sockOpen {
        assert AllRecords([]) == [] && Series([], seqNo, now) && ToRecords([]) == [] by { NoDatagrams(seqNo, now); }
        assert sent + ds == sent;
      } else {
        var batches, next := ExportBatch(flows, now, seqNo);
        ds := batches;
        sent := sent + batches;
        seqNo := next;
        exported := (exported + |flows|) % M32;
      }
      Deactivate(slots, now);
    }

    /** The pointers collected, followed. */
    method Pick(slots: seq<nat>) returns (flows: seq<Flow>)
      requires forall i :: 0 <= i < |slots| ==> slots[i] < table.Length
      ensures flows == Picked(slots, table[..]) && |flows| == |slots|
    {
      flows := [];
      for i := 0 to |slots|
        invariant flows == Picked(slots[..i], table[..]) && |flows| == i
      {
        assert slots[..i + 1] == slots[..i] + [slots[i]];
        PickedSnoc(slots[..i], slots[i], table[..]);
        flows := flows + [table[slots[i]]];
      }
      assert slots[..|slots|] == slots;
    }

    /** The clearing loop. */
    method Deactivate(slots: seq<nat>, ghost now: u32)
      requires forall i :: 0 <= i < |slots| ==> slots[i] < table.Length
      requires forall j :: 0 <= j < table.Length ==> (j in slots <==> Expired(table[j], now, idleMs, activeMs))
      modifies table
      ensures table[..] == Swept(old(table[..]), now, idleMs, activeMs)
    {
      ghost var t := table[..];
      for i := 0 to |slots|
        invariant forall j :: 0 <= j < table.Length ==>
          table[j] == if j in slots[..i] then t[j].(active := false) else t[j]
      {
        table[slots[i]] := table[slots[i]].(active := false);
        assert slots[..i + 1] == slots[..i] + [slots[i]];
      }
      assert slots[..|slots|] == slots;
    }

    /** The guard of the export task around each sweep: disabled or without a socket, nothing is aged. */
    method ExportTurn(now: u32, enabled: bool)
      modifies this`seqNo, this`exported, this`sent, table
      ensures enabled && sockOpen ==> table[..] == Swept(old(table[..]), now, idleMs, activeMs)
      ensures var es := ExpiredTo(old(table[..]), table.Length, now, idleMs, activeMs);
        enabled && sockOpen ==>
          exists ds :: sent == old(sent) + ds && AllRecords(ds) == ToRecords(es) && Series(ds, old(seqNo), now)
      ensures !(enabled && sockOpen) ==> table[..] == old(table[..]) && sent == old(sent) && seqNo == old(seqNo)
      ensures old(seqNo) == old(exported) ==> seqNo == exported
    {
      if !enabled || !sockOpen {
        return;
      }
      hide ToRecords, Series, AllRecords, ExpiredTo, Swept;
      SweepAndExport(now);
    }

    /** The table, the numbers and the records sent are those of collector `s`. */
    ghost predicate Is(s: Collector)
      reads this, table
    {
      table[..] == s.table && seqNo == s.seqNo && exported == s.exported && AllRecords(sent) == s.sent
    }

    /** Packets counted and sweeps made, one after the other: the component does the specified run. */
    method Serve(es: seq<Event>, ghost s: Collector, ghost c: Counter)
      requires PROBE <= table.Length && sockOpen && Is(s)
      requires forall i :: 0 <= i < |es| && es[i].Sweep? ==> es[i].idle == idleMs && es[i].age == activeMs
      modifies this`seqNo, this`exported, this`sent, table
      ensures Is(Run(s, es, c))
    {
      for k := 0 to |es|
        invariant Is(Run(s, es[..k], c))
      {
        assert es[..k + 1][..k] == es[..k];
        ghost var s1 := Run(s, es[..k], c);
        hide Run;
        Take(es[k], s1, c);
      }
      assert es[..|es|] == es;
    }

    method Take(e: Event, ghost s: Collector, ghost c: Counter)
      requires PROBE <= table.Length && sockOpen && Is(s)
      requires e.Sweep? ==> e.idle == idleMs && e.age == activeMs
      modifies this`seqNo, this`exported, this`sent, table
      ensures Is(Handle(s, e, c))
    {
      hide Account, Swept, ExpiredTo, ToRecords, AllRecords, Series, Evicted;
      match e {
        case Packet(k, at, len, flags) =>
          AccountPacket(k, at % M32, len, flags, true, true);
        case Sweep(at, idle, age) =>
          ghost var before := sent;
          SweepAndExport(at % M32);
          ghost var ds := sent[|before|..];
          assert sent == before + ds;
          RecordsConcat(before, ds);
      }
    }
  }

  lemma {:induction false} RecordsConcat(a: seq<Datagram>, b: seq<Datagram>)
    ensures AllRecords(a + b) == AllRecords(a) + AllRecords(b)
  {
    if b == [] {
      assert a + b == a;
    } else {
      assert (a + b)[..|a + b| - 1] == a + b[..|b| - 1];
      RecordsConcat(a, b[..|b| - 1]);
    }
  }

  lemma CollectNothing(t: seq<Flow>, now: u32, idle: u32, age: u32)
    ensures Picked([], t) == ExpiredTo(t, 0, now, idle, age)
  {
  }

  lemma ExpiredStep(t: seq<Flow>, i: nat, now: u32, idle: u32, age: u32)
    requires i < |t|
    ensures ExpiredTo(t, i + 1, now, idle, age)
      == ExpiredTo(t, i, now, idle, age) + if Expired(t[i], now, idle, age) then [t[i]] else []
  {
  }

  lemma NotMatched(t: seq<Flow>, k: Key, p: nat)
    requires PROBE <= |t| && p == Place(t, k)
    requires MatchFrom(t, k, 0) == PROBE
    ensures !Matches(t[p], k)
  {
    var b := Bucket(k, |t|);
    var f := FreeFrom(t, b, 0);
    var i := if f < PROBE then f else OldestTo(t, b, PROBE);
    assert p == Slot(b, i, |t|);
  }

  /** The entries at a list of slots. */
  function Picked(slots: seq<nat>, t: seq<Flow>): seq<Flow>
    requires forall i :: 0 <= i < |slots| ==> slots[i] < |t|
  {
    if slots == [] then [] else Picked(slots[..|slots| - 1], t) + [t[slots[|slots| - 1]]]
  }

  lemma PickedSnoc(slots: seq<nat>, j: nat, t: seq<Flow>)
    requires j < |t| && forall i :: 0 <= i < |slots| ==> slots[i] < |t|
    ensures Picked(slots + [j], t) == Picked(slots, t) + [t[j]]
  {
    assert (slots + [j])[..|slots|] == slots;
  }
}
