/**
 The NetFlow flow table as a value: an open-addressed table probed over a window of eight
 slots, which evicts when the window is full and ages by wrapping 32-bit time.
 */
module NetFlowSpec {
  import opened Words
  import opened Wrappers

  const PROBE: int := 8

  datatype Key = Key(src: u32, dst: u32, sport: u16, dport: u16, proto: u8)

  datatype Flow = Flow(key: Key, pkts: u32, bytes: u32, first: u32, last: u32, flags: bv8, active: bool)

  // ----- the hash -----

  /** The bytes of the key structure in memory, without its padding. */
  function KeyBytes(k: Key): (r: seq<u8>)
    ensures |r| == 13
  {
    Le(k.src, 4) + Le(k.dst, 4) + Le(k.sport, 2) + Le(k.dport, 2) + [k.proto]
  }

  function XorByte(h: bv32, b: u8): bv32 { h ^ (b as bv32) }

  function TimesPrime(h: bv32): bv32 { h * 16777619 }

  /** FNV-1a over a byte string. */
  function Fnv(p: seq<u8>): bv32 {
    if p == [] then 2166136261 else TimesPrime(XorByte(Fnv(p[..|p| - 1]), p[|p| - 1]))
  }

  /** The published hash of "fo". */
  lemma FnvKnown()
    ensures Fnv([0x66, 0x6F]) == 0x6222E842
  {
    var b: seq<u8> := [0x66, 0x6F];
    assert Fnv(b[..0]) == 2166136261;
    hide Fnv;
    FnvNext(b, 0, 0xE30C2799);
    FnvNext(b, 1, 0x6222E842);
    assert b[..2] == b;
  }

  lemma FnvNext(b: seq<u8>, k: nat, h: bv32)
    requires k < |b| && TimesPrime(XorByte(Fnv(b[..k]), b[k])) == h
    ensures Fnv(b[..k + 1]) == h
  {
    FnvSnoc(b, k);
  }

  lemma FnvSnoc(b: seq<u8>, k: nat)
    requires k < |b|
    ensures Fnv(b[..k + 1]) == TimesPrime(XorByte(Fnv(b[..k]), b[k]))
  {
    assert b[..k + 1][..k] == b[..k];
  }

  /** The first slot of a key's probe window. */
  function Bucket(k: Key, n: nat): (r: nat)
    requires n > 0
    ensures r < n
  {
    (Fnv(KeyBytes(k)) as int) % n
  }

  /** Slot `i` of the window that starts at `b`. */
  function Slot(b: nat, i: nat, n: nat): (r: nat)
    requires b < n && i < PROBE <= n
    ensures r < n
  {
    if b + i < n then b + i else b + i - n
  }

  /** How far slot `j` lies behind `b` on the circle of slots. */
  function Dist(b: nat, j: nat, n: nat): (r: nat)
    requires b < n && j < n
    ensures r < n
  {
    if j >= b then j - b else j - b + n
  }

  lemma SlotDist(b: nat, i: nat, n: nat)
    requires b < n && i < PROBE <= n
    ensures Dist(b, Slot(b, i, n), n) == i
  {
  }

  lemma DistSlot(b: nat, j: nat, n: nat)
    requires b < n && j < n && PROBE <= n && Dist(b, j, n) < PROBE
    ensures Slot(b, Dist(b, j, n), n) == j
  {
  }

  // ----- the three passes -----

  predicate Matches(f: Flow, k: Key) { f.active && f.key == k }

  /** First pass: the first window position from `i` on that holds the key. */
  function MatchFrom(t: seq<Flow>, k: Key, i: nat): (r: nat)
    requires PROBE <= |t| && i <= PROBE
    ensures i <= r <= PROBE
    ensures r < PROBE ==> Matches(t[Slot(Bucket(k, |t|), r, |t|)], k)
    ensures forall j :: i <= j < r ==> !Matches(t[Slot(Bucket(k, |t|), j, |t|)], k)
    decreases PROBE - i
  {
    if i == PROBE || Matches(t[Slot(Bucket(k, |t|), i, |t|)], k) then i else MatchFrom(t, k, i + 1)
  }

  /** Second pass: the first free window position from `i` on. */
  function FreeFrom(t: seq<Flow>, b: nat, i: nat): (r: nat)
    requires b < |t| && PROBE <= |t| && i <= PROBE
    ensures i <= r <= PROBE
    ensures r < PROBE ==> !t[Slot(b, r, |t|)].active
    ensures forall j :: i <= j < r ==> t[Slot(b, j, |t|)].active
    decreases PROBE - i
  {
    if i == PROBE || !t[Slot(b, i, |t|)].active then i else FreeFrom(t, b, i + 1)
  }

  /** `(int32_t)(a - b) < 0`. */
  predicate Before(a: u32, b: u32) {
    Sub32(a, b) >= 0x8000_0000
  }

  /** Third pass: the window position that the eviction scan has settled on after `i` positions. */
  function OldestTo(t: seq<Flow>, b: nat, i: nat): (r: nat)
    requires b < |t| && PROBE <= |t| && 1 <= i <= PROBE
    ensures r < i
  {
    if i == 1 then 0
    else
      var r := OldestTo(t, b, i - 1);
      var e := t[Slot(b, i - 1, |t|)];
      if e.active && Before(e.last, t[Slot(b, r, |t|)].last) then i - 1 else r
  }

  /** The slot `flow_find_or_create` settles on for a key. */
  function Place(t: seq<Flow>, k: Key): (r: nat)
    requires PROBE <= |t|
    ensures r < |t|
  {
    var b := Bucket(k, |t|);
    var m := MatchFrom(t, k, 0);
    if m < PROBE then Slot(b, m, |t|)
    else
      var f := FreeFrom(t, b, 0);
      Slot(b, if f < PROBE then f else OldestTo(t, b, PROBE), |t|)
  }

  function Fresh(k: Key, now: u32): Flow {
    Flow(k, 0, 0, now, now, 0, true)
  }

  /** The entry a packet is counted in, before it is counted. */
  function Entry(t: seq<Flow>, k: Key, now: u32): Flow
    requires PROBE <= |t|
  {
    if Matches(t[Place(t, k)], k) then t[Place(t, k)] else Fresh(k, now)
  }

  function Counted(f: Flow, now: u32, len: u16, flags: bv8): Flow {
    f.(pkts := Inc32(f.pkts), bytes := (f.bytes + len) % M32, last := now, flags := f.flags | flags)
  }

  /** The table after `netflow_account` has counted one packet. */
  function Account(t: seq<Flow>, k: Key, now: u32, len: u16, flags: bv8): seq<Flow>
    requires PROBE <= |t|
  {
    t[Place(t, k) := Counted(Entry(t, k, now), now, len, flags)]
  }

  /** The flow that is thrown out, if any. */
  function Evicted(t: seq<Flow>, k: Key): Option<Flow>
    requires PROBE <= |t|
  {
    var f := t[Place(t, k)];
    if f.active && f.key != k then Some(f) else None
  }

  // ----- the table as a map -----

  /** Active entries lie in their own key's window, and no key is active twice. */
  ghost predicate Inv(t: seq<Flow>) {
    && PROBE <= |t|
    && (forall j :: 0 <= j < |t| && t[j].active ==> Dist(Bucket(t[j].key, |t|), j, |t|) < PROBE)
    && (forall i, j :: 0 <= i < j < |t| && t[i].active && t[j].active ==> t[i].key != t[j].key)
  }

  function Lookup(t: seq<Flow>, k: Key): Option<Flow>
    requires PROBE <= |t|
  {
    var m := MatchFrom(t, k, 0);
    if m < PROBE then Some(t[Slot(Bucket(k, |t|), m, |t|)]) else None
  }

  /** Under the invariant the windowed search finds a key exactly when it is active anywhere. */
  lemma LookupIsMembership(t: seq<Flow>, k: Key, j: nat)
    requires Inv(t) && j < |t| && Matches(t[j], k)
    ensures Lookup(t, k) == Some(t[j])
    ensures Place(t, k) == j
  {
    var b := Bucket(k, |t|);
    DistSlot(b, j, |t|);
    var m := MatchFrom(t, k, 0);
    var d := Dist(b, j, |t|);
    hide Bucket, Slot, Dist, MatchFrom;
    assert Matches(t[Slot(b, d, |t|)], k);
    assert m <= d < PROBE;
    assert t[Slot(b, m, |t|)].key == t[j].key;
  }

  /** Without an active entry the key is placed in its own window, on a free slot or on the victim. */
  lemma PlaceInWindow(t: seq<Flow>, k: Key)
    requires PROBE <= |t|
    ensures Dist(Bucket(k, |t|), Place(t, k), |t|) < PROBE
    ensures t[Place(t, k)].active && t[Place(t, k)].key != k ==>
      forall i :: 0 <= i < PROBE ==> t[Slot(Bucket(k, |t|), i, |t|)].active
    ensures !Matches(t[Place(t, k)], k) ==> Lookup(t, k) == None
  {
    var b := Bucket(k, |t|);
    var m := MatchFrom(t, k, 0);
    hide Bucket;
    if m < PROBE {
      SlotDist(b, m, |t|);
    } else {
      var f := FreeFrom(t, b, 0);
      SlotDist(b, if f < PROBE then f else OldestTo(t, b, PROBE), |t|);
    }
  }

  lemma NotFound(t: seq<Flow>, k: Key, j: nat)
    requires Inv(t) && Lookup(t, k) == None && j < |t|
    ensures !Matches(t[j], k)
  {
    if Matches(t[j], k) {
      LookupIsMembership(t, k, j);
    }
  }

  /** Counting a packet keeps the invariant. */
  lemma AccountKeepsInv(t: seq<Flow>, k: Key, now: u32, len: u16, flags: bv8)
    requires Inv(t)
    ensures Inv(Account(t, k, now, len, flags))
  {
    var p := Place(t, k);
    PlaceInWindow(t, k);
    var e := Counted(Entry(t, k, now), now, len, flags);
    assert e.active && e.key == k;
    hide Bucket, Dist, Place, Counted, Entry, MatchFrom, FreeFrom, OldestTo, Slot;
    forall j | 0 <= j < |t| && j != p ensures !Matches(t[j], k) {
      if Matches(t[j], k) {
        LookupIsMembership(t, k, j);
      }
    }
    hide Inv;
    ReplaceKeepsInv(t, p, e);
  }

  lemma ReplaceKeepsInv(t: seq<Flow>, p: nat, e: Flow)
    requires Inv(t) && p < |t| && e.active
    requires Dist(Bucket(e.key, |t|), p, |t|) < PROBE
    requires forall j :: 0 <= j < |t| && j != p ==> !Matches(t[j], e.key)
    ensures Inv(t[p := e])
  {
    hide Bucket, Dist;
  }

  /**
   One packet changes its own key's flow and drops at most the evicted one; every other key
   looks up as before, holes and all.
   */
  lemma AccountLaw(t: seq<Flow>, k: Key, now: u32, len: u16, flags: bv8, q: Key)
    requires Inv(t)
    ensures Lookup(Account(t, k, now, len, flags), q) ==
      if q == k then Some(Counted(match Lookup(t, k) case Some(f) => f case None => Fresh(k, now), now, len, flags))
      else if Evicted(t, k).Some? && Evicted(t, k).value.key == q then None
      else Lookup(t, q)
  {
    var t' := Account(t, k, now, len, flags);
    var p := Place(t, k);
    var e := Counted(Entry(t, k, now), now, len, flags);
    assert e.active && e.key == k;
    AccountKeepsInv(t, k, now, len, flags);
    PlaceInWindow(t, k);
    if Matches(t[p], k) {
      LookupIsMembership(t, k, p);
    }
    assert t'[p] == e && forall j :: 0 <= j < |t| && j != p ==> t'[j] == t[j];
    hide Place, Counted, Entry, Bucket, Dist, Account;
    if q == k {
      LookupIsMembership(t', k, p);
    } else {
      OtherKey(t, t', p, q);
    }
  }

  lemma OtherKey(t: seq<Flow>, t': seq<Flow>, p: nat, q: Key)
    requires Inv(t) && Inv(t') && |t'| == |t| && p < |t|
    requires forall j :: 0 <= j < |t| && j != p ==> t'[j] == t[j]
    requires !Matches(t'[p], q)
    ensures Lookup(t', q) == if Matches(t[p], q) then None else Lookup(t, q)
  {
    if Lookup(t', q).Some? {
      var j := Slot(Bucket(q, |t|), MatchFrom(t', q, 0), |t|);
      assert j != p && Matches(t[j], q);
      LookupIsMembership(t, q, j);
      if Matches(t[p], q) {
        LookupIsMembership(t, q, p);
      }
    } else if Lookup(t, q).Some? && !Matches(t[p], q) {
      var j := Slot(Bucket(q, |t|), MatchFrom(t, q, 0), |t|);
      assert Matches(t'[j], q);
      LookupIsMembership(t', q, j);
    }
  }

  ghost function ActiveKeys(t: seq<Flow>): set<Key> {
    set j | 0 <= j < |t| && t[j].active :: t[j].key
  }

  lemma KnownIffActive(t: seq<Flow>, k: Key)
    requires Inv(t)
    ensures Lookup(t, k).Some? <==> k in ActiveKeys(t)
    ensures Lookup(t, k).Some? ==> Matches(Lookup(t, k).value, k)
  {
    if k in ActiveKeys(t) {
      var j :| 0 <= j < |t| && t[j].active && t[j].key == k;
      LookupIsMembership(t, k, j);
    }
  }

  /** The finite map a table stands for: its active flows by key. */
  ghost function Flows(t: seq<Flow>): map<Key, Flow>
    requires Inv(t)
  {
    map k | k in ActiveKeys(t) && Lookup(t, k).Some? :: Lookup(t, k).value
  }

  lemma FlowsLookup(t: seq<Flow>, k: Key)
    requires Inv(t)
    ensures k in Flows(t) <==> Lookup(t, k).Some?
    ensures k in Flows(t) ==> Flows(t)[k] == Lookup(t, k).value
  {
    KnownIffActive(t, k);
  }

  /** The flows left once the victim, if any, is thrown out. */
  ghost function Without(m: map<Key, Flow>, victim: Option<Flow>): map<Key, Flow> {
    match victim
    case Some(v) => m - {v.key}
    case None => m
  }

  lemma FlowsAt(t: seq<Flow>, t': seq<Flow>, victim: Option<Flow>, q: Key)
    requires Inv(t) && Inv(t')
    requires Lookup(t', q) == if victim.Some? && victim.value.key == q then None else Lookup(t, q)
    ensures q in Flows(t') <==> q in Without(Flows(t), victim)
    ensures q in Flows(t') ==> Flows(t')[q] == Without(Flows(t), victim)[q]
  {
    hide Inv, Lookup, Flows;
    FlowsLookup(t, q);
    FlowsLookup(t', q);
  }

  /** A table is its map: one lookup changed and one key dropped is one update after one removal. */
  lemma FlowsByLookup(t: seq<Flow>, t': seq<Flow>, k: Key, e: Flow, victim: Option<Flow>)
    requires Inv(t) && Inv(t')
    requires Lookup(t', k) == Some(e)
    requires forall q :: q != k ==>
      Lookup(t', q) == if victim.Some? && victim.value.key == q then None else Lookup(t, q)
    ensures Flows(t') == Without(Flows(t), victim)[k := e]
  {
    FlowsLookup(t', k);
    assert PROBE <= |t| && PROBE <= |t'|;
    hide Inv, Lookup, Flows, Without;
    forall q | q != k
      ensures q in Flows(t') <==> q in Without(Flows(t), victim)
      ensures q in Flows(t') ==> Flows(t')[q] == Without(Flows(t), victim)[q]
    {
      FlowsAt(t, t', victim, q);
    }
  }

  /** Counting a packet is one map update, after at most one removal. */
  lemma AccountIsMapUpdate(t: seq<Flow>, k: Key, now: u32, len: u16, flags: bv8, e: Flow)
    requires Inv(t)
    requires e == if k in Flows(t) then Flows(t)[k] else Fresh(k, now)
    ensures Inv(Account(t, k, now, len, flags))
    ensures Flows(Account(t, k, now, len, flags)) ==
      Without(Flows(t), Evicted(t, k))[k := Counted(e, now, len, flags)]
  {
    AccountKeepsInv(t, k, now, len, flags);
    var t' := Account(t, k, now, len, flags);
    FlowsLookup(t, k);
    assert PROBE <= |t| == |t'|;
    hide Inv, Account, Lookup, Evicted, Counted, Fresh, Flows, Without;
    AccountLaw(t, k, now, len, flags, k);
    forall q | q != k
      ensures Lookup(t', q) ==
        if Evicted(t, k).Some? && Evicted(t, k).value.key == q then None else Lookup(t, q) {
      AccountLaw(t, k, now, len, flags, q);
    }
    FlowsByLookup(t, t', k, Counted(e, now, len, flags), Evicted(t, k));
  }

  // ----- eviction -----

  /** Within half the circle of one moment, the wrapping comparison is the comparison of true times. */
  lemma BeforeIsEarlier(ta: int, tb: int)
    requires -0x8000_0000 < ta - tb < 0x8000_0000
    ensures Before(ta % M32, tb % M32) <==> ta < tb
  {
    var d := ta - tb;
    var (qa, qb) := (ta / M32, tb / M32);
    assert ta == M32 * qa + ta % M32 && tb == M32 * qb + tb % M32;
  }

  /**
   When the window's last-packet times, as unbounded milliseconds, lie within 2^31 of each
   other, the slot chosen for eviction is one whose last packet is oldest, wherever the
   32-bit clock wrapped.
   */
  lemma {:induction false} OldestIsOldest(t: seq<Flow>, b: nat, i: nat, time: seq<int>)
    requires b < |t| && PROBE <= |t| && 1 <= i <= PROBE && |time| == PROBE
    requires forall j :: 0 <= j < PROBE ==> t[Slot(b, j, |t|)].active && t[Slot(b, j, |t|)].last == time[j] % M32
    requires forall x, y :: 0 <= x < PROBE && 0 <= y < PROBE ==> time[x] - time[y] < 0x8000_0000
    ensures forall j :: 0 <= j < i ==> time[OldestTo(t, b, i)] <= time[j]
  {
    if i > 1 {
      OldestIsOldest(t, b, i - 1, time);
      var r := OldestTo(t, b, i - 1);
      BeforeIsEarlier(time[i - 1], time[r]);
    }
  }

  /** The flow a packet throws out is one whose last packet is oldest in the key's window. */
  lemma VictimIsOldest(t: seq<Flow>, k: Key, time: seq<int>, j: nat)
    requires PROBE <= |t| && Evicted(t, k).Some? && |time| == PROBE && j < PROBE
    requires forall i :: 0 <= i < PROBE ==> t[Slot(Bucket(k, |t|), i, |t|)].last == time[i] % M32
    requires forall x, y :: 0 <= x < PROBE && 0 <= y < PROBE ==> time[x] - time[y] < 0x8000_0000
    ensures t[Slot(Bucket(k, |t|), j, |t|)].active
    ensures exists r :: 0 <= r < PROBE && Evicted(t, k) == Some(t[Slot(Bucket(k, |t|), r, |t|)]) && time[r] <= time[j]
  {
    PlaceInWindow(t, k);
    var b := Bucket(k, |t|);
    hide Bucket;
    assert forall i :: 0 <= i < PROBE ==> t[Slot(b, i, |t|)].active;
    OldestIsOldest(t, b, PROBE, time);
    var r := OldestTo(t, b, PROBE);
    assert MatchFrom(t, k, 0) == PROBE && FreeFrom(t, b, 0) == PROBE;
    assert Place(t, k) == Slot(b, r, |t|);
  }
}
