/**
 The access control lists: a table of sixteen slots per direction, and the ordered rule
 sequence each is meant to be.
 */
module AclSpec {
  import opened Words

  const LISTS: int := 4
  const SLOTS: int := 16
  const TCP: u8 := 6
  const UDP: u8 := 17

  datatype Entry = Entry(
    src: bv32, sMask: bv32, dest: bv32, dMask: bv32, sPort: u16, dPort: u16,
    proto: u8, allow: bv8, hits: u32, valid: bool)

  /** A slot after `memset`. */
  const Zero: Entry := Entry(0, 0, 0, 0, 0, 0, 0, 0, 0, false)

  datatype Packet = Packet(src: bv32, dest: bv32, proto: u8, sPort: u16, dPort: u16)

  datatype Stats = Stats(allowed: u32, denied: u32, nomatch: u32)

  /** The result of a check: `NoMatch`, or the rule's action and monitor bits. */
  datatype Outcome = NoMatch | Matched(bits: bv8)

  function Net(ip: bv32, mask: bv32): bv32 {
    ip & mask
  }

  /** The entry `acl_add` stores. */
  function Stored(src: bv32, sMask: bv32, dest: bv32, dMask: bv32, proto: u8, sPort: u16, dPort: u16, allow: bv8): Entry {
    Entry(Net(src, sMask), sMask, Net(dest, dMask), dMask, sPort, dPort, proto, allow, 0, true)
  }

  /** The tests of the rule loop. */
  predicate Matches(e: Entry, p: Packet) {
    && e.valid
    && (e.proto == 0 || e.proto == p.proto)
    && Net(p.src, e.sMask) == e.src
    && Net(p.dest, e.dMask) == e.dest
    && (e.sPort != 0 || e.dPort != 0 ==>
          && (p.proto == TCP || p.proto == UDP)
          && (e.sPort == 0 || e.sPort == p.sPort)
          && (e.dPort == 0 || e.dPort == p.dPort))
  }

  // ----- the table -----

  /** The first slot from `i` on without a rule. */
  function FreeSlot(row: seq<Entry>, i: nat): (r: nat)
    requires i <= |row|
    ensures i <= r <= |row|
    ensures r < |row| ==> !row[r].valid
    ensures forall j :: i <= j < r ==> row[j].valid
    decreases |row| - i
  {
    if i == |row| || !row[i].valid then i else FreeSlot(row, i + 1)
  }

  function Add(row: seq<Entry>, e: Entry): seq<Entry> {
    var k := FreeSlot(row, 0);
    if k < |row| then row[k := e] else row
  }

  /** Moving rules up from slot `i` on, until the next slot is empty. */
  function Compact(row: seq<Entry>, i: nat): (r: seq<Entry>)
    requires i < |row|
    ensures |r| == |row|
    decreases |row| - i
  {
    if i + 1 < |row| && row[i + 1].valid then Compact(row[i := row[i + 1]][i + 1 := Zero], i + 1) else row
  }

  function Delete(row: seq<Entry>, k: nat): seq<Entry> {
    if k < |row| && row[k].valid then Compact(row[k := Zero], k) else row
  }

  /** The slot of the first matching rule from `i` on. */
  function FirstMatch(row: seq<Entry>, p: Packet, i: nat): (r: nat)
    requires i <= |row|
    ensures i <= r <= |row|
    ensures r < |row| ==> Matches(row[r], p)
    ensures forall j :: i <= j < r ==> !Matches(row[j], p)
    decreases |row| - i
  {
    if i == |row| || Matches(row[i], p) then i else FirstMatch(row, p, i + 1)
  }

  function Hit(row: seq<Entry>, p: Packet): seq<Entry> {
    var k := FirstMatch(row, p, 0);
    if k < |row| then row[k := row[k].(hits := Inc32(row[k].hits))] else row
  }

  function Verdict(row: seq<Entry>, p: Packet): Outcome {
    var k := FirstMatch(row, p, 0);
    if k < |row| then Matched((row[k].allow & 1) | (row[k].allow & 2)) else NoMatch
  }

  /** The one counter a packet bumps. */
  function Counted(s: Stats, o: Outcome): Stats {
    match o
    case NoMatch => s.(nomatch := Inc32(s.nomatch))
    case Matched(bits) =>
      if bits & 1 == 1 then s.(allowed := Inc32(s.allowed)) else s.(denied := Inc32(s.denied))
  }

  /** `acl_clear_stats` on the rules. */
  function NoHits(row: seq<Entry>): (r: seq<Entry>)
    ensures |r| == |row|
  {
    seq(|row|, i requires 0 <= i < |row| => row[i].(hits := 0))
  }

  predicate Empty(row: seq<Entry>) {
    forall i :: 0 <= i < |row| ==> !row[i].valid
  }

  function Count(row: seq<Entry>): nat {
    if row == [] then 0 else Count(row[..|row| - 1]) + if row[|row| - 1].valid then 1 else 0
  }

  // ----- the rule sequence it stands for -----

  predicate AllValid(rs: seq<Entry>) {
    forall i :: 0 <= i < |rs| ==> rs[i].valid
  }

  /** The table that holds a rule sequence: no gaps, nothing behind it. */
  function Table(rs: seq<Entry>): (row: seq<Entry>)
    requires |rs| <= SLOTS
    ensures |row| == SLOTS
  {
    rs + seq(SLOTS - |rs|, _ => Zero)
  }

  /** `acl_add` appends, or finds the list full. */
  lemma AddAppends(rs: seq<Entry>, e: Entry)
    requires |rs| <= SLOTS && AllValid(rs) && e.valid
    ensures Add(Table(rs), e) == if |rs| < SLOTS then Table(rs + [e]) else Table(rs)
    ensures FreeSlot(Table(rs), 0) == |rs|
  {
    var k := FreeSlot(Table(rs), 0);
    assert forall i :: 0 <= i < |rs| ==> Table(rs)[i].valid;
    if |rs| < SLOTS {
      assert !Table(rs)[|rs|].valid;
    }
    hide FreeSlot;
  }

  /** Compacting closes the gap at `i`. */
  lemma {:induction false} CompactCloses(rs: seq<Entry>, i: nat)
    requires i < |rs| <= SLOTS && AllValid(rs)
    ensures Compact(Table(rs)[i := Zero], i) == Table(rs[..i] + rs[i + 1..])
    decreases |rs| - i
  {
    var row := Table(rs)[i := Zero];
    if i + 1 < |rs| {
      var rs' := rs[i := rs[i + 1]];
      assert row[i := row[i + 1]][i + 1 := Zero] == Table(rs')[i + 1 := Zero];
      CompactCloses(rs', i + 1);
      assert rs'[..i + 1] + rs'[i + 2..] == rs[..i] + rs[i + 1..];
    } else {
      assert row == Table(rs[..i] + rs[i + 1..]);
    }
  }

  /** `acl_delete` removes one rule and keeps the order of the others. */
  lemma DeleteRemoves(rs: seq<Entry>, k: nat)
    requires |rs| <= SLOTS && AllValid(rs)
    ensures Delete(Table(rs), k) == Table(if k < |rs| then rs[..k] + rs[k + 1..] else rs)
  {
    if k < |rs| {
      CompactCloses(rs, k);
    }
  }

  /** A packet meets the table as it meets the sequence: the first rule that matches decides. */
  lemma {:induction false} FirstInTable(rs: seq<Entry>, p: Packet, i: nat)
    requires i <= |rs| <= SLOTS && AllValid(rs)
    ensures FirstMatch(Table(rs), p, i) == if FirstMatch(rs, p, i) < |rs| then FirstMatch(rs, p, i) else SLOTS
    decreases |rs| - i
  {
    var (a, b) := (FirstMatch(Table(rs), p, i), FirstMatch(rs, p, i));
    if b < |rs| {
      assert Table(rs)[b] == rs[b];
    }
    if a < |rs| {
      assert Table(rs)[a] == rs[a];
    }
    hide FirstMatch, Matches;
    assert forall j :: i <= j < a && j < |rs| ==> !Matches(Table(rs)[j], p);
    assert forall j :: i <= j < b ==> !Matches(Table(rs)[j], p);
    assert forall j :: |rs| <= j < SLOTS ==> Table(rs)[j] == Zero;
    ZeroMatchesNothing(p);
  }

  lemma ZeroMatchesNothing(p: Packet)
    ensures !Matches(Zero, p)
  {
  }

  lemma CheckInTable(rs: seq<Entry>, p: Packet)
    requires |rs| <= SLOTS && AllValid(rs)
    ensures Verdict(Table(rs), p) == Verdict(rs, p)
    ensures Hit(Table(rs), p) == Table(Hit(rs, p)) && |Hit(rs, p)| == |rs| && AllValid(Hit(rs, p))
  {
    FirstInTable(rs, p, 0);
    hide FirstMatch, Matches;
  }

  lemma {:induction false} CountTable(rs: seq<Entry>, n: nat)
    requires |rs| <= SLOTS && AllValid(rs) && n <= SLOTS
    ensures Count(Table(rs)[..n]) == if n < |rs| then n else |rs|
    ensures Empty(Table(rs)) <==> rs == []
  {
    if n > 0 {
      CountTable(rs, n - 1);
      assert Table(rs)[..n][..n - 1] == Table(rs)[..n - 1];
      assert n <= |rs| ==> Table(rs)[n - 1].valid;
    }
    assert rs != [] ==> Table(rs)[0].valid;
    assert forall i :: |rs| <= i < SLOTS ==> !Table(rs)[i].valid;
  }

  // ----- runs -----

  datatype Op =
    | AddRule(e: Entry) | DeleteRule(k: nat) | ClearRules | ClearHits | Check(p: Packet)

  predicate Sound(op: Op) {
    op.AddRule? ==> op.e.valid
  }

  /** An operation on the table. */
  function OnTable(row: seq<Entry>, op: Op): seq<Entry> {
    match op
    case AddRule(e) => Add(row, e)
    case DeleteRule(k) => Delete(row, k)
    case ClearRules => seq(SLOTS, _ => Zero)
    case ClearHits => NoHits(row)
    case Check(p) => Hit(row, p)
  }

  /** The same operation on a rule sequence. */
  function OnRules(rs: seq<Entry>, op: Op): seq<Entry> {
    match op
    case AddRule(e) => if |rs| < SLOTS then rs + [e] else rs
    case DeleteRule(k) => if k < |rs| then rs[..k] + rs[k + 1..] else rs
    case ClearRules => []
    case ClearHits => NoHits(rs)
    case Check(p) => Hit(rs, p)
  }

  lemma OpRefines(rs: seq<Entry>, op: Op)
    requires |rs| <= SLOTS && AllValid(rs) && Sound(op)
    ensures |OnRules(rs, op)| <= SLOTS && AllValid(OnRules(rs, op))
    ensures OnTable(Table(rs), op) == Table(OnRules(rs, op))
  {
    hide Add, Delete, Hit;
    match op
    case AddRule(e) => AddAppends(rs, e);
    case DeleteRule(k) => DeleteRemoves(rs, k);
    case ClearRules =>
    case ClearHits =>
      assert NoHits(Table(rs)) == Table(NoHits(rs));
    case Check(p) => CheckInTable(rs, p);
  }

  function TableAfter(ops: seq<Op>): seq<Entry> {
    if ops == [] then seq(SLOTS, _ => Zero) else OnTable(TableAfter(ops[..|ops| - 1]), ops[|ops| - 1])
  }

  function RulesAfter(ops: seq<Op>): seq<Entry> {
    if ops == [] then [] else OnRules(RulesAfter(ops[..|ops| - 1]), ops[|ops| - 1])
  }

  /** In every run from an empty table, the table is that of the rule sequence. */
  lemma {:induction false} RunRefines(ops: seq<Op>)
    requires forall i :: 0 <= i < |ops| ==> Sound(ops[i])
    ensures |RulesAfter(ops)| <= SLOTS && AllValid(RulesAfter(ops))
    ensures TableAfter(ops) == Table(RulesAfter(ops))
  {
    if ops != [] {
      RunRefines(ops[..|ops| - 1]);
      OpRefines(RulesAfter(ops[..|ops| - 1]), ops[|ops| - 1]);
    }
  }

  // ----- what the rules say, and how often -----

  /** A rule without its hit count. */
  function Text(e: Entry): Entry {
    e.(hits := 0)
  }

  /** What the list says after a run, by additions, deletions and clearings alone. */
  function Script(ops: seq<Op>): seq<Entry> {
    if ops == [] then []
    else
      var (rs, op) := (Script(ops[..|ops| - 1]), ops[|ops| - 1]);
      match op
      case AddRule(e) => if |rs| < SLOTS then rs + [Text(e)] else rs
      case DeleteRule(k) => if k < |rs| then rs[..k] + rs[k + 1..] else rs
      case ClearRules => []
      case ClearHits => rs
      case Check(_) => rs
  }

  ghost predicate Says(rs: seq<Entry>, texts: seq<Entry>) {
    |rs| == |texts| && forall i :: 0 <= i < |rs| ==> Text(rs[i]) == texts[i]
  }

  /** Checks and the clearing of counters never change what a rule says. */
  lemma {:induction false} RunSays(ops: seq<Op>)
    ensures Says(RulesAfter(ops), Script(ops))
  {
    if ops != [] {
      RunSays(ops[..|ops| - 1]);
      hide FirstMatch, Matches;
    }
  }

  /** How many of some packets rule `k` decides. */
  function Decided(rs: seq<Entry>, ps: seq<Packet>, k: nat): nat {
    if ps == [] then 0
    else Decided(rs, ps[..|ps| - 1], k) + if FirstMatch(rs, ps[|ps| - 1], 0) == k then 1 else 0
  }

  function AfterChecks(rs: seq<Entry>, ps: seq<Packet>): seq<Entry> {
    if ps == [] then rs else Hit(AfterChecks(rs, ps[..|ps| - 1]), ps[|ps| - 1])
  }

  /** The hit count plays no part in matching. */
  lemma {:induction false} SameFirst(rs: seq<Entry>, qs: seq<Entry>, p: Packet, i: nat)
    requires |rs| == |qs| && i <= |rs| && forall j :: 0 <= j < |rs| ==> Text(rs[j]) == Text(qs[j])
    ensures FirstMatch(rs, p, i) == FirstMatch(qs, p, i)
    decreases |rs| - i
  {
    if i < |rs| {
      assert Text(rs[i]) == Text(qs[i]);
      assert Matches(rs[i], p) <==> Matches(qs[i], p);
      hide Matches, Text;
      if !Matches(rs[i], p) {
        SameFirst(rs, qs, p, i + 1);
      }
    }
  }

  /** Over any packets, a rule's hit count grows by exactly the packets it decides, and nothing else changes. */
  lemma {:induction false} HitsCounted(rs: seq<Entry>, ps: seq<Packet>, k: nat)
    requires k < |rs|
    ensures |AfterChecks(rs, ps)| == |rs|
    ensures AfterChecks(rs, ps)[k] == rs[k].(hits := (rs[k].hits + Decided(rs, ps, k)) % M32)
  {
    if ps != [] {
      var init, p := ps[..|ps| - 1], ps[|ps| - 1];
      var qs := AfterChecks(rs, init);
      AllSame(rs, init);
      SameFirst(qs, rs, p, 0);
      hide FirstMatch, Matches, Hit, Text, Inc32;
      HitsCounted(rs, init, k);
      HitAt(qs, p, k);
      IncWraps(rs[k].hits + Decided(rs, init, k));
    }
  }

  lemma HitAt(qs: seq<Entry>, p: Packet, k: nat)
    requires k < |qs|
    ensures |Hit(qs, p)| == |qs|
    ensures Hit(qs, p)[k] == qs[k].(hits := if FirstMatch(qs, p, 0) == k then Inc32(qs[k].hits) else qs[k].hits)
  {
    hide FirstMatch, Inc32;
  }

  lemma {:induction false} AllSame(rs: seq<Entry>, ps: seq<Packet>)
    ensures |AfterChecks(rs, ps)| == |rs|
    ensures forall j :: 0 <= j < |rs| ==> Text(AfterChecks(rs, ps)[j]) == Text(rs[j])
  {
    if ps != [] {
      AllSame(rs, ps[..|ps| - 1]);
      hide FirstMatch, Matches;
    }
  }

  // ----- what a check means -----

  /** A packet agrees with an address in every bit of a mask. */
  predicate Agrees(ip: bv32, address: bv32, mask: bv32) {
    ((ip ^ address) & mask) == 0
  }

  lemma Masked(ip: bv32, address: bv32, mask: bv32)
    ensures Net(ip, mask) == Net(address, mask) <==> Agrees(ip, address, mask)
  {
    assert (ip ^ address) & mask == (ip & mask) ^ (address & mask);
  }

  /** A rule matches by the addresses it was given, whatever bits they have outside the masks. */
  lemma StoredMatches(p: Packet, src: bv32, sMask: bv32, dest: bv32, dMask: bv32, proto: u8, sPort: u16, dPort: u16, allow: bv8)
    ensures Matches(Stored(src, sMask, dest, dMask, proto, sPort, dPort, allow), p) <==>
      && (proto == 0 || proto == p.proto)
      && Agrees(p.src, src, sMask) && Agrees(p.dest, dest, dMask)
      && (sPort == 0 || (p.proto in {TCP, UDP} && sPort == p.sPort))
      && (dPort == 0 || (p.proto in {TCP, UDP} && dPort == p.dPort))
    ensures var e := Stored(src, sMask, dest, dMask, proto, sPort, dPort, allow); e.allow == allow && e.hits == 0 && e.valid
  {
    Masked(p.src, src, sMask);
    Masked(p.dest, dest, dMask);
    hide Agrees, Net;
  }

  /** What the hooks make of an outcome: is the packet dropped, and is it monitored? */
  function Judged(o: Outcome): (bool, bool) {
    match o
    case NoMatch => (false, false)
    case Matched(bits) => (bits & 1 == 0, bits & 2 != 0)
  }

  /** The hooks check a packet only when the list is not empty. */
  function Hook(row: seq<Entry>, p: Packet): (bool, bool) {
    if Empty(row) then (false, false) else Judged(Verdict(row, p))
  }

  /**
   The hook drops and monitors as the first matching rule says, lets everything else pass,
   and skipping the empty list changes no verdict.
   */
  lemma HookIsFirstMatch(rs: seq<Entry>, p: Packet, k: nat)
    requires |rs| <= SLOTS && AllValid(rs) && k <= |rs|
    requires (k < |rs| ==> Matches(rs[k], p)) && forall j :: 0 <= j < k ==> !Matches(rs[j], p)
    ensures Hook(Table(rs), p) ==
      if k < |rs| then (rs[k].allow & 1 == 0, rs[k].allow & 2 != 0) else (false, false)
    ensures Hook(Table(rs), p) == Judged(Verdict(Table(rs), p))
  {
    CheckInTable(rs, p);
    CountTable(rs, 0);
    assert FirstMatch(rs, p, 0) == k;
    hide FirstMatch, Matches, Hit, Empty;
    if k < |rs| {
      Bits(rs[k].allow);
    }
  }

  lemma Bits(a: bv8)
    ensures ((a & 1) | (a & 2)) & 1 == a & 1
    ensures ((a & 1) | (a & 2)) & 2 == a & 2
    ensures a & 1 == 0 || a & 1 == 1
  {
  }

  /** A checked packet bumps exactly one of the three counters. */
  lemma OneCounter(s: Stats, row: seq<Entry>, p: Packet)
    ensures var (t, (drop, _)) := (Counted(s, Verdict(row, p)), Judged(Verdict(row, p)));
      var matched := Verdict(row, p) != NoMatch;
      && t.allowed == (if matched && !drop then Inc32(s.allowed) else s.allowed)
      && t.denied == (if matched && drop then Inc32(s.denied) else s.denied)
      && t.nomatch == (if matched then s.nomatch else Inc32(s.nomatch))
  {
    var k := FirstMatch(row, p, 0);
    hide FirstMatch;
    if k < |row| {
      Bits(row[k].allow);
    }
  }
}
