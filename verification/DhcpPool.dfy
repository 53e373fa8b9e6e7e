/**
 What runs without reservations keep when the pool lies in one /24: the lease list is
 strictly ordered by address, every lease and the cursor are in the pool, and a new client
 is turned away only when the whole pool is leased. All of this holds exactly when the
 pool ends below host byte 255.
 */
module DhcpPool {
  import opened Words
  import opened DhcpAddress
  import opened DhcpOptions
  import opened DhcpSpec
  import opened DhcpMacs

  predicate OneNet(c: Config) {
    Net(c.start) == Net(c.end) && c.start.b3 <= c.end.b3
  }

  ghost predicate NoReservations(c: Config) {
    forall i :: 0 <= i < |c.reservations| ==> !c.reservations[i].valid
  }

  predicate InPool(c: Config, ip: Ip) {
    Net(ip) == Net(c.start) && c.start.b3 <= ip.b3 <= c.end.b3
  }

  /** The invariant of a run. In one network the native order is the order of host bytes. */
  ghost predicate Inv(c: Config, s: Server) {
    && Ordered(c, s.leases)
    && MacsDistinct(s.leases)
    && InPool(c, s.plus)
  }

  /** Strictly increasing addresses, all of the pool. */
  ghost predicate Ordered(c: Config, ls: seq<Lease>) {
    && (forall i :: 0 <= i < |ls| ==> InPool(c, ls[i].ip))
    && (forall i, j :: 0 <= i < j < |ls| ==> ls[i].ip.b3 < ls[j].ip.b3)
  }

  lemma OrderedMeaning(c: Config, ls: seq<Lease>, i: nat, j: nat)
    requires Ordered(c, ls) && i < j < |ls|
    ensures Less(ls[i].ip, ls[j].ip) && Word(ls[i].ip) < Word(ls[j].ip)
  {
    LessIsWordOrder(ls[i].ip, ls[j].ip);
  }

  ghost predicate Leased(ls: seq<Lease>, ip: Ip) {
    exists i :: 0 <= i < |ls| && ls[i].ip == ip
  }

  /** Every address of the pool is taken. */
  ghost predicate Full(c: Config, ls: seq<Lease>) {
    forall ip :: InPool(c, ip) ==> Leased(ls, ip)
  }

  // ----- without reservations the reservation steps do nothing -----

  lemma {:induction false} NothingReserved(table: seq<Reservation>, mac: Mac)
    requires forall i :: 0 <= i < |table| ==> !table[i].valid
    ensures Reserved(table, mac) == ANY && Foreign(table, mac) == {}
  {
    if table != [] {
      NothingReserved(table[1..], mac);
    }
  }

  lemma ChosenIsCandidate(c: Config, s: Server, mac: Mac)
    requires NoReservations(c)
    ensures Chosen(c, s, mac) == Candidate(c, s)
  {
    NothingReserved(c.reservations, mac);
  }

  // ----- the walk -----

  /** The cursor after `k` leases: past everything it has met, and not one of the leases passed. */
  lemma {:induction false} CursorScan(c: Config, ls: seq<Lease>, k: nat, s: Scan)
    requires Ordered(c, ls) && k <= |ls| && c.end.b3 < 255 && InPool(c, s.plus)
    ensures var r := ScanTo(ls, k, s);
      && Net(r.plus) == Net(c.start) && s.plus.b3 <= r.plus.b3 <= c.end.b3 + 1
      && (forall j :: 0 <= j < k ==> ls[j].ip.b3 != r.plus.b3)
      && (r.plus == s.plus || (k > 0 && r.plus.b3 <= ls[k - 1].ip.b3 + 1))
      && (s.client == s.plus ==> r.client == r.plus)
  {
    if k > 0 {
      CursorScan(c, ls, k - 1, s);
    }
  }

  /** The first-free register after `k` leases: everything below it is leased, and it is not. */
  lemma {:induction false} FreeScan(c: Config, ls: seq<Lease>, k: nat, s: Scan)
    requires Ordered(c, ls) && k <= |ls| && c.end.b3 < 255 && OneNet(c)
    requires s.first == c.start && !s.settled
    ensures var r := ScanTo(ls, k, s);
      && Net(r.first) == Net(c.start) && c.start.b3 <= r.first.b3 <= c.end.b3 + 1
      && r.first.b3 - c.start.b3 <= k
      && (forall j :: 0 <= j < r.first.b3 - c.start.b3 ==> ls[j].ip.b3 == c.start.b3 + j)
      && (r.settled ==> r.first.b3 < c.end.b3 + 1 && forall j :: 0 <= j < k ==> ls[j].ip.b3 != r.first.b3)
      && (r.settled ==> k > 0 && r.first.b3 < ls[k - 1].ip.b3)
      && (!r.settled ==> r.first.b3 == c.start.b3 + k)
  {
    if k > 0 {
      FreeScan(c, ls, k - 1, s);
    }
  }

  /** The candidate is a free pool address, or lies past the pool and the pool is full. */
  lemma CandidateFree(c: Config, s: Server)
    requires OneNet(c) && c.end.b3 < 255 && Ordered(c, s.leases) && InPool(c, s.plus)
    ensures var ip := Candidate(c, s);
      if Less(c.end, ip) then Full(c, s.leases) else InPool(c, ip) && !Leased(s.leases, ip)
  {
    var n := |s.leases|;
    CursorScan(c, s.leases, n, Start(c, s));
    FreeScan(c, s.leases, n, Start(c, s));
    var r := ScanTo(s.leases, n, Start(c, s));
    hide ScanTo;
    if n == 0 {
      assert ScanTo(s.leases, 0, Start(c, s)) == Start(c, s) by { ScanNothing(s.leases, Start(c, s)); }
    }
    if Less(c.end, r.plus) && Less(c.end, r.first) {
      forall ip | InPool(c, ip) ensures Leased(s.leases, ip) {
        assert s.leases[ip.b3 - c.start.b3].ip == ip;
      }
    }
  }

  lemma ScanNothing(ls: seq<Lease>, s: Scan)
    ensures ScanTo(ls, 0, s) == s
  {
  }

  /** A full pool leaves no candidate. */
  lemma FullRefuses(c: Config, s: Server)
    requires OneNet(c) && c.end.b3 < 255 && Ordered(c, s.leases) && InPool(c, s.plus)
    requires Full(c, s.leases)
    ensures Less(c.end, Candidate(c, s))
  {
    CandidateFree(c, s);
  }

  // ----- one step -----

  lemma InsertSplits(c: Config, ls: seq<Lease>, ip: Ip)
    requires Ordered(c, ls) && InPool(c, ip) && !Leased(ls, ip)
    ensures var at := InsertPos(ls, ip);
      && (forall j :: 0 <= j < at ==> ls[j].ip.b3 < ip.b3)
      && (forall j :: at <= j < |ls| ==> ip.b3 < ls[j].ip.b3)
  {
    var at := InsertPos(ls, ip);
    hide InsertPos;
    forall j | 0 <= j < at ensures ls[j].ip.b3 < ip.b3 {
      assert ls[j].ip != ip && AtMost(ls[j].ip, ip);
    }
    forall j | at <= j < |ls| ensures ip.b3 < ls[j].ip.b3 {
      assert Less(ip, ls[at].ip) && InPool(c, ls[at].ip);
    }
  }

  lemma BetweenOrdered(c: Config, ls: seq<Lease>, at: nat, l: Lease)
    requires Ordered(c, ls) && InPool(c, l.ip) && at <= |ls|
    requires forall j :: 0 <= j < at ==> ls[j].ip.b3 < l.ip.b3
    requires forall j :: at <= j < |ls| ==> l.ip.b3 < ls[j].ip.b3
    ensures Ordered(c, InsertAt(ls, at, l))
  {
    hide InPool;
    var r := InsertAt(ls, at, l);
    assert r[at] == l;
    assert forall i :: 0 <= i < at ==> r[i] == ls[i];
    assert forall i :: at < i < |r| ==> r[i] == ls[i - 1];
  }

  lemma InsertOrdered(c: Config, ls: seq<Lease>, l: Lease)
    requires Ordered(c, ls) && InPool(c, l.ip) && !Leased(ls, l.ip)
    ensures Ordered(c, InsertAt(ls, InsertPos(ls, l.ip), l))
  {
    InsertSplits(c, ls, l.ip);
    hide Ordered, InsertAt, InPool, Leased;
    BetweenOrdered(c, ls, InsertPos(ls, l.ip), l);
  }

  lemma DropOrdered(c: Config, ls: seq<Lease>, at: nat)
    requires Ordered(c, ls)
    ensures Ordered(c, Drop(ls, at))
  {
  }

  lemma ClaimKeepsPool(c: Config, s: Server, m: Message)
    requires OneNet(c) && c.end.b3 < 255 && NoReservations(c) && Inv(c, s)
    ensures var q := MakeClaim(c, s, m); Ordered(c, q.leases) && InPool(c, q.plus)
  {
    var k := FindMac(s.leases, m.mac);
    if k < |s.leases| {
      CursorScan(c, s.leases, k, Start(c, s));
      if k > 0 {
        assert s.leases[k - 1].ip.b3 < s.leases[k].ip.b3;
      }
    } else {
      ChosenIsCandidate(c, s, m.mac);
      CandidateFree(c, s);
      hide Candidate, Chosen;
      var ip := Chosen(c, s, m.mac);
      if !Less(c.end, ip) {
        InsertOrdered(c, s.leases, Lease(ip, m.mac, c.ticks, []));
      }
    }
  }

  lemma RenameOrdered(c: Config, ls: seq<Lease>, at: nat, name: seq<u8>)
    requires Ordered(c, ls) && at < |ls|
    ensures Ordered(c, ls[at := ls[at].(hostname := name)])
  {
  }

  lemma SettleKeepsPool(c: Config, q: Claim, m: Message, hostname: seq<u8>)
    requires Ordered(c, q.leases)
    ensures var t := Settle(c, q, m, hostname).0; Ordered(c, t.leases) && t.plus == q.plus
  {
    hide Decode, Summarize, Decide, RemoveAt, Ordered;
    DropOrdered(c, q.leases, q.at);
    if q.at < |q.leases| {
      RenameOrdered(c, q.leases, q.at, Summarize(Decode(m.options), q.client).hostname);
    }
  }

  lemma HandleKeepsPool(c: Config, s: Server, m: Message)
    requires OneNet(c) && c.end.b3 < 255 && NoReservations(c) && Inv(c, s)
    ensures Inv(c, Handle(c, s, m).0)
  {
    if m.cookie {
      ClaimKeepsPool(c, s, m);
      HandleSound(c, s, m);
      hide MakeClaim, Settle;
      SettleKeepsPool(c, MakeClaim(c, s, m), m, s.hostname);
    }
  }

  lemma StepKeepsPool(c: Config, s: Server, e: Event)
    requires OneNet(c) && c.end.b3 < 255 && NoReservations(c) && Inv(c, s)
    ensures Inv(c, Step(c, s, e))
  {
    match e
    case Arrives(m) => HandleKeepsPool(c, s, m);
    case Tick =>
      StepKeepsMacs(c, s, e);
      var t := Ticked(s.leases);
      forall i, j | 0 <= i <= j < |t| ensures InPool(c, t[i].ip) && (i < j ==> t[i].ip.b3 < t[j].ip.b3) {
        var p, q := TickedFrom(s.leases, i, j);
      }
  }

  /**
   Safety over whole runs: after any sequence of messages and ticks the leases are strictly
   ordered, in the pool, one per MAC, and the cursor is in the pool.
   */
  lemma {:induction false} RunKeepsPool(c: Config, es: seq<Event>)
    requires OneNet(c) && c.end.b3 < 255 && NoReservations(c)
    ensures Inv(c, Run(c, Started(c), es))
  {
    if es != [] {
      RunKeepsPool(c, es[..|es| - 1]);
      StepKeepsPool(c, Run(c, Started(c), es[..|es| - 1]), es[|es| - 1]);
    }
  }

  /**
   Completeness: a client without a lease is refused for lack of an address exactly when
   every address of the pool is leased; otherwise it gets one nobody holds.
   */
  lemma RefusedOnlyWhenFull(c: Config, s: Server, m: Message)
    requires OneNet(c) && c.end.b3 < 255 && c.start != ANY && NoReservations(c) && Inv(c, s)
    requires NoLease(s.leases, m.mac)
    ensures var q := MakeClaim(c, s, m);
      && (Refused(c, q) <==> Full(c, s.leases))
      && (!Refused(c, q) ==> InPool(c, q.client) && !Leased(s.leases, q.client))
  {
    assert FindMac(s.leases, m.mac) == |s.leases|;
    ChosenIsCandidate(c, s, m.mac);
    CandidateFree(c, s);
    hide Candidate, Chosen;
    if !Less(c.end, Chosen(c, s, m.mac)) {
      assert !Full(c, s.leases);
    }
  }

  /** With addresses distinct in a pool of at most 100, the eight-bit count is exact: eviction above the limit only. */
  lemma EvictionIsExact(c: Config, ls: seq<Lease>)
    requires Ordered(c, ls)
    ensures |Aged(ls)| <= 0x100
    ensures c.end.b3 - c.start.b3 < MAX_LEASE ==> |Aged(ls)| % 0x100 == |Aged(ls)|
  {
    SurvivorCount(ls);
    if |ls| > 0 {
      OrderedSpan(c, ls, |ls| - 1);
    }
  }

  lemma {:induction false} SurvivorCount(ls: seq<Lease>)
    ensures |Aged(ls)| <= |ls|
  {
    if ls != [] {
      SurvivorCount(ls[..|ls| - 1]);
    }
  }

  lemma {:induction false} OrderedSpan(c: Config, ls: seq<Lease>, k: nat)
    requires Ordered(c, ls) && k < |ls|
    ensures c.start.b3 + k <= ls[k].ip.b3
  {
    if k > 0 {
      OrderedSpan(c, ls, k - 1);
    }
  }

  // ----- the exact condition -----

  /** A DISCOVER: option 53 with value 1 and nothing else. */
  function Discover(mac: Mac): Message {
    Message(true, mac, ANY, [MSG_TYPE, 1, DISCOVER])
  }

  lemma DiscoverSummary(client: Ip)
    ensures Summarize(Decode([MSG_TYPE, 1, DISCOVER]), client) == Summary(DISCOVER, Unasked, [])
  {
    var b: seq<u8> := [MSG_TYPE, 1, DISCOVER];
    assert b[2..3] == [DISCOVER];
    assert b[3..] == [];
    var o := [Opt(MSG_TYPE, [DISCOVER])];
    assert Decode(b) == o;
    assert o[..0] == [];
  }

  function Shift(ip: Ip, k: nat): Ip
    requires ip.b3 + k <= 255
  {
    ip.(b3 := ip.b3 + k)
  }

  function Size(c: Config): nat
    requires OneNet(c)
  {
    c.end.b3 - c.start.b3 + 1
  }

  /** The first `k` addresses leased to the MACs 0, 1, 2, ... */
  function Block(c: Config, k: nat): seq<Lease>
    requires OneNet(c) && k <= Size(c)
  {
    seq(k, j requires 0 <= j < k => Lease(Shift(c.start, j), j, c.ticks, []))
  }

  ghost predicate Grown(c: Config, s: Server, k: nat)
    requires OneNet(c)
  {
    && k <= Size(c)
    && s.leases == Block(c, k)
    && s.plus == (if k == Size(c) then c.start else Shift(c.start, k))
    && !s.declined
  }

  /** A cursor no lease sits on is not moved by the walk. */
  lemma {:induction false} CursorStays(ls: seq<Lease>, k: nat, s: Scan)
    requires k <= |ls| && forall j :: 0 <= j < k ==> ls[j].ip != s.plus
    ensures ScanTo(ls, k, s).plus == s.plus && ScanTo(ls, k, s).client == s.client
  {
    if k > 0 {
      CursorStays(ls, k - 1, s);
    }
  }

  /** Over a full pool the cursor climbs one address per lease, and past the last one. */
  lemma {:induction false} CursorClimbs(c: Config, k: nat, s: Scan)
    requires OneNet(c) && k <= Size(c) && s.plus == c.start && s.client == c.start
    ensures var r := ScanTo(Block(c, Size(c)), k, s);
      r.client == r.plus && r.plus == if k < Size(c) then Shift(c.start, k) else Next(c.end)
  {
    if k > 0 {
      CursorClimbs(c, k - 1, s);
    }
  }

  /** A new client's DISCOVER: it is given the address chosen for it. */
  lemma DiscoverNew(c: Config, s: Server, mac: Mac)
    requires FindMac(s.leases, mac) == |s.leases| && AtMost(Chosen(c, s, mac), c.end)
    ensures var ip := Chosen(c, s, mac);
      var at := InsertPos(s.leases, ip);
      var t := Handle(c, s, Discover(mac)).0;
      && t.plus == (if ip == c.end then c.start else Next(ip)) && !t.declined
      && (ip != ANY ==> t.leases == InsertAt(s.leases, at, Lease(ip, mac, c.ticks, [])))
  {
    var ip := Chosen(c, s, mac);
    var q := MakeClaim(c, s, Discover(mac));
    DiscoverSummary(ip);
    assert q.leases[q.at := q.leases[q.at].(hostname := [])] == q.leases;
    hide Chosen, InsertPos, FindMac, Summarize, Decode, Less, Next, Start, ScanTo, MakeClaim;
  }

  lemma GrowStep(c: Config, s: Server, k: nat)
    requires OneNet(c) && NoReservations(c) && c.start != ANY && Grown(c, s, k) && k < Size(c)
    ensures Grown(c, Handle(c, s, Discover(k)).0, k + 1)
  {
    var ls := s.leases;
    var ip := Shift(c.start, k);
    CursorStays(ls, k, Start(c, s));
    assert Candidate(c, s) == ip;
    ChosenIsCandidate(c, s, k);
    assert FindMac(ls, k) == k;
    assert InsertPos(ls, ip) == k;
    assert InsertAt(ls, k, Lease(ip, k, c.ticks, [])) == Block(c, k + 1);
    DiscoverNew(c, s, k);
  }

  function Discovers(k: nat): seq<Event>
    requires k <= 0x1000
  {
    seq(k, j requires 0 <= j < k => Arrives(Discover(j)))
  }

  lemma {:induction false} GrowRun(c: Config, k: nat)
    requires OneNet(c) && NoReservations(c) && c.start != ANY && k <= Size(c)
    ensures Grown(c, Run(c, Started(c), Discovers(k)), k)
  {
    if k > 0 {
      GrowRun(c, k - 1);
      assert Discovers(k)[..k - 1] == Discovers(k - 1);
      GrowStep(c, Run(c, Started(c), Discovers(k - 1)), k - 1);
    } else {
      assert Block(c, 0) == [];
    }
  }

  /** One client more than the pool holds, and the cursor carries out of the network. */
  lemma OverflowLeavesPool(c: Config, s: Server)
    requires OneNet(c) && NoReservations(c) && c.end.b3 == 255 && Grown(c, s, Size(c))
    ensures !Inv(c, Handle(c, s, Discover(Size(c))).0)
  {
    var n := Size(c);
    CursorClimbs(c, n, Start(c, s));
    var ip := Next(c.end);
    assert ip.b3 == 0 && Net(ip) != Net(c.start);
    assert Candidate(c, s) == ip;
    ChosenIsCandidate(c, s, n);
    assert FindMac(s.leases, n) == n;
    DiscoverNew(c, s, n);
    var t := Handle(c, s, Discover(n)).0;
    if ip != ANY {
      var at := InsertPos(s.leases, ip);
      assert t.leases[at].ip == ip && !InPool(c, ip);
    } else {
      assert t.plus == Next(ANY) && Net(c.start) == (255, 255, 255);
    }
  }

  /**
   The exact condition: without reservations, every run from the start keeps the invariant
   if and only if the pool ends below host byte 255.
   */
  lemma PoolSafeIff(c: Config)
    requires OneNet(c) && NoReservations(c) && c.start != ANY
    ensures (forall es :: Inv(c, Run(c, Started(c), es))) <==> c.end.b3 < 255
  {
    if c.end.b3 < 255 {
      forall es ensures Inv(c, Run(c, Started(c), es)) {
        RunKeepsPool(c, es);
      }
    } else {
      var n := Size(c);
      var es := Discovers(n + 1);
      GrowRun(c, n);
      assert es[..n] == Discovers(n);
      OverflowLeavesPool(c, Run(c, Started(c), Discovers(n)));
      assert Run(c, Started(c), es) == Handle(c, Run(c, Started(c), es[..n]), Discover(n)).0;
    }
  }
}
