/**
 When reservations can make the server lease one address twice. The table is a map from MAC
 to addresses of the pool; then every run keeps addresses distinct exactly when no address
 is reserved twice and the reserved addresses are the last ones of the pool.
 */
module DhcpCollisions {
  import opened Words
  import opened DhcpAddress
  import opened DhcpOptions
  import opened DhcpSpec
  import opened DhcpMacs
  import opened DhcpPool
  import opened DhcpReservations
  import opened DhcpManager

  ghost predicate ReservedIp(t: seq<Reservation>, ip: Ip) {
    exists i :: 0 <= i < |t| && t[i].valid && t[i].ip == ip
  }

  /** A pool that keeps its invariant, and a table that maps MACs to addresses of it. */
  ghost predicate Regular(c: Config) {
    && OneNet(c) && c.end.b3 < 255 && c.start != ANY
    && |c.reservations| <= MAX_RESERVATIONS && Unique(c.reservations)
    && (forall i :: 0 <= i < |c.reservations| && c.reservations[i].valid ==> InPool(c, c.reservations[i].ip))
  }

  ghost predicate NoneTwice(t: seq<Reservation>) {
    forall i, j :: 0 <= i < j < |t| && t[i].valid && t[j].valid ==> t[i].ip != t[j].ip
  }

  /** Above a reserved address of the pool there are only reserved ones. */
  ghost predicate ReservedLast(c: Config) {
    forall a, b :: InPool(c, a) && InPool(c, b) && a.b3 < b.b3 && ReservedIp(c.reservations, a) ==>
      ReservedIp(c.reservations, b)
  }

  // ----- what the table says of one client -----

  lemma ReservedFor(t: seq<Reservation>, mac: Mac, i: nat)
    requires Unique(t) && i < |t| && t[i].valid && t[i].mac == mac
    ensures Reserved(t, mac) == t[i].ip
  {
    ReservedIsLookup(t, mac, 0);
    assert t[0..] == t;
    FindThe(t, mac, i);
  }

  lemma ReservedBy(t: seq<Reservation>, mac: Mac)
    requires Reserved(t, mac) != ANY
    ensures exists i :: 0 <= i < |t| && t[i].valid && t[i].mac == mac && t[i].ip == Reserved(t, mac)
  {
    ReservedIsLookup(t, mac, 0);
    assert t[0..] == t;
    var k := Find(t, mac, 0);
    hide Find, Reserved;
    assert t[k].ip == Reserved(t, mac);
  }

  /** For a client without a reservation every reserved address is somebody else's. */
  lemma ForeignIsReserved(c: Config, mac: Mac, ip: Ip)
    requires Regular(c) && Reserved(c.reservations, mac) == ANY
    ensures ip in Foreign(c.reservations, mac) <==> ReservedIp(c.reservations, ip)
  {
    var t := c.reservations;
    if ReservedIp(t, ip) {
      var i :| 0 <= i < |t| && t[i].valid && t[i].ip == ip;
      assert ip != ANY;
      if t[i].mac == mac {
        ReservedFor(t, mac, i);
      }
    }
  }

  // ----- no collision when the reserved addresses are the last -----

  /** A lease at a reserved address is its owner's. */
  ghost predicate Owned(c: Config, ls: seq<Lease>) {
    var t := c.reservations;
    forall i, k :: 0 <= i < |ls| && 0 <= k < |t| && t[k].valid && t[k].ip == ls[i].ip ==> t[k].mac == ls[i].mac
  }

  /** The skip loop climbs in the pool or leaves it at the top. */
  lemma {:induction false} SkipClimbs(c: Config, left: set<Ip>, ip: Ip)
    requires OneNet(c) && c.end.b3 < 255 && InPool(c, ip)
    ensures var r := Skip(left, c.end, ip); Less(c.end, r) || (InPool(c, r) && ip.b3 <= r.b3)
    decreases |left|
  {
    if ip in left {
      var n := Next(ip);
      if InPool(c, n) {
        SkipClimbs(c, left - {ip}, n);
      } else {
        assert Less(c.end, n);
      }
    }
  }

  lemma ChosenWithoutReservation(c: Config, s: Server, mac: Mac)
    requires Regular(c) && ReservedLast(c) && Inv(c, s) && Reserved(c.reservations, mac) == ANY
    ensures var ip := Chosen(c, s, mac);
      Less(c.end, ip) || (InPool(c, ip) && !Leased(s.leases, ip) && !ReservedIp(c.reservations, ip))
  {
    var x, ip := Candidate(c, s), Chosen(c, s, mac);
    var foreign := Foreign(c.reservations, mac);
    CandidateFree(c, s);
    NeverForeign(c, s, mac);
    ForeignIsReserved(c, mac, ip);
    ForeignIsReserved(c, mac, x);
    hide Candidate, Foreign, Inv, Regular;
    if !Less(c.end, x) {
      SkipClimbs(c, foreign, x);
    } else {
      PastEnd(c, foreign, x);
    }
  }

  lemma PastEnd(c: Config, left: set<Ip>, x: Ip)
    requires Less(c.end, x)
    ensures Skip(left, c.end, x) == x
  {
    if AtMost(x, c.end) {
      LessAtMost(c.end, x, c.end);
      NotLess(c.end);
    }
  }

  lemma ChosenWithReservation(c: Config, s: Server, mac: Mac)
    requires Regular(c) && NoneTwice(c.reservations) && Owned(c, s.leases)
    requires NoLease(s.leases, mac) && Reserved(c.reservations, mac) != ANY
    ensures var ip := Chosen(c, s, mac);
      InPool(c, ip) && !Leased(s.leases, ip)
      && forall k :: 0 <= k < |c.reservations| && c.reservations[k].valid && c.reservations[k].ip == ip ==>
           c.reservations[k].mac == mac
  {
    ReservedBy(c.reservations, mac);
    hide Reserved, Foreign, Candidate, Skip;
  }

  lemma ClaimKeeps(c: Config, s: Server, m: Message)
    requires Regular(c) && NoneTwice(c.reservations) && ReservedLast(c) && Inv(c, s) && Owned(c, s.leases)
    ensures var q := MakeClaim(c, s, m); Ordered(c, q.leases) && InPool(c, q.plus) && Owned(c, q.leases)
  {
    var k := FindMac(s.leases, m.mac);
    if k < |s.leases| {
      CursorScan(c, s.leases, k, Start(c, s));
      if k > 0 {
        assert s.leases[k - 1].ip.b3 < s.leases[k].ip.b3;
      }
    } else {
      if Reserved(c.reservations, m.mac) == ANY {
        ChosenWithoutReservation(c, s, m.mac);
      } else {
        ChosenWithReservation(c, s, m.mac);
      }
      hide Candidate, Chosen, ReservedLast, NoneTwice;
      var ip := Chosen(c, s, m.mac);
      if !Less(c.end, ip) {
        InsertOrdered(c, s.leases, Lease(ip, m.mac, c.ticks, []));
        InsertOwned(c, s.leases, InsertPos(s.leases, ip), Lease(ip, m.mac, c.ticks, []));
      }
    }
  }

  lemma InsertOwned(c: Config, ls: seq<Lease>, at: nat, l: Lease)
    requires Owned(c, ls) && at <= |ls|
    requires forall k :: 0 <= k < |c.reservations| && c.reservations[k].valid && c.reservations[k].ip == l.ip ==>
      c.reservations[k].mac == l.mac
    ensures Owned(c, InsertAt(ls, at, l))
  {
    var r := InsertAt(ls, at, l);
    forall i | 0 <= i < |r| ensures r[i] == l || (exists j :: 0 <= j < |ls| && r[i] == ls[j]) {
      if i != at {
        assert r[i] == ls[if i < at then i else i - 1];
      }
    }
  }

  lemma SettleOwned(c: Config, q: Claim, m: Message, hostname: seq<u8>)
    requires Owned(c, q.leases)
    ensures Owned(c, Settle(c, q, m, hostname).0.leases)
  {
    var t := Settle(c, q, m, hostname).0.leases;
    forall i | 0 <= i < |t|
      ensures exists j :: 0 <= j < |q.leases| && t[i].ip == q.leases[j].ip && t[i].mac == q.leases[j].mac {
      var j := if |t| == |q.leases| || i < q.at then i else i + 1;
      assert t[i].ip == q.leases[j].ip && t[i].mac == q.leases[j].mac;
    }
    hide Settle;
  }

  lemma StepKeepsOwned(c: Config, s: Server, e: Event)
    requires Regular(c) && NoneTwice(c.reservations) && ReservedLast(c) && Inv(c, s) && Owned(c, s.leases)
    ensures Inv(c, Step(c, s, e)) && Owned(c, Step(c, s, e).leases)
  {
    StepKeepsMacs(c, s, e);
    match e
    case Arrives(m) =>
      if m.cookie {
        ClaimKeeps(c, s, m);
        hide MakeClaim, Settle, Regular, NoneTwice, ReservedLast, Owned;
        SettleKeepsPool(c, MakeClaim(c, s, m), m, s.hostname);
        SettleOwned(c, MakeClaim(c, s, m), m, s.hostname);
      }
    case Tick =>
      var t := Ticked(s.leases);
      forall i, j | 0 <= i <= j < |t| ensures InPool(c, t[i].ip) && (i < j ==> t[i].ip.b3 < t[j].ip.b3) {
        var p, q := TickedFrom(s.leases, i, j);
      }
      forall i | 0 <= i < |t|
        ensures exists j :: 0 <= j < |s.leases| && t[i].ip == s.leases[j].ip && t[i].mac == s.leases[j].mac {
        var p, q := TickedFrom(s.leases, i, i);
      }
  }

  lemma {:induction false} RunKeepsOwned(c: Config, es: seq<Event>)
    requires Regular(c) && NoneTwice(c.reservations) && ReservedLast(c)
    ensures Inv(c, Run(c, Started(c), es)) && Owned(c, Run(c, Started(c), es).leases)
  {
    if es != [] {
      RunKeepsOwned(c, es[..|es| - 1]);
      StepKeepsOwned(c, Run(c, Started(c), es[..|es| - 1]), es[|es| - 1]);
    }
  }

  lemma OrderedDistinct(c: Config, ls: seq<Lease>)
    requires Ordered(c, ls)
    ensures IpsDistinct(ls)
  {
  }

  // ----- a collision otherwise -----

  /** Address `j` of the pool. */
  function Addr(c: Config, j: nat): (ip: Ip)
    requires OneNet(c) && c.end.b3 < 255 && j <= Size(c)
    ensures j < Size(c) ==> InPool(c, ip)
    ensures j == Size(c) ==> ip == Next(c.end) && Less(c.end, ip)
  {
    Shift(c.start, j)
  }

  /** No reservation is for one of these 1000 MACs. */
  ghost predicate Fresh(t: seq<Reservation>, base: nat) {
    base <= 10000 && forall i :: 0 <= i < |t| && t[i].valid ==> !(base <= t[i].mac < base + 1000)
  }

  /** Of eleven blocks of MACs one is untouched by ten reservations. */
  lemma FreshExists(t: seq<Reservation>) returns (base: nat)
    requires |t| <= MAX_RESERVATIONS
    ensures Fresh(t, base)
  {
    var used := Blocks(t);
    BlocksSmall(t);
    var k := Missing(11, used);
    base := 1000 * k;
    forall i | 0 <= i < |t| && t[i].valid ensures !(base <= t[i].mac < base + 1000) {
      assert t[i].mac / 1000 in used;
    }
  }

  lemma Missing(n: nat, used: set<int>) returns (k: nat)
    requires |used| < n
    ensures k < n && k !in used
  {
    UptoIs(n);
    if forall x :: x in Upto(n) ==> x in used {
      CardAtMost(Upto(n), used);
      assert false;
    }
    var x :| x in Upto(n) && x !in used;
    k := x;
  }

  ghost function Blocks(t: seq<Reservation>): set<int> {
    set i | 0 <= i < |t| :: t[i].mac / 1000
  }

  lemma {:induction false} BlocksSmall(t: seq<Reservation>)
    ensures |Blocks(t)| <= |t|
  {
    if t != [] {
      var n := |t| - 1;
      BlocksSmall(t[..n]);
      assert Blocks(t) == Blocks(t[..n]) + {t[n].mac / 1000} by {
        forall x ensures x in Blocks(t) <==> x in Blocks(t[..n]) + {t[n].mac / 1000} {
          if x in Blocks(t) {
            var i :| 0 <= i < |t| && x == t[i].mac / 1000;
            assert i < n ==> t[..n][i] == t[i];
          }
          if x in Blocks(t[..n]) {
            var i :| 0 <= i < n && x == t[..n][i].mac / 1000;
            assert t[i] == t[..n][i];
          }
        }
      }
    }
  }

  function Upto(n: nat): set<int> {
    if n == 0 then {} else Upto(n - 1) + {n - 1}
  }

  lemma {:induction false} UptoIs(n: nat)
    ensures |Upto(n)| == n && forall x :: x in Upto(n) ==> 0 <= x < n
  {
    if n > 0 {
      UptoIs(n - 1);
    }
  }

  lemma CardAtMost(a: set<int>, b: set<int>)
    requires a <= b
    ensures |a| <= |b|
  {
    assert b == a + (b - a);
  }

  /** The pool addresses before `j` that are not reserved, leased in order to fresh MACs. */
  ghost function Filled(c: Config, base: nat, j: nat): (ls: seq<Lease>)
    requires OneNet(c) && c.end.b3 < 255 && j <= Size(c) && base <= 10000
    ensures |ls| <= j
  {
    if j == 0 then []
    else
      var ls := Filled(c, base, j - 1);
      if ReservedIp(c.reservations, Addr(c, j - 1)) then ls
      else ls + [Lease(Addr(c, j - 1), base + |ls|, c.ticks, [])]
  }

  /** Unreserved addresses of the pool, each its own fresh MAC's. */
  ghost predicate FilledSo(c: Config, ls: seq<Lease>, base: nat, j: nat) {
    forall i :: 0 <= i < |ls| ==>
      InPool(c, ls[i].ip) && ls[i].ip.b3 < c.start.b3 + j && ls[i].mac == base + i && !ReservedIp(c.reservations, ls[i].ip)
  }

  lemma {:induction false} FilledIs(c: Config, base: nat, j: nat)
    requires OneNet(c) && c.end.b3 < 255 && j <= Size(c) && base <= 10000
    ensures FilledSo(c, Filled(c, base, j), base, j)
  {
    if j > 0 {
      FilledIs(c, base, j - 1);
      var ls := Filled(c, base, j - 1);
      if !ReservedIp(c.reservations, Addr(c, j - 1)) {
        FilledOne(c, ls, base, j);
      }
    }
  }

  lemma FilledOne(c: Config, ls: seq<Lease>, base: nat, j: nat)
    requires OneNet(c) && c.end.b3 < 255 && 0 < j <= Size(c) && base + |ls| <= 0x1_0000
    requires FilledSo(c, ls, base, j - 1) && !ReservedIp(c.reservations, Addr(c, j - 1))
    ensures FilledSo(c, ls + [Lease(Addr(c, j - 1), base + |ls|, c.ticks, [])], base, j)
  {
    hide ReservedIp;
  }

  /** Nothing is added over a stretch of reserved addresses. */
  lemma {:induction false} FilledOver(c: Config, base: nat, j: nat, k: nat)
    requires OneNet(c) && c.end.b3 < 255 && j <= k <= Size(c) && base <= 10000
    requires forall i :: j <= i < k ==> ReservedIp(c.reservations, Addr(c, i))
    ensures Filled(c, base, k) == Filled(c, base, j)
  {
    if j < k {
      FilledOver(c, base, j, k - 1);
    }
  }

  lemma {:induction false} FilledPrefix(c: Config, base: nat, j: nat, k: nat)
    requires OneNet(c) && c.end.b3 < 255 && j <= k <= Size(c) && base <= 10000
    ensures Filled(c, base, j) <= Filled(c, base, k)
  {
    if j < k {
      FilledPrefix(c, base, j, k - 1);
    }
  }

  /** Every unreserved address before `j` is leased. */
  lemma {:induction false} FilledHas(c: Config, base: nat, j: nat, i: nat)
    requires OneNet(c) && c.end.b3 < 255 && i < j <= Size(c) && base <= 10000
    requires !ReservedIp(c.reservations, Addr(c, i))
    ensures Leased(Filled(c, base, j), Addr(c, i))
  {
    if i < j - 1 {
      FilledHas(c, base, j - 1, i);
      var ls := Filled(c, base, j - 1);
      var k :| 0 <= k < |ls| && ls[k].ip == Addr(c, i);
      assert Filled(c, base, j)[k] == ls[k];
    } else {
      var ls := Filled(c, base, j);
      assert ls[|ls| - 1].ip == Addr(c, i);
    }
  }

  /** The first unreserved address from `j` on, or the pool's size. */
  ghost function Open(c: Config, j: nat): (k: nat)
    requires OneNet(c) && c.end.b3 < 255 && j <= Size(c)
    ensures j <= k <= Size(c)
    ensures k < Size(c) ==> !ReservedIp(c.reservations, Addr(c, k))
    ensures forall i :: j <= i < k ==> ReservedIp(c.reservations, Addr(c, i))
    decreases Size(c) - j
  {
    if j == Size(c) || !ReservedIp(c.reservations, Addr(c, j)) then j else Open(c, j + 1)
  }

  /** From address `j` the skip loop goes to the first unreserved one. */
  lemma {:induction false} SkipTo(c: Config, left: set<Ip>, j: nat, k: nat)
    requires OneNet(c) && c.end.b3 < 255 && j <= k <= Size(c)
    requires forall i :: j <= i < k ==> Addr(c, i) in left
    requires k < Size(c) ==> Addr(c, k) !in left
    ensures Skip(left, c.end, Addr(c, j)) == Addr(c, k)
    decreases k - j
  {
    var x := Addr(c, j);
    if j < k {
      assert Next(x) == Addr(c, j + 1) && AtMost(x, c.end);
      forall i | j + 1 <= i < k ensures Addr(c, i) in left - {x} {
      }
      SkipTo(c, left - {x}, j + 1, k);
    } else if k == Size(c) {
      PastEnd(c, left, x);
    }
  }

  /** What a fresh client is given when the candidate is address `j`. */
  lemma FreshChosen(c: Config, s: Server, mac: Mac, j: nat)
    requires Regular(c) && j <= Size(c) && Candidate(c, s) == Addr(c, j)
    requires forall i :: 0 <= i < |c.reservations| && c.reservations[i].valid ==> c.reservations[i].mac != mac
    ensures Reserved(c.reservations, mac) == ANY
    ensures Chosen(c, s, mac) == Addr(c, Open(c, j))
  {
    var foreign := Foreign(c.reservations, mac);
    if Reserved(c.reservations, mac) != ANY {
      ReservedBy(c.reservations, mac);
    }
    var k := Open(c, j);
    hide Reserved, Candidate, Open;
    forall i | j <= i <= k && i < Size(c)
      ensures Addr(c, i) in foreign <==> ReservedIp(c.reservations, Addr(c, i)) {
      ForeignIsReserved(c, mac, Addr(c, i));
    }
    hide Foreign, Regular, Addr;
    SkipTo(c, foreign, j, k);
  }

  /** The server after the first `j` addresses have been filled, the cursor at address `j`. */
  ghost predicate At(c: Config, s: Server, base: nat, j: nat)
    requires OneNet(c) && c.end.b3 < 255
  {
    && j <= Size(c) && base <= 10000
    && s.leases == Filled(c, base, j)
    && s.plus == (if j == Size(c) then c.start else Addr(c, j))
    && !s.declined
    && (s.leases == [] ==> j == 0)
  }

  /** A DISCOVER that is not refused ends in the claim's leases. */
  lemma Offered(c: Config, s: Server, mac: Mac)
    requires var q := MakeClaim(c, s, Discover(mac));
      !Refused(c, q) && q.at < |q.leases| && q.leases[q.at].hostname == []
    ensures var (q, t) := (MakeClaim(c, s, Discover(mac)), Handle(c, s, Discover(mac)).0);
      t.leases == q.leases && t.plus == q.plus && !t.declined
  {
    var q := MakeClaim(c, s, Discover(mac));
    DiscoverSummary(q.client);
    hide MakeClaim, Decode, Summarize;
    assert q.leases[q.at := q.leases[q.at].(hostname := [])] == q.leases;
  }

  lemma RunSnoc(c: Config, es: seq<Event>, e: Event)
    ensures Run(c, Started(c), es + [e]) == Step(c, Run(c, Started(c), es), e)
  {
    assert (es + [e])[..|es|] == es;
  }

  /** The next fresh MAC. */
  function NextMac(s: Server, base: nat): Mac
    requires base <= 10000 && |s.leases| <= 1000
  {
    base + |s.leases|
  }

  lemma FreshMac(c: Config, s: Server, base: nat, j: nat)
    requires Regular(c) && Fresh(c.reservations, base) && At(c, s, base, j)
    ensures |s.leases| <= 256
    ensures FindMac(s.leases, NextMac(s, base)) == |s.leases|
    ensures forall i :: 0 <= i < |c.reservations| && c.reservations[i].valid ==> c.reservations[i].mac != NextMac(s, base)
  {
    FilledIs(c, base, j);
    hide Filled;
  }

  lemma CandidateAt(c: Config, s: Server, base: nat, j: nat)
    requires Regular(c) && At(c, s, base, j) && j < Size(c)
    ensures Candidate(c, s) == Addr(c, j)
  {
    var n := |s.leases|;
    FilledIs(c, base, j);
    hide Filled;
    NotLess(c.end);
    if n == 0 {
      ScanNothing(s.leases, Start(c, s));
    } else {
      CursorStays(s.leases, n, Start(c, s));
    }
  }

  lemma InsertLast(ls: seq<Lease>, ip: Ip)
    requires forall i :: 0 <= i < |ls| ==> AtMost(ls[i].ip, ip)
    ensures InsertPos(ls, ip) == |ls|
  {
    var p := InsertPos(ls, ip);
    if p < |ls| {
      LessAtMost(ip, ls[p].ip, ip);
      NotLess(ip);
    }
  }

  /** A client without a lease, offered an address: the new list and cursor. */
  lemma FreshOffer(c: Config, s: Server, mac: Mac, ip: Ip)
    requires FindMac(s.leases, mac) == |s.leases| && Chosen(c, s, mac) == ip && !Less(c.end, ip) && ip != ANY
    ensures var t := Handle(c, s, Discover(mac)).0;
      && t.leases == InsertAt(s.leases, InsertPos(s.leases, ip), Lease(ip, mac, c.ticks, []))
      && t.plus == (if ip == c.end then c.start else Next(ip)) && !t.declined
  {
    hide Chosen, FindMac, InsertPos;
    Offered(c, s, mac);
    hide Handle;
  }

  lemma FillChosen(c: Config, s: Server, base: nat, j: nat)
    requires Regular(c) && Fresh(c.reservations, base) && At(c, s, base, j) && Open(c, j) < Size(c)
    ensures |s.leases| <= 1000 && FindMac(s.leases, NextMac(s, base)) == |s.leases|
    ensures var (k, mac) := (Open(c, j), NextMac(s, base));
      && Chosen(c, s, mac) == Addr(c, k) && InsertPos(s.leases, Addr(c, k)) == |s.leases|
      && Filled(c, base, k + 1) == s.leases + [Lease(Addr(c, k), mac, c.ticks, [])]
  {
    FreshMac(c, s, base, j);
    var k := Open(c, j);
    CandidateAt(c, s, base, j);
    FreshChosen(c, s, NextMac(s, base), j);
    FilledIs(c, base, j);
    FilledOver(c, base, j, k);
    InsertLast(s.leases, Addr(c, k));
    hide Chosen, Candidate, Open, InsertPos, FindMac, Fresh;
  }

  /** One fresh client more is given the next unreserved address. */
  lemma FillStep(c: Config, s: Server, base: nat, j: nat)
    requires Regular(c) && Fresh(c.reservations, base) && At(c, s, base, j) && Open(c, j) < Size(c)
    ensures |s.leases| <= 1000
    ensures At(c, Handle(c, s, Discover(NextMac(s, base))).0, base, Open(c, j) + 1)
  {
    FillChosen(c, s, base, j);
    var k, mac := Open(c, j), NextMac(s, base);
    var ip := Addr(c, k);
    assert ip != ANY && InPool(c, ip) && base <= 10000;
    hide Filled, Chosen, Candidate, Open, InsertPos, FindMac, Handle, Regular, Fresh;
    NotLess(c.end);
    FreshOffer(c, s, mac, ip);
  }

  /** A run that has filled the first `j` addresses. */
  ghost predicate RunAt(c: Config, es: seq<Event>, base: nat, j: nat) {
    Regular(c) && Fresh(c.reservations, base) && At(c, Run(c, Started(c), es), base, j)
  }

  lemma FillMore(c: Config, es: seq<Event>, base: nat, j: nat) returns (fs: seq<Event>)
    requires RunAt(c, es, base, j) && Open(c, j) < Size(c)
    ensures RunAt(c, fs, base, Open(c, j) + 1)
  {
    var s := Run(c, Started(c), es);
    FillStep(c, s, base, j);
    var e := Arrives(Discover(NextMac(s, base)));
    hide At, Filled, Open, Handle, Run;
    RunSnoc(c, es, e);
    fs := es + [e];
  }

  /** Fresh clients fill the pool up to its last unreserved address. */
  lemma {:induction false} FillRun(c: Config, es: seq<Event>, base: nat, j: nat) returns (fs: seq<Event>, k: nat)
    requires RunAt(c, es, base, j)
    ensures RunAt(c, fs, base, k) && Open(c, k) == Size(c)
    decreases Size(c) - j
  {
    fs, k := es, j;
    if Open(c, j) < Size(c) {
      fs := FillMore(c, es, base, j);
      k := Open(c, j) + 1;
      hide Open;
      fs, k := FillRun(c, fs, base, k);
    }
  }

  /** One more is refused, if need be, and the cursor is back at the start. */
  lemma FillUp(c: Config, es: seq<Event>, base: nat, j: nat) returns (fs: seq<Event>)
    requires RunAt(c, es, base, j) && Open(c, j) == Size(c) && Run(c, Started(c), es).leases != []
    ensures RunAt(c, fs, base, Size(c)) && Run(c, Started(c), fs).leases != []
  {
    var s := Run(c, Started(c), es);
    FilledOver(c, base, j, Size(c));
    if j == Size(c) {
      fs := es;
    } else {
      FreshMac(c, s, base, j);
      CandidateAt(c, s, base, j);
      var mac := NextMac(s, base);
      FreshChosen(c, s, mac, j);
      hide Filled, Chosen, Candidate, Open;
      var e := Arrives(Discover(mac));
      RunSnoc(c, es, e);
      fs := es + [e];
    }
  }

  // ----- the collision -----

  /** Below the first reserved address everything is filled. */
  lemma {:induction false} FilledBelow(c: Config, base: nat, r: nat, j: nat)
    requires OneNet(c) && c.end.b3 < 255 && j <= r <= Size(c) && base <= 10000
    requires forall i :: 0 <= i < r ==> !ReservedIp(c.reservations, Addr(c, i))
    ensures |Filled(c, base, j)| == j
    ensures forall i :: 0 <= i < j ==> Filled(c, base, j)[i].ip == Addr(c, i)
  {
    if j > 0 {
      FilledBelow(c, base, r, j - 1);
    }
  }

  /** Over the filled pool the cursor climbs from the start to the first reserved address. */
  lemma {:induction false} ClimbsTo(c: Config, ls: seq<Lease>, r: nat, k: nat, s: Scan)
    requires OneNet(c) && c.end.b3 < 255 && r < Size(c) && k <= |ls| && r <= |ls|
    requires forall i :: 0 <= i < r ==> ls[i].ip == Addr(c, i)
    requires forall i :: 0 <= i < |ls| ==> ls[i].ip != Addr(c, r)
    requires s.plus == s.client == c.start
    ensures var t := ScanTo(ls, k, s); t.plus == t.client == Addr(c, if k < r then k else r)
  {
    if k > 0 {
      ClimbsTo(c, ls, r, k - 1, s);
    }
  }

  /** The first reserved address up to `j`. */
  lemma {:induction false} FirstReserved(c: Config, j: nat) returns (r: nat)
    requires OneNet(c) && c.end.b3 < 255 && j < Size(c) && ReservedIp(c.reservations, Addr(c, j))
    ensures r <= j && ReservedIp(c.reservations, Addr(c, r))
    ensures forall i :: 0 <= i < r ==> !ReservedIp(c.reservations, Addr(c, i))
  {
    if i: nat :| i < j && ReservedIp(c.reservations, Addr(c, i)) {
      r := FirstReserved(c, i);
    } else {
      r := j;
    }
  }

  /** With the unreserved addresses leased and the cursor at the start, one more fresh client is given a leased one. */
  lemma Collides(c: Config, s: Server, base: nat, a: nat)
    requires Regular(c) && Fresh(c.reservations, base) && a < Size(c)
    requires At(c, s, base, Size(c)) && s.leases != []
    requires ReservedIp(c.reservations, Addr(c, a)) && Open(c, a) < Size(c)
    ensures |s.leases| <= 1000
    ensures !IpsDistinct(Handle(c, s, Discover(NextMac(s, base))).0.leases)
  {
    FreshMac(c, s, base, Size(c));
    var mac := NextMac(s, base);
    var k := CollisionPoint(c, s, base, a, mac);
    var ip := Addr(c, k);
    hide Filled, Candidate, Chosen, Open, FindMac, InsertPos, At, Fresh, Handle;
    NotLess(c.end);
    FreshOffer(c, s, mac, ip);
    InsertTwice(s.leases, InsertPos(s.leases, ip), Lease(ip, mac, c.ticks, []));
  }

  lemma InsertTwice(ls: seq<Lease>, at: nat, l: Lease)
    requires at <= |ls| && Leased(ls, l.ip)
    ensures !IpsDistinct(InsertAt(ls, at, l))
  {
    var j :| 0 <= j < |ls| && ls[j].ip == l.ip;
    var r := InsertAt(ls, at, l);
    assert r[at] == l;
    if j < at {
      assert r[j] == ls[j];
    } else {
      assert r[j + 1] == ls[j];
    }
  }

  /** Which address that is. */
  lemma CollisionPoint(c: Config, s: Server, base: nat, a: nat, mac: Mac) returns (k: nat)
    requires Regular(c) && Fresh(c.reservations, base) && a < Size(c)
    requires At(c, s, base, Size(c)) && s.leases != []
    requires ReservedIp(c.reservations, Addr(c, a)) && Open(c, a) < Size(c)
    requires forall i :: 0 <= i < |c.reservations| && c.reservations[i].valid ==> c.reservations[i].mac != mac
    ensures k < Size(c) && Chosen(c, s, mac) == Addr(c, k) && Leased(s.leases, Addr(c, k))
  {
    var r := FirstReserved(c, a);
    k := Open(c, r);
    assert !ReservedIp(c.reservations, Addr(c, Open(c, a)));
    FilledHas(c, base, Size(c), k);
    CandidateFirst(c, s, base, r);
    hide Filled, Open, Candidate, Chosen;
    FreshChosen(c, s, mac, r);
  }

  lemma CandidateFirst(c: Config, s: Server, base: nat, r: nat)
    requires Regular(c) && At(c, s, base, Size(c)) && s.leases != [] && r < Size(c)
    requires ReservedIp(c.reservations, Addr(c, r))
    requires forall i :: 0 <= i < r ==> !ReservedIp(c.reservations, Addr(c, i))
    ensures Candidate(c, s) == Addr(c, r)
  {
    var ls := s.leases;
    FilledBelow(c, base, r, r);
    FilledPrefix(c, base, r, Size(c));
    FilledIs(c, base, Size(c));
    var f := Filled(c, base, r);
    assert ls == Filled(c, base, Size(c)) && s.plus == c.start;
    hide Filled, At, Regular;
    assert forall i :: 0 <= i < r ==> ls[i] == f[i];
    ClimbsTo(c, ls, r, |ls|, Start(c, s));
    NotLess(c.end);
  }

  /** The run: fresh clients until every unreserved address is leased, and one more. */
  lemma CollidingRun(c: Config, a: Ip, b: Ip) returns (es: seq<Event>)
    requires Regular(c) && InPool(c, a) && InPool(c, b) && a.b3 < b.b3
    requires ReservedIp(c.reservations, a) && !ReservedIp(c.reservations, b)
    ensures !IpsDistinct(Run(c, Started(c), es).leases)
  {
    var base := FreshExists(c.reservations);
    var i, j := a.b3 - c.start.b3, b.b3 - c.start.b3;
    assert Addr(c, i) == a && Addr(c, j) == b;
    assert RunAt(c, [], base, 0);
    var k;
    es, k := FillRun(c, [], base, 0);
    FilledOver(c, base, k, Size(c));
    FilledHas(c, base, Size(c), j);
    hide Filled, Run, Started, Regular, Handle, Fresh;
    es := FillUp(c, es, base, k);
    var s := Run(c, Started(c), es);
    Collides(c, s, base, i);
    var e := Arrives(Discover(NextMac(s, base)));
    RunSnoc(c, es, e);
    es := es + [e];
  }

  /** Two clients with the same address reserved are both given it. */
  lemma TwiceReserved(c: Config, i: nat, j: nat) returns (es: seq<Event>)
    requires Regular(c) && i < j < |c.reservations| && c.reservations[i].valid && c.reservations[j].valid
    requires c.reservations[i].ip == c.reservations[j].ip
    ensures !IpsDistinct(Run(c, Started(c), es).leases)
  {
    var (a, b) := (c.reservations[i], c.reservations[j]);
    ReservedFor(c.reservations, a.mac, i);
    ReservedFor(c.reservations, b.mac, j);
    assert a.mac != b.mac && InPool(c, a.ip) && a.ip != ANY;
    hide Reserved, Foreign, Candidate, Handle, Regular, Unique;
    NotLess(c.end);
    var s0 := Started(c);
    FreshOffer(c, s0, a.mac, a.ip);
    var s1 := Handle(c, s0, Discover(a.mac)).0;
    assert s1.leases == [Lease(a.ip, a.mac, c.ticks, [])];
    assert s1.leases[1..] == [];
    FreshOffer(c, s1, b.mac, b.ip);
    InsertTwice(s1.leases, InsertPos(s1.leases, b.ip), Lease(b.ip, b.mac, c.ticks, []));
    RunSnoc(c, [], Arrives(Discover(a.mac)));
    RunSnoc(c, [] + [Arrives(Discover(a.mac))], Arrives(Discover(b.mac)));
    es := [] + [Arrives(Discover(a.mac))] + [Arrives(Discover(b.mac))];
  }

  /**
   The exact condition: every run keeps leased addresses distinct if and only if no address
   is reserved twice and above a reserved address of the pool there are only reserved ones.
   */
  lemma NoCollisionIff(c: Config)
    requires Regular(c)
    ensures (forall es :: IpsDistinct(Run(c, Started(c), es).leases)) <==>
      NoneTwice(c.reservations) && ReservedLast(c)
  {
    if NoneTwice(c.reservations) && ReservedLast(c) {
      forall es ensures IpsDistinct(Run(c, Started(c), es).leases) {
        RunKeepsOwned(c, es);
        OrderedDistinct(c, Run(c, Started(c), es).leases);
      }
    } else if !NoneTwice(c.reservations) {
      var t := c.reservations;
      var i, j :| 0 <= i < j < |t| && t[i].valid && t[j].valid && t[i].ip == t[j].ip;
      var es := TwiceReserved(c, i, j);
    } else {
      var a, b :| InPool(c, a) && InPool(c, b) && a.b3 < b.b3
        && ReservedIp(c.reservations, a) && !ReservedIp(c.reservations, b);
      var es := CollidingRun(c, a, b);
    }
  }

  // ----- four clients -----

  /** Host byte `k` of the network of the example. */
  function Host(k: u8): Ip { Ip(192, 168, 4, k) }

  /** The pool .2 to .5, with .3 reserved for MAC 7. */
  const Small: Config := Config(Host(2), Host(5), 120, [Reservation(true, 7, Host(3))])

  lemma SmallTable(mac: Mac)
    requires mac != 7
    ensures Reserved(Small.reservations, mac) == ANY && Foreign(Small.reservations, mac) == {Host(3)}
  {
    var t := Small.reservations;
    assert t[1..] == [];
    assert t[0] == Reservation(true, 7, Host(3));
  }

  /** What another client is given, from the candidate. */
  lemma SmallChosen(s: Server, mac: Mac)
    requires mac != 7
    ensures Chosen(Small, s, mac) == if Candidate(Small, s) == Host(3) then Host(4) else Candidate(Small, s)
  {
    SmallTable(mac);
    hide Candidate, Foreign, Reserved;
    var x := Candidate(Small, s);
    assert Next(Host(3)) == Host(4);
    assert Skip({Host(3)} - {Host(3)}, Host(5), Host(4)) == Host(4);
  }

  lemma SmallOffer(s: Server, mac: Mac, ip: Ip, at: nat)
    requires mac != 7 && FindMac(s.leases, mac) == |s.leases| && InPool(Small, ip) && at <= |s.leases|
    requires Candidate(Small, s) == ip || (Candidate(Small, s) == Host(3) && ip == Host(4))
    requires ip != Host(3) && InsertPos(s.leases, ip) == at
    ensures var t := Handle(Small, s, Discover(mac)).0;
      && t.leases == InsertAt(s.leases, at, Lease(ip, mac, 120, []))
      && t.plus == (if ip == Host(5) then Host(2) else Next(ip)) && !t.declined
  {
    SmallChosen(s, mac);
    hide Candidate, Chosen, Handle, InsertPos, FindMac;
    FreshOffer(Small, s, mac, ip);
  }

  lemma SmallFirst()
    ensures var t := Handle(Small, Started(Small), Discover(1)).0;
      t.leases == [Lease(Host(2), 1, 120, [])] && t.plus == Host(3) && !t.declined
  {
    hide Handle, Decode, Summarize;
    SmallOffer(Started(Small), 1, Host(2), 0);
  }

  /** Four runs, each a DISCOVER longer. */
  lemma FourSteps(c: Config, a: Mac, b: Mac, d: Mac, e: Mac)
    ensures var s1 := Handle(c, Started(c), Discover(a)).0;
      var s2 := Handle(c, s1, Discover(b)).0;
      var s3 := Handle(c, s2, Discover(d)).0;
      Run(c, Started(c), [Arrives(Discover(a)), Arrives(Discover(b)), Arrives(Discover(d)), Arrives(Discover(e))])
        == Handle(c, s3, Discover(e)).0
  {
    var (e1, e2, e3, e4) := (Arrives(Discover(a)), Arrives(Discover(b)), Arrives(Discover(d)), Arrives(Discover(e)));
    hide Handle;
    RunSnoc(c, [], e1);
    RunSnoc(c, [e1], e2);
    RunSnoc(c, [e1, e2], e3);
    RunSnoc(c, [e1, e2, e3], e4);
    assert [] + [e1] == [e1] && [e1] + [e2] == [e1, e2] && [e1, e2] + [e3] == [e1, e2, e3];
    assert [e1, e2, e3] + [e4] == [e1, e2, e3, e4];
  }

  /** DISCOVERs from the MACs 1, 2, 3 and 8 are given .2, .4, .5 and again .4. */
  lemma SkipCollides()
    ensures Run(Small, Started(Small), [Arrives(Discover(1)), Arrives(Discover(2)), Arrives(Discover(3)), Arrives(Discover(8))]).leases ==
      [Lease(Host(2), 1, 120, []), Lease(Host(4), 2, 120, []), Lease(Host(4), 8, 120, []), Lease(Host(5), 3, 120, [])]
  {
    hide *;
    FourSteps(Small, 1, 2, 3, 8);
    var l1, l2, l3 := Lease(Host(2), 1, 120, []), Lease(Host(4), 2, 120, []), Lease(Host(5), 3, 120, []);
    var s1 := Handle(Small, Started(Small), Discover(1)).0;
    SmallFirst();
    SmallSecond(s1);
    var s2 := Handle(Small, s1, Discover(2)).0;
    assert s2.leases == [l1, l2];
    SmallThird(s2);
    var s3 := Handle(Small, s2, Discover(3)).0;
    assert s3.leases == [l1, l2, l3];
    SmallFourth(s3);
    InsertThird(l1, l2, l3, Lease(Host(4), 8, 120, []));
  }

  lemma InsertThird(a: Lease, b: Lease, c: Lease, x: Lease)
    ensures InsertAt([a, b, c], 2, x) == [a, b, x, c]
  {
  }

  lemma SmallSecond(s: Server)
    requires s.leases == [Lease(Host(2), 1, 120, [])] && s.plus == Host(3) && !s.declined
    ensures var t := Handle(Small, s, Discover(2)).0;
      t.leases == s.leases + [Lease(Host(4), 2, 120, [])] && t.plus == Host(5) && !t.declined
  {
    CursorStays(s.leases, 1, Start(Small, s));
    assert s.leases[1..] == [];
    assert FindMac(s.leases, 2) == 1;
    InsertLast(s.leases, Host(4));
    hide Handle, Decode, Summarize;
    SmallOffer(s, 2, Host(4), 1);
  }

  lemma SmallThird(s: Server)
    requires s.leases == [Lease(Host(2), 1, 120, []), Lease(Host(4), 2, 120, [])] && s.plus == Host(5) && !s.declined
    ensures var t := Handle(Small, s, Discover(3)).0;
      t.leases == s.leases + [Lease(Host(5), 3, 120, [])] && t.plus == Host(2) && !t.declined
  {
    CursorStays(s.leases, 2, Start(Small, s));
    assert s.leases[1..] == [Lease(Host(4), 2, 120, [])] && s.leases[1..][1..] == [];
    assert FindMac(s.leases, 3) == 2;
    InsertLast(s.leases, Host(5));
    hide Handle, Decode, Summarize;
    SmallOffer(s, 3, Host(5), 2);
  }

  lemma SmallFourth(s: Server)
    requires s.leases == [Lease(Host(2), 1, 120, []), Lease(Host(4), 2, 120, []), Lease(Host(5), 3, 120, [])]
    requires s.plus == Host(2) && !s.declined
    ensures Handle(Small, s, Discover(8)).0.leases == InsertAt(s.leases, 2, Lease(Host(4), 8, 120, []))
  {
    var ls := s.leases;
    assert Addr(Small, 0) == Host(2) && Addr(Small, 1) == Host(3);
    ClimbsTo(Small, ls, 1, 3, Start(Small, s));
    assert ls[1..] == [Lease(Host(4), 2, 120, []), Lease(Host(5), 3, 120, [])];
    assert ls[1..][1..] == [Lease(Host(5), 3, 120, [])] && ls[1..][1..][1..] == [];
    assert FindMac(ls, 8) == 3;
    assert InsertPos(ls, Host(4)) == 2;
    hide Handle, Decode, Summarize;
    SmallOffer(s, 8, Host(4), 2);
  }
}
