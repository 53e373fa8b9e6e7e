/**
 Runs with reservations. The list stays in order and the candidate address is still free,
 but the steps after it can hand out an address somebody holds; this says exactly when.
 */
module DhcpReservations {
  import opened Words
  import opened DhcpAddress
  import opened DhcpOptions
  import opened DhcpSpec
  import opened DhcpMacs
  import opened DhcpPool

  /** Addresses in the native order, repetitions allowed, none past the pool's end. */
  ghost predicate Sorted(c: Config, ls: seq<Lease>) {
    && (forall i :: 0 <= i < |ls| ==> AtMost(ls[i].ip, c.end))
    && (forall i, j :: 0 <= i <= j < |ls| ==> AtMost(ls[i].ip, ls[j].ip))
  }

  ghost predicate IpsDistinct(ls: seq<Lease>) {
    forall i, j :: 0 <= i < j < |ls| ==> ls[i].ip != ls[j].ip
  }

  lemma AtMostTransitive(a: Ip, b: Ip, c: Ip)
    requires AtMost(a, b) && AtMost(b, c)
    ensures AtMost(a, c)
  {
  }

  lemma InsertSorted(c: Config, ls: seq<Lease>, l: Lease)
    requires Sorted(c, ls) && AtMost(l.ip, c.end)
    ensures Sorted(c, InsertAt(ls, InsertPos(ls, l.ip), l))
  {
    var at := InsertPos(ls, l.ip);
    hide InsertPos;
    forall j | at <= j < |ls| ensures AtMost(l.ip, ls[j].ip) {
      assert AtMost(l.ip, ls[at].ip) && AtMost(ls[at].ip, ls[j].ip);
      AtMostTransitive(l.ip, ls[at].ip, ls[j].ip);
    }
    hide AtMost;
    var r := InsertAt(ls, at, l);
    assert AtMost(l.ip, l.ip) by { AtMostReflexive(l.ip); }
  }

  lemma AtMostReflexive(a: Ip)
    ensures AtMost(a, a)
  {
  }

  lemma SettleSorted(c: Config, q: Claim, m: Message, hostname: seq<u8>)
    requires Sorted(c, q.leases)
    ensures Sorted(c, Settle(c, q, m, hostname).0.leases)
  {
    hide Decode, Summarize, Decide, AtMost;
  }

  /** One step keeps the list in native order, whatever is reserved. */
  lemma StepSorted(c: Config, s: Server, e: Event)
    requires Sorted(c, s.leases)
    ensures Sorted(c, Step(c, s, e).leases)
  {
    match e
    case Arrives(m) =>
      if m.cookie {
        ClaimSorted(c, s, m);
        hide MakeClaim, Settle, Sorted;
        SettleSorted(c, MakeClaim(c, s, m), m, s.hostname);
      }
    case Tick =>
      hide AtMost;
      var t := Ticked(s.leases);
      forall i, j | 0 <= i <= j < |t| ensures AtMost(t[i].ip, c.end) && AtMost(t[i].ip, t[j].ip) {
        var p, q := TickedFrom(s.leases, i, j);
      }
  }

  lemma ClaimSorted(c: Config, s: Server, m: Message)
    requires Sorted(c, s.leases)
    ensures Sorted(c, MakeClaim(c, s, m).leases)
  {
    var k := FindMac(s.leases, m.mac);
    if k == |s.leases| {
      var ip := Chosen(c, s, m.mac);
      hide Chosen;
      if !Less(c.end, ip) {
        InsertSorted(c, s.leases, Lease(ip, m.mac, c.ticks, []));
      }
    }
  }

  /** In every run, with any reservations and any pool, the list is in native order and ends inside the pool. */
  lemma {:induction false} RunSorted(c: Config, es: seq<Event>)
    ensures Sorted(c, Run(c, Started(c), es).leases)
  {
    if es != [] {
      RunSorted(c, es[..|es| - 1]);
      StepSorted(c, Run(c, Started(c), es[..|es| - 1]), es[|es| - 1]);
    }
  }

  // ----- the candidate is free for any sorted list -----

  lemma {:induction false} CursorFree(c: Config, ls: seq<Lease>, k: nat, s: Scan)
    requires Sorted(c, ls) && c.end.b3 < 255 && k <= |ls|
    ensures var r := ScanTo(ls, k, s);
      && (forall j :: 0 <= j < k ==> ls[j].ip != r.plus)
      && (s.client == s.plus ==> r.client == r.plus)
  {
    if k > 0 {
      CursorFree(c, ls, k - 1, s);
      var r := ScanTo(ls, k - 1, s);
      hide ScanTo;
      if ls[k - 1].ip == r.plus {
        NextGreater(r.plus, c.end);
        forall j | 0 <= j < k ensures ls[j].ip != Next(r.plus) {
          assert AtMost(ls[j].ip, ls[k - 1].ip);
        }
      }
      ScanUnfold(ls, k, s);
    }
  }

  lemma ScanUnfold(ls: seq<Lease>, k: nat, s: Scan)
    requires 0 < k <= |ls|
    ensures ScanTo(ls, k, s) == ScanStep(ScanTo(ls, k - 1, s), ls[k - 1].ip)
  {
  }

  lemma NextGreater(a: Ip, end: Ip)
    requires AtMost(a, end) && end.b3 < 255
    ensures Less(a, Next(a))
  {
  }

  lemma {:induction false} FirstFree(c: Config, ls: seq<Lease>, k: nat, s: Scan)
    requires Sorted(c, ls) && k <= |ls| && !s.settled
    ensures var r := ScanTo(ls, k, s);
      && (!r.settled && s.first.b3 + k <= 255 ==> r.first.b3 == s.first.b3 + k)
      && (r.settled ==> k > 0 && Less(r.first, ls[k - 1].ip))
      && (r.first.b3 != 0 || s.first.b3 + k <= 255 ==>
            if r.settled then forall j :: 0 <= j < k ==> ls[j].ip != r.first
            else forall j :: 0 <= j < k ==> Less(ls[j].ip, r.first))
  {
    if k > 0 {
      FirstFree(c, ls, k - 1, s);
      var r, x := ScanTo(ls, k - 1, s), ls[k - 1].ip;
      ScanUnfold(ls, k, s);
      hide ScanTo;
      if r.settled {
        assert AtMost(ls[k - 2].ip, x);
        LessAtMost(r.first, ls[k - 2].ip, x);
      } else if !Less(r.first, x) && (Next(r.first).b3 != 0 || s.first.b3 + k <= 255) {
        forall j | 0 <= j < k ensures Less(ls[j].ip, Next(r.first)) {
          assert AtMost(ls[j].ip, x);
          LessAtMost(ls[j].ip, x, Next(r.first));
        }
      }
    }
  }

  lemma LessAtMost(a: Ip, b: Ip, c: Ip)
    ensures Less(a, b) && AtMost(b, c) ==> Less(a, c)
    ensures AtMost(a, b) && Less(b, c) ==> Less(a, c)
  {
  }

  /**
   For any list in native order the candidate before the reservation steps is leased to
   nobody, unless the first-free register has just carried out of its network, to a host
   byte of zero; it cannot have carried while the list is no longer than the host bytes
   from the pool's start up to 255 are many.
   */
  lemma CandidateUnleased(c: Config, s: Server)
    requires Sorted(c, s.leases) && c.end.b3 < 255
    requires Candidate(c, s).b3 != 0 || c.start.b3 + |s.leases| <= 255
    ensures !Leased(s.leases, Candidate(c, s))
  {
    var n := |s.leases|;
    CursorFree(c, s.leases, n, Start(c, s));
    FirstFree(c, s.leases, n, Start(c, s));
    var r := ScanTo(s.leases, n, Start(c, s));
    hide ScanTo, Less;
    if Candidate(c, s) == r.first {
      forall j | 0 <= j < n ensures s.leases[j].ip != r.first {
        NotLess(r.first);
      }
    }
  }

  /**
   A message from a client that has a lease: the cursor stays where it is unless a lease in
   front of the client's sits on it, and ends on none of those.
   */
  lemma CursorMovesOff(c: Config, s: Server, m: Message, k: nat)
    requires Sorted(c, s.leases) && c.end.b3 < 255 && m.cookie
    requires k == FindMac(s.leases, m.mac) < |s.leases|
    ensures var plus := Handle(c, s, m).0.plus;
      && (forall j :: 0 <= j < k ==> s.leases[j].ip != plus)
      && (!Leased(s.leases[..k], s.plus) ==> plus == s.plus)
  {
    CursorFree(c, s.leases, k, Start(c, s));
    if !Leased(s.leases[..k], s.plus) {
      forall j | 0 <= j < k ensures s.leases[j].ip != s.plus {
        assert s.leases[..k][j] == s.leases[j];
      }
      CursorStays(s.leases, k, Start(c, s));
    }
    hide ScanTo, FindMac, Chosen, InsertPos, Summarize, Decode, Less, Sorted, Leased;
  }

  /** A candidate that carried to a leased address: one lease at 192.168.5.0, one at the only pool address. */
  lemma CandidateLeasedAtZero()
    ensures exists c: Config, s: Server :: Sorted(c, s.leases) && c.end.b3 < 255 && Leased(s.leases, Candidate(c, s))
  {
    var (a, b) := (Ip(192, 168, 5, 0), Ip(192, 168, 4, 254));
    var c := Config(b, b, 120, [Reservation(true, 7, a)]);
    var s := Server([Lease(a, 7, 60, []), Lease(b, 1, 60, [])], ANY, b, false, false, []);
    var r0 := Start(c, s);
    ScanNothing(s.leases, r0);
    ScanUnfold(s.leases, 1, r0);
    ScanUnfold(s.leases, 2, r0);
    assert ScanStep(r0, a) == Scan(b, b, Ip(192, 168, 4, 255), false);
    assert ScanTo(s.leases, 2, r0).first == a;
    assert s.leases[0].ip == Candidate(c, s);
  }

  lemma NotLess(a: Ip)
    ensures !Less(a, a)
  {
  }

  // ----- the reservation steps -----

  /** How far `v` lies ahead of `base` on the 32-bit circle of addresses. */
  function Offset(base: Ip, v: Ip): u32 {
    Sub32(Number(v), Number(base))
  }

  lemma OffsetNext(base: Ip, v: Ip)
    requires Offset(base, v) < M32 - 1
    ensures Offset(base, Next(v)) == Offset(base, v) + 1
  {
    NextIsIncrement(v);
    hide Number, Next;
  }

  /**
   The skip loop tests the whole table at every step; the addresses it has passed cannot
   come up again, so the shrinking set answers the same and the loop ends on an address
   that is past the pool or reserved for nobody else.
   */
  lemma {:induction false} SkipStops(all: set<Ip>, left: set<Ip>, end: Ip, base: Ip, ip: Ip)
    requires left <= all && |all| < M32 - 1
    requires Offset(base, ip) + |left| <= |all|
    requires forall v :: v in all && v !in left ==> Offset(base, v) < Offset(base, ip)
    ensures var r := Skip(left, end, ip); Less(end, r) || r !in all
    decreases |left|
  {
    if AtMost(ip, end) && ip in left {
      OffsetNext(base, ip);
      hide Offset;
      SkipStops(all, left - {ip}, end, base, Next(ip));
    }
  }

  /** The skip passes foreign addresses of the pool only: it ends on the first that is not one. */
  lemma {:induction false} SkipIsFirst(all: set<Ip>, left: set<Ip>, end: Ip, ip: Ip, v: Ip)
    requires left <= all && |left| < M32
    requires Offset(ip, v) < Offset(ip, Skip(left, end, ip))
    ensures v in all && AtMost(v, end)
    decreases |left|
  {
    if AtMost(ip, end) && ip in left {
      var r := Skip(left, end, ip);
      hide Skip;
      if v == ip {
      } else {
        OffsetShift(ip, v);
        OffsetShift(ip, r);
        hide Offset, Next, AtMost;
        SkipIsFirst(all, left - {ip}, end, Next(ip), v);
      }
    }
  }

  /** Seen from one address on, another one lies one closer. */
  lemma OffsetShift(base: Ip, v: Ip)
    ensures Offset(Next(base), v) == if Offset(base, v) == 0 then M32 - 1 else Offset(base, v) - 1
    ensures Offset(base, v) == 0 <==> v == base
  {
    NextIsIncrement(base);
    NumberInjective(base, v);
    hide Number, Next;
  }

  lemma NumberInjective(a: Ip, b: Ip)
    ensures Number(a) == Number(b) <==> a == b
  {
    var (x, y) := (Ip(a.b3, a.b2, a.b1, a.b0), Ip(b.b3, b.b2, b.b1, b.b0));
    assert Word(x) == Number(a) && Word(y) == Number(b);
    hide Word, Number;
    LessIsWordOrder(x, y);
  }

  lemma {:induction false} ForeignIsSmall(table: seq<Reservation>, mac: Mac)
    ensures |Foreign(table, mac)| <= |table|
  {
    if table != [] {
      var t := table[1..];
      ForeignIsSmall(t, mac);
      var one := if table[0].valid && table[0].ip != ANY && table[0].mac != mac then {table[0].ip} else {};
      assert Foreign(table, mac) <= Foreign(t, mac) + one by {
        forall ip | ip in Foreign(table, mac) ensures ip in Foreign(t, mac) + one {
          var i :| 0 <= i < |table| && table[i].valid && table[i].ip != ANY && table[i].mac != mac && table[i].ip == ip;
          if i > 0 {
            assert t[i - 1] == table[i];
          }
        }
      }
      Subset(Foreign(table, mac), Foreign(t, mac) + one);
    }
  }

  lemma Subset(a: set<Ip>, b: set<Ip>)
    requires a <= b
    ensures |a| <= |b|
  {
    var rest := b - a;
    assert b == a + rest;
  }

  /** A client without its own reservation is never given an address reserved for another. */
  lemma NeverForeign(c: Config, s: Server, mac: Mac)
    requires |c.reservations| <= MAX_RESERVATIONS
    requires Reserved(c.reservations, mac) == ANY
    ensures var ip := Chosen(c, s, mac); Less(c.end, ip) || ip !in Foreign(c.reservations, mac)
  {
    var foreign := Foreign(c.reservations, mac);
    ForeignIsSmall(c.reservations, mac);
    hide Foreign, Candidate, Number;
    SkipStops(foreign, foreign, c.end, Candidate(c, s), Candidate(c, s));
  }

  /** A reserved address is served exactly when it is not past the pool's end: the range check still applies. */
  lemma ReservedAboveEnd(c: Config, s: Server, m: Message)
    requires NoLease(s.leases, m.mac) && Reserved(c.reservations, m.mac) != ANY
    ensures Refused(c, MakeClaim(c, s, m)) <==> Less(c.end, Reserved(c.reservations, m.mac))
  {
    assert FindMac(s.leases, m.mac) == |s.leases|;
  }

  /**
   When one message keeps addresses distinct: exactly when the client already has a lease,
   or is refused, or the address chosen for it (its reservation, else the candidate past
   foreign reservations) is leased to nobody.
   */
  lemma DistinctIff(c: Config, s: Server, m: Message)
    requires IpsDistinct(s.leases)
    ensures var ip := Chosen(c, s, m.mac);
      IpsDistinct(MakeClaim(c, s, m).leases) <==>
        (!NoLease(s.leases, m.mac) || Less(c.end, ip) || !Leased(s.leases, ip))
  {
    var k := FindMac(s.leases, m.mac);
    var ip := Chosen(c, s, m.mac);
    hide Chosen, FindMac;
    if k == |s.leases| && !Less(c.end, ip) {
      var at := InsertPos(s.leases, ip);
      hide InsertPos;
      var r := InsertAt(s.leases, at, Lease(ip, m.mac, c.ticks, []));
      InsertDistinct(s.leases, at, Lease(ip, m.mac, c.ticks, []));
    }
  }

  /**
   Whatever else is reserved, a message that enters neither reservation branch (no address
   reserved for this client, the candidate reserved for nobody else) keeps addresses distinct.
   */
  lemma DistinctWhenUnreserved(c: Config, s: Server, m: Message)
    requires IpsDistinct(s.leases) && Sorted(c, s.leases) && c.end.b3 < 255
    requires Candidate(c, s).b3 != 0 || c.start.b3 + |s.leases| <= 255
    requires Reserved(c.reservations, m.mac) == ANY && Candidate(c, s) !in Foreign(c.reservations, m.mac)
    ensures IpsDistinct(MakeClaim(c, s, m).leases)
  {
    hide Candidate, Foreign, Reserved, MakeClaim, Sorted, IpsDistinct;
    assert Chosen(c, s, m.mac) == Candidate(c, s);
    CandidateUnleased(c, s);
    DistinctIff(c, s, m);
  }

  lemma InsertDistinct(ls: seq<Lease>, at: nat, l: Lease)
    requires IpsDistinct(ls) && at <= |ls|
    ensures IpsDistinct(InsertAt(ls, at, l)) <==> !Leased(ls, l.ip)
  {
    var r := InsertAt(ls, at, l);
    if Leased(ls, l.ip) {
      var j :| 0 <= j < |ls| && ls[j].ip == l.ip;
      var j' := if j < at then j else j + 1;
      assert r[j'] == ls[j] && r[at] == l;
      assert !IpsDistinct(r) by { if j' < at { assert r[j'].ip == r[at].ip; } else { assert r[at].ip == r[j'].ip; } }
    } else {
      forall i, j | 0 <= i < j < |r| ensures r[i].ip != r[j].ip {
        assert i != at ==> r[i] == ls[if i < at then i else i - 1];
        assert j != at ==> r[j] == ls[if j < at then j else j - 1];
      }
    }
  }

  /** A reservation for an address somebody already holds breaks distinctness. */
  lemma ReservationCollides()
    ensures exists c: Config, s: Server, m: Message ::
      m.cookie && Inv(c.(reservations := []), s) && !IpsDistinct(MakeClaim(c, s, m).leases)
  {
    var a, b := Ip(192, 168, 4, 2), Ip(192, 168, 4, 9);
    var c := Config(a, b, 120, [Reservation(true, 7, a)]);
    var s := Server([Lease(a, 1, 60, [])], ANY, Next(a), false, false, []);
    var m := Discover(7);
    assert FindMac(s.leases, 7) == 1;
    assert Reserved(c.reservations, 7) == a;
    var q := MakeClaim(c, s, m);
    assert s.leases[1..] == [];
    assert q.leases[0].ip == a && q.leases[1].ip == a;
    assert Inv(c.(reservations := []), s);
  }

  /** A reservation served from outside the pool takes the cursor out with it, unless it lies just before the pool. */
  lemma CursorAfterReservation(c: Config, s: Server, m: Message)
    requires OneNet(c) && c.end.b3 < 255 && NoLease(s.leases, m.mac)
    requires Reserved(c.reservations, m.mac) != ANY && AtMost(Reserved(c.reservations, m.mac), c.end)
    ensures var r := Reserved(c.reservations, m.mac);
      InPool(c, MakeClaim(c, s, m).plus) <==> InPool(c, r) || Next(r) == c.start
  {
    assert FindMac(s.leases, m.mac) == |s.leases|;
    NotLess(c.end);
    hide FindMac, Candidate, InsertPos, Reserved;
  }

  /** And a cursor no lease sits on is what the next client without a reservation is given. */
  lemma CursorIsServed(c: Config, s: Server, mac: Mac)
    requires s.leases != [] && !Leased(s.leases, s.plus) && AtMost(s.plus, c.end)
    requires Reserved(c.reservations, mac) == ANY && s.plus !in Foreign(c.reservations, mac)
    ensures Chosen(c, s, mac) == s.plus
  {
    hide Foreign;
    CursorStays(s.leases, |s.leases|, Start(c, s));
    if Less(c.end, s.plus) {
      LessAtMost(c.end, s.plus, c.end);
      NotLess(c.end);
    }
  }

  /** Two DISCOVERs, the first from a client with a reservation below the pool: the second is leased an address outside it. */
  lemma ReservationLeavesPool()
    ensures exists c: Config, a: Message, b: Message ::
      var q := MakeClaim(c, Handle(c, Started(c), a).0, b);
      OneNet(c) && c.end.b3 < 255 && Reserved(c.reservations, b.mac) == ANY && !Refused(c, q) && !InPool(c, q.client)
  {
    var r := Ip(192, 168, 4, 50);
    var c := Config(Ip(192, 168, 4, 100), Ip(192, 168, 4, 150), 120, [Reservation(true, 7, r)]);
    var (a, b) := (Discover(7), Discover(8));
    assert Reserved(c.reservations, 7) == r && Reserved(c.reservations[1..], 8) == ANY;
    var q := MakeClaim(c, Started(c), a);
    assert q == Claim([Lease(r, 7, 120, [])], 0, r, Next(r), false);
    DiscoverSummary(r);
    var s := Handle(c, Started(c), a).0;
    assert s.leases == [Lease(r, 7, 120, [])] && s.plus == Next(r);
    hide Decode, Summarize, Skip;
    CursorIsServed(c, s, 8);
    assert FindMac(s.leases[1..], 8) == 0;
  }
}
