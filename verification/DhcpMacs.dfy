/**
 What every run keeps, with or without reservations and for any pool: one lease per MAC,
 replies that match the lease list, other clients' leases untouched, and leases that
 expire when they are not refreshed.
 */
module DhcpMacs {
  import opened Words
  import opened DhcpAddress
  import opened DhcpOptions
  import opened DhcpSpec

  ghost predicate MacsDistinct(ls: seq<Lease>) {
    forall i, j :: 0 <= i < j < |ls| ==> ls[i].mac != ls[j].mac
  }

  ghost predicate NoLease(ls: seq<Lease>, mac: Mac) {
    forall i :: 0 <= i < |ls| ==> ls[i].mac != mac
  }

  /** Exactly one lease for the MAC, with that address and a full timer. */
  ghost predicate Holds(ls: seq<Lease>, mac: Mac, ip: Ip, ticks: u32) {
    exists i :: 0 <= i < |ls|
      && ls[i].mac == mac && ls[i].ip == ip && ls[i].timer == ticks
      && forall j :: 0 <= j < |ls| && j != i ==> ls[j].mac != mac
  }

  /** The claim points at the client's only lease, or the client has none. */
  ghost predicate ClaimSound(q: Claim, mac: Mac, ticks: u32) {
    && MacsDistinct(q.leases)
    && (q.at < |q.leases| ==>
          q.leases[q.at].mac == mac && q.leases[q.at].ip == q.client && q.leases[q.at].timer == ticks)
    && (q.at >= |q.leases| ==> NoLease(q.leases, mac))
  }

  lemma MakeClaimSound(c: Config, s: Server, m: Message)
    requires MacsDistinct(s.leases)
    ensures ClaimSound(MakeClaim(c, s, m), m.mac, c.ticks)
  {
    var q := MakeClaim(c, s, m);
    if FindMac(s.leases, m.mac) == |s.leases| && !Less(c.end, q.client) {
      forall i, j | 0 <= i < j < |q.leases| ensures q.leases[i].mac != q.leases[j].mac {
        if i != q.at && j != q.at {
          var i', j' := if i < q.at then i else i - 1, if j < q.at then j else j - 1;
          assert q.leases[i] == s.leases[i'] && q.leases[j] == s.leases[j'];
        }
      }
    }
  }

  lemma DropSound(ls: seq<Lease>, at: nat, mac: Mac)
    requires MacsDistinct(ls)
    requires at < |ls| ==> ls[at].mac == mac
    requires at >= |ls| ==> NoLease(ls, mac)
    ensures MacsDistinct(Drop(ls, at)) && NoLease(Drop(ls, at), mac)
  {
    var d := Drop(ls, at);
    if at < |ls| {
      assert forall i :: 0 <= i < |d| ==> d[i] == ls[if i < at then i else i + 1];
    }
  }

  /**
   One message, any configuration: MACs stay distinct; an OFFER or ACK goes out only when
   the list holds exactly one lease for that client, with the address in the reply and a
   full timer; after a refusal, NAK, DECLINE or RELEASE the client has no lease.
   */
  lemma HandleSound(c: Config, s: Server, m: Message)
    requires m.cookie && MacsDistinct(s.leases)
    ensures var (t, r) := Handle(c, s, m);
      var q := MakeClaim(c, s, m);
      && MacsDistinct(t.leases)
      && (r.OfferReply? || r.AckReply? ==> Holds(t.leases, m.mac, r.yiaddr, c.ticks))
      && (r.NakReply? ==> NoLease(t.leases, m.mac))
      && (!Refused(c, q) && Verdict(q, m) in {Nak, Decline, Release} ==> NoLease(t.leases, m.mac) && t.client == ANY)
  {
    hide MakeClaim, Drop, Summarize, Decode, Decide;
    MakeClaimSound(c, s, m);
    var q := MakeClaim(c, s, m);
    DropSound(q.leases, q.at, m.mac);
    if !Refused(c, q) && !(Verdict(q, m) in {Nak, Decline, Release}) {
      AcceptedHasLease(c, s, m);
      var t := Handle(c, s, m).0;
      assert forall j :: 0 <= j < |t.leases| ==> t.leases[j].mac == q.leases[j].mac;
      assert t.leases[q.at].ip == q.client && t.leases[q.at].timer == c.ticks;
    }
  }

  /** A claim that is not refused always has a lease behind it. */
  lemma AcceptedHasLease(c: Config, s: Server, m: Message)
    requires !Refused(c, MakeClaim(c, s, m))
    ensures MakeClaim(c, s, m).at < |MakeClaim(c, s, m).leases|
  {
  }

  /** A client that is told an address keeps asking under it: what a REQUEST from a lease holder gets. */
  lemma RequestOutcome(c: Config, s: Server, m: Message, k: nat)
    requires m.cookie && MacsDistinct(s.leases)
    requires k < |s.leases| && s.leases[k].mac == m.mac
    requires AtMost(s.leases[k].ip, c.end) && s.leases[k].ip != ANY
    requires Summarize(Decode(m.options), s.leases[k].ip).msgType == REQUEST
    ensures var asked := Summarize(Decode(m.options), s.leases[k].ip).asked;
      Handle(c, s, m).1 ==
        if asked == Matches || (asked == Unasked && m.ciaddr == s.leases[k].ip)
        then AckReply(s.leases[k].ip) else NakReply(ANY)
  {
    assert FindMac(s.leases, m.mac) == k;
  }

  // ----- other clients -----

  /** The list with one client's leases left out. */
  function Without(ls: seq<Lease>, mac: Mac): seq<Lease> {
    if ls == [] then []
    else
      var rest := Without(ls[..|ls| - 1], mac);
      if ls[|ls| - 1].mac == mac then rest else rest + [ls[|ls| - 1]]
  }

  lemma {:induction false} WithoutConcat(a: seq<Lease>, b: seq<Lease>, mac: Mac)
    ensures Without(a + b, mac) == Without(a, mac) + Without(b, mac)
  {
    if b == [] {
      assert a + b == a;
    } else {
      assert (a + b)[..|a + b| - 1] == a + b[..|b| - 1];
      WithoutConcat(a, b[..|b| - 1], mac);
    }
  }

  /** Replacing the stretch `x` between `a` and `b` by `y` leaves the others alone when both are the client's. */
  lemma WithoutSwap(a: seq<Lease>, x: seq<Lease>, y: seq<Lease>, b: seq<Lease>, mac: Mac)
    requires |x| <= 1 && |y| <= 1
    requires forall l :: l in x || l in y ==> l.mac == mac
    ensures Without(a + x + b, mac) == Without(a + y + b, mac)
  {
    WithoutConcat(a + x, b, mac);
    WithoutConcat(a + y, b, mac);
    WithoutConcat(a, x, mac);
    WithoutConcat(a, y, mac);
    assert Without(x, mac) == [] && Without(y, mac) == [];
  }

  lemma ReplaceIsSwap(ls: seq<Lease>, at: nat, l: Lease)
    requires at < |ls| && ls[at].mac == l.mac
    ensures Without(ls[at := l], l.mac) == Without(ls, l.mac) == Without(RemoveAt(ls, at), l.mac)
  {
    var a, b := ls[..at], ls[at + 1..];
    assert ls == a + [ls[at]] + b;
    assert ls[at := l] == a + [l] + b;
    assert RemoveAt(ls, at) == a + [] + b;
    WithoutSwap(a, [ls[at]], [l], b, l.mac);
    WithoutSwap(a, [ls[at]], [], b, l.mac);
  }

  lemma InsertIsSwap(ls: seq<Lease>, at: nat, l: Lease)
    requires at <= |ls|
    ensures Without(InsertAt(ls, at, l), l.mac) == Without(ls, l.mac)
  {
    hide Without;
    assert ls == ls[..at] + [] + ls[at..];
    assert InsertAt(ls, at, l) == ls[..at] + [l] + ls[at..];
    WithoutSwap(ls[..at], [l], [], ls[at..], l.mac);
  }

  /** A message leaves every other client's lease, with its timer and name, exactly where it was. */
  lemma OthersUntouched(c: Config, s: Server, m: Message)
    requires MacsDistinct(s.leases)
    ensures Without(Handle(c, s, m).0.leases, m.mac) == Without(s.leases, m.mac)
  {
    hide Without, Decode, Summarize, Decide, RemoveAt;
    if m.cookie {
      ClaimOthers(c, s, m);
      MakeClaimSound(c, s, m);
      hide MakeClaim;
      var q := MakeClaim(c, s, m);
      if q.at < |q.leases| {
        var name := Summarize(Decode(m.options), q.client).hostname;
        ReplaceIsSwap(q.leases, q.at, q.leases[q.at].(hostname := name));
        assert Without(Drop(q.leases, q.at), m.mac) == Without(s.leases, m.mac);
      }
    }
  }

  lemma ClaimOthers(c: Config, s: Server, m: Message)
    ensures Without(MakeClaim(c, s, m).leases, m.mac) == Without(s.leases, m.mac)
  {
    var k := FindMac(s.leases, m.mac);
    if k < |s.leases| {
      ReplaceIsSwap(s.leases, k, s.leases[k].(timer := c.ticks));
    } else {
      var ip := Chosen(c, s, m.mac);
      InsertIsSwap(s.leases, InsertPos(s.leases, ip), Lease(ip, m.mac, c.ticks, []));
    }
  }

  lemma {:induction false} WithoutKeeps(ls: seq<Lease>, mac: Mac, l: Lease)
    requires l.mac != mac
    ensures l in Without(ls, mac) <==> l in ls
  {
    if ls != [] {
      var n := |ls| - 1;
      WithoutKeeps(ls[..n], mac, l);
      assert ls == ls[..n] + [ls[n]];
    }
  }

  // ----- ticks -----

  /** The indices of the leases that survive a tick, in order. */
  function Survivors(ls: seq<Lease>): seq<nat> {
    if ls == [] then []
    else
      var n := |ls| - 1;
      Survivors(ls[..n]) + if Dec32(ls[n].timer) == 0 then [] else [n]
  }

  /** Ageing keeps only leases that do not reach zero, in order, each one tick lower. */
  lemma {:induction false} AgedMeaning(ls: seq<Lease>)
    ensures var v, a := Survivors(ls), Aged(ls);
      && |v| == |a|
      && (forall i :: 0 <= i < |v| ==>
            v[i] < |ls| && Dec32(ls[v[i]].timer) != 0 && a[i] == ls[v[i]].(timer := Dec32(ls[v[i]].timer)))
      && (forall i, j :: 0 <= i < j < |v| ==> v[i] < v[j])
  {
    if ls != [] {
      var n := |ls| - 1;
      AgedMeaning(ls[..n]);
    }
  }

  /** Ageing keeps every lease that does not reach zero. */
  lemma {:induction false} AgedComplete(ls: seq<Lease>, j: nat)
    requires j < |ls| && Dec32(ls[j].timer) != 0
    ensures ls[j].(timer := Dec32(ls[j].timer)) in Aged(ls)
  {
    var n := |ls| - 1;
    if j < n {
      AgedComplete(ls[..n], j);
    }
  }

  /**
   At most one lease is evicted by a tick. It is one with the least time left, and it goes
   exactly when the number of survivors, taken modulo 256, exceeds the station limit.
   */
  lemma TickEvicts(ls: seq<Lease>)
    ensures var a, t := Aged(ls), Ticked(ls);
      if |a| % 0x100 > MAX_STATION then
        exists i :: 0 <= i < |a| && t == RemoveAt(a, i) && forall j :: 0 <= j < |a| ==> a[i].timer <= a[j].timer
      else t == a
  {
    var a := Aged(ls);
    if |a| % 0x100 > MAX_STATION {
      var i := Oldest(a);
      assert Ticked(ls) == RemoveAt(a, i);
    }
  }

  lemma AgedFrom(ls: seq<Lease>, i: nat, j: nat) returns (p: nat, q: nat)
    requires i <= j < |Aged(ls)|
    ensures p <= q < |ls| && (i < j ==> p < q)
    ensures Dec32(ls[p].timer) != 0 && Aged(ls)[i] == ls[p].(timer := Dec32(ls[p].timer))
    ensures Dec32(ls[q].timer) != 0 && Aged(ls)[j] == ls[q].(timer := Dec32(ls[q].timer))
  {
    hide Aged, Survivors;
    AgedMeaning(ls);
    p, q := Survivors(ls)[i], Survivors(ls)[j];
  }

  lemma RemovedFrom<T>(s: seq<T>, o: nat, i: nat)
    requires o < |s| && i < |s| - 1
    ensures RemoveAt(s, o)[i] == s[if i < o then i else i + 1]
  {
  }

  /** After a tick every lease is an old one, one tick lower and not yet at zero; order is kept. */
  lemma TickedFrom(ls: seq<Lease>, i: nat, j: nat) returns (p: nat, q: nat)
    requires i <= j < |Ticked(ls)|
    ensures p <= q < |ls| && (i < j ==> p < q)
    ensures Dec32(ls[p].timer) != 0 && Ticked(ls)[i] == ls[p].(timer := Dec32(ls[p].timer))
    ensures Dec32(ls[q].timer) != 0 && Ticked(ls)[j] == ls[q].(timer := Dec32(ls[q].timer))
  {
    hide Aged, Oldest;
    var a := Aged(ls);
    if |a| % 0x100 > MAX_STATION {
      var o := Oldest(a);
      RemovedFrom(a, o, i);
      RemovedFrom(a, o, j);
      hide RemoveAt;
      p, q := AgedFrom(ls, if i < o then i else i + 1, if j < o then j else j + 1);
    } else {
      p, q := AgedFrom(ls, i, j);
    }
  }

  // ----- runs -----

  lemma StepKeepsMacs(c: Config, s: Server, e: Event)
    requires MacsDistinct(s.leases)
    ensures MacsDistinct(Step(c, s, e).leases)
  {
    match e
    case Arrives(m) =>
      if m.cookie {
        HandleSound(c, s, m);
      }
    case Tick =>
      var t := Ticked(s.leases);
      forall i, j | 0 <= i < j < |t| ensures t[i].mac != t[j].mac {
        var p, q := TickedFrom(s.leases, i, j);
      }
  }

  /** In every run, whatever the pool and the reservations, no MAC holds two leases. */
  lemma {:induction false} RunKeepsMacs(c: Config, s: Server, es: seq<Event>)
    requires MacsDistinct(s.leases)
    ensures MacsDistinct(Run(c, s, es).leases)
  {
    if es != [] {
      RunKeepsMacs(c, s, es[..|es| - 1]);
      StepKeepsMacs(c, Run(c, s, es[..|es| - 1]), es[|es| - 1]);
    }
  }

  /** Ticks a timer value lasts: the decrement comes before the test, so zero lasts a full circle. */
  function Lifetime(timer: u32): int {
    if timer == 0 then M32 else timer
  }

  function Ticks(es: seq<Event>): nat {
    if es == [] then 0 else Ticks(es[..|es| - 1]) + if es[|es| - 1].Tick? then 1 else 0
  }

  /** No event is a message of this client. */
  ghost predicate Silent(es: seq<Event>, mac: Mac) {
    forall i :: 0 <= i < |es| ==> es[i].Arrives? && es[i].m.cookie ==> es[i].m.mac != mac
  }

  /** The same lease, `n` ticks later. */
  predicate Older(young: Lease, old_: Lease, n: nat) {
    old_ == young.(timer := old_.timer) && Lifetime(old_.timer) + n == Lifetime(young.timer)
  }

  lemma SilentStep(c: Config, s: Server, e: Event, l: Lease, n: nat)
    requires MacsDistinct(s.leases) && Silent([e], l.mac)
    requires forall x :: x in s.leases && x.mac == l.mac ==> Older(l, x, n)
    ensures forall x :: x in Step(c, s, e).leases && x.mac == l.mac ==> Older(l, x, n + Ticks([e]))
  {
    assert [e][0] == e && Ticks([e][..0]) == 0;
    match e
    case Arrives(m) =>
      if m.cookie {
        forall x: Lease | x.mac == l.mac ensures x in Handle(c, s, m).0.leases <==> x in s.leases {
          StillThere(c, s, m, x);
        }
      }
    case Tick =>
      var t := Ticked(s.leases);
      forall x | x in t && x.mac == l.mac ensures Older(l, x, n + 1) {
        var i :| 0 <= i < |t| && t[i] == x;
        var p, q := TickedFrom(s.leases, i, i);
        assert s.leases[p] in s.leases;
      }
  }

  lemma StillThere(c: Config, s: Server, m: Message, x: Lease)
    requires MacsDistinct(s.leases) && x.mac != m.mac
    ensures x in Handle(c, s, m).0.leases <==> x in s.leases
  {
    OthersUntouched(c, s, m);
    WithoutKeeps(Handle(c, s, m).0.leases, m.mac, x);
    WithoutKeeps(s.leases, m.mac, x);
    hide Handle, Without;
  }

  lemma OneMore(c: Config, s: Server, es: seq<Event>)
    requires es != []
    ensures var init, e := es[..|es| - 1], es[|es| - 1];
      Run(c, s, es) == Step(c, Run(c, s, init), e) && Ticks(es) == Ticks(init) + Ticks([e])
  {
    var e := es[|es| - 1];
    assert [e][..0] == [] && [e][0] == e;
  }

  /** While a client is silent, a lease it still has is its old one, less exactly the ticks that passed. */
  lemma {:induction false} SilentRun(c: Config, s: Server, es: seq<Event>, l: Lease)
    requires MacsDistinct(s.leases) && Silent(es, l.mac) && l in s.leases
    ensures forall x :: x in Run(c, s, es).leases && x.mac == l.mac ==> Older(l, x, Ticks(es))
  {
    if es != [] {
      var init, e := es[..|es| - 1], es[|es| - 1];
      OneMore(c, s, es);
      SilentRun(c, s, init, l);
      RunKeepsMacs(c, s, init);
      hide Run, Step, Ticks, MacsDistinct;
      SilentStep(c, Run(c, s, init), e, l, Ticks(init));
    }
  }

  /**
   Expiry: in every run a client that sends nothing for the full lifetime of its lease, in
   ticks, has no lease left.
   */
  lemma Expires(c: Config, s: Server, es: seq<Event>, l: Lease)
    requires MacsDistinct(s.leases) && Silent(es, l.mac) && l in s.leases
    requires Ticks(es) >= Lifetime(l.timer)
    ensures NoLease(Run(c, s, es).leases, l.mac)
  {
    SilentRun(c, s, es, l);
    var ls := Run(c, s, es).leases;
    forall i | 0 <= i < |ls| ensures ls[i].mac != l.mac {
      assert ls[i] in ls;
    }
  }

  // ----- survival -----

  /** No tick of the run finds more leases than the station limit, as it counts them. */
  ghost predicate Uncrowded(c: Config, s: Server, es: seq<Event>) {
    forall i :: 0 <= i < |es| && es[i].Tick? ==> |Aged(Run(c, s, es[..i]).leases)| % 0x100 <= MAX_STATION
  }

  /** The timer after `n` ticks, before it runs out. */
  function Remaining(timer: u32, n: nat): u32
    requires n < Lifetime(timer)
  {
    if n == 0 then timer else Lifetime(timer) - n
  }

  lemma SurvivesStep(c: Config, s: Server, e: Event, l: Lease, n: nat)
    requires MacsDistinct(s.leases) && Silent([e], l.mac)
    requires e.Tick? ==> |Aged(s.leases)| % 0x100 <= MAX_STATION
    requires n + Ticks([e]) < Lifetime(l.timer) && l.(timer := Remaining(l.timer, n)) in s.leases
    ensures l.(timer := Remaining(l.timer, n + Ticks([e]))) in Step(c, s, e).leases
  {
    assert [e][0] == e && Ticks([e][..0]) == 0;
    var x := l.(timer := Remaining(l.timer, n));
    match e
    case Arrives(m) =>
      if m.cookie {
        StillThere(c, s, m, x);
      }
    case Tick =>
      var j :| 0 <= j < |s.leases| && s.leases[j] == x;
      AgedComplete(s.leases, j);
      assert Ticked(s.leases) == Aged(s.leases);
  }

  lemma UncrowdedInit(c: Config, s: Server, es: seq<Event>)
    requires Uncrowded(c, s, es) && es != []
    ensures var n := |es| - 1;
      Uncrowded(c, s, es[..n]) && (es[n].Tick? ==> |Aged(Run(c, s, es[..n]).leases)| % 0x100 <= MAX_STATION)
  {
    hide Run, Aged;
    var init := es[..|es| - 1];
    assert forall i :: 0 <= i < |init| ==> init[..i] == es[..i] && init[i] == es[i];
  }

  /** A silent client keeps its lease, address and name, for every tick of its lifetime but the last. */
  lemma {:induction false} Survives(c: Config, s: Server, es: seq<Event>, l: Lease)
    requires MacsDistinct(s.leases) && Silent(es, l.mac) && l in s.leases
    requires Uncrowded(c, s, es) && Ticks(es) < Lifetime(l.timer)
    ensures l.(timer := Remaining(l.timer, Ticks(es))) in Run(c, s, es).leases
  {
    if es != [] {
      var init, e := es[..|es| - 1], es[|es| - 1];
      OneMore(c, s, es);
      UncrowdedInit(c, s, es);
      hide Run, Step, Ticks, MacsDistinct, Remaining, Aged, Uncrowded;
      RunKeepsMacs(c, s, init);
      Survives(c, s, init, l);
      SurvivesStep(c, Run(c, s, init), e, l, Ticks(init));
    } else {
      hide Step;
    }
  }

  /** With room for every station, a silent client still has its lease if and only if its lifetime in ticks is not over. */
  lemma LeaseHeldIff(c: Config, s: Server, es: seq<Event>, l: Lease)
    requires MacsDistinct(s.leases) && Silent(es, l.mac) && l in s.leases && Uncrowded(c, s, es)
    ensures !NoLease(Run(c, s, es).leases, l.mac) <==> Ticks(es) < Lifetime(l.timer)
  {
    if Ticks(es) < Lifetime(l.timer) {
      Survives(c, s, es, l);
      var ls, x := Run(c, s, es).leases, l.(timer := Remaining(l.timer, Ticks(es)));
      var j :| 0 <= j < |ls| && ls[j] == x;
      assert ls[j].mac == l.mac;
    } else {
      Expires(c, s, es, l);
    }
  }

  /** Under a lease time of zero ticks the lease behind an OFFER or ACK outlives every run of fewer than 2^32 ticks. */
  lemma ZeroLeaseLasts(c: Config, s: Server, m: Message, es: seq<Event>)
    requires c.ticks == 0 && m.cookie && MacsDistinct(s.leases)
    requires Handle(c, s, m).1.OfferReply? || Handle(c, s, m).1.AckReply?
    requires Silent(es, m.mac) && Uncrowded(c, Handle(c, s, m).0, es)
    ensures !NoLease(Run(c, Handle(c, s, m).0, es).leases, m.mac) <==> Ticks(es) < M32
  {
    HandleSound(c, s, m);
    var t := Handle(c, s, m).0;
    hide Handle;
    var i :| 0 <= i < |t.leases| && t.leases[i].mac == m.mac && t.leases[i].timer == 0;
    LeaseHeldIff(c, t, es, t.leases[i]);
  }
}
