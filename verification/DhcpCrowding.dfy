/**
 When the station limit plays no part: for which pools no tick of any run finds more leases
 than the limit, so that leases last exactly their lifetime.
 */
module DhcpCrowding {
  import opened Words
  import opened DhcpAddress
  import opened DhcpOptions
  import opened DhcpSpec
  import opened DhcpMacs
  import opened DhcpPool

  /** The lease list of a run never outgrows the pool. */
  lemma FitsPool(c: Config, ls: seq<Lease>)
    requires OneNet(c) && Ordered(c, ls)
    ensures |Aged(ls)| <= |ls| <= Size(c)
  {
    SurvivorCount(ls);
    if ls != [] {
      OrderedSpan(c, ls, |ls| - 1);
    }
  }

  lemma {:induction false} RunThen(c: Config, s: Server, es: seq<Event>, fs: seq<Event>)
    ensures Run(c, s, es + fs) == Run(c, Run(c, s, es), fs)
  {
    if fs == [] {
      assert es + fs == es;
    } else {
      assert (es + fs)[..|es + fs| - 1] == es + fs[..|fs| - 1];
      hide Step;
      RunThen(c, s, es, fs[..|fs| - 1]);
    }
  }

  lemma RunFitsPool(c: Config, before: seq<Event>, es: seq<Event>)
    requires OneNet(c) && c.end.b3 < 255 && NoReservations(c)
    ensures |Aged(Run(c, Run(c, Started(c), before), es).leases)| <= Size(c)
  {
    hide Run, Aged, NoReservations;
    RunThen(c, Started(c), before, es);
    RunKeepsPool(c, before + es);
    FitsPool(c, Run(c, Started(c), before + es).leases);
  }

  /** A pool of no more addresses than stations is never crowded, whatever came before. */
  lemma SmallPool(c: Config, before: seq<Event>, es: seq<Event>)
    requires OneNet(c) && c.end.b3 < 255 && NoReservations(c) && Size(c) <= MAX_STATION
    ensures Uncrowded(c, Run(c, Started(c), before), es)
  {
    hide Run, Aged, NoReservations;
    forall i | 0 <= i < |es| && es[i].Tick?
      ensures |Aged(Run(c, Run(c, Started(c), before), es[..i]).leases)| % 0x100 <= MAX_STATION {
      RunFitsPool(c, before, es[..i]);
    }
  }

  /**
   Over a pool of at most as many addresses as stations, a client that falls silent at any
   point of any run still has its lease if and only if the lease's lifetime is not over.
   */
  lemma SmallPoolHeldIff(c: Config, before: seq<Event>, es: seq<Event>, l: Lease)
    requires OneNet(c) && c.end.b3 < 255 && NoReservations(c) && Size(c) <= MAX_STATION
    requires l in Run(c, Started(c), before).leases && Silent(es, l.mac)
    ensures !NoLease(Run(c, Started(c), before + es).leases, l.mac) <==> Ticks(es) < Lifetime(l.timer)
  {
    hide Run, Ticks, Uncrowded;
    RunThen(c, Started(c), before, es);
    SmallPool(c, before, es);
    RunKeepsMacs(c, Started(c), before);
    LeaseHeldIff(c, Run(c, Started(c), before), es, l);
  }

  // ----- the exact condition -----

  /** Every lease has one tick left. */
  ghost predicate OneTickLeft(ls: seq<Lease>) {
    forall i :: 0 <= i < |ls| ==> ls[i].timer == 1
  }

  lemma HandleOneTick(c: Config, s: Server, m: Message)
    requires c.ticks == 1 && OneTickLeft(s.leases)
    ensures OneTickLeft(Handle(c, s, m).0.leases)
  {
    hide Chosen, FindMac, InsertPos, ScanTo;
    var q := MakeClaim(c, s, m);
    assert OneTickLeft(q.leases);
    hide MakeClaim, Summarize, Verdict, Refused;
  }

  lemma {:induction false} NoneSurvive(ls: seq<Lease>)
    requires OneTickLeft(ls)
    ensures Aged(ls) == []
  {
    if ls != [] {
      NoneSurvive(ls[..|ls| - 1]);
    }
  }

  lemma {:induction false} RunOneTick(c: Config, es: seq<Event>)
    requires c.ticks == 1
    ensures OneTickLeft(Run(c, Started(c), es).leases)
  {
    if es != [] {
      var s, e := Run(c, Started(c), es[..|es| - 1]), es[|es| - 1];
      RunOneTick(c, es[..|es| - 1]);
      match e
      case Arrives(m) => HandleOneTick(c, s, m);
      case Tick => NoneSurvive(s.leases);
    }
  }

  lemma {:induction false} AllSurvive(ls: seq<Lease>)
    requires forall i :: 0 <= i < |ls| ==> Dec32(ls[i].timer) != 0
    ensures |Aged(ls)| == |ls|
  {
    if ls != [] {
      AllSurvive(ls[..|ls| - 1]);
    }
  }

  lemma BlockSurvives(c: Config, k: nat)
    requires OneNet(c) && k <= Size(c) && c.ticks != 1
    ensures |Aged(Block(c, k))| == k
  {
    AllSurvive(Block(c, k));
    hide Aged;
  }

  /** One client more than the station limit, and a tick. */
  function Crowd(): seq<Event> {
    Discovers(MAX_STATION + 1) + [Tick]
  }

  lemma CrowdIsCrowded(c: Config)
    requires OneNet(c) && NoReservations(c) && c.start != ANY && Size(c) > MAX_STATION && c.ticks != 1
    ensures !Uncrowded(c, Started(c), Crowd())
  {
    var k := MAX_STATION + 1;
    var es := Discovers(k);
    assert |es| == k;
    hide Run, Aged, Discovers, Block, NoReservations;
    GrowRun(c, k);
    BlockSurvives(c, k);
    assert Crowd()[..k] == es && Crowd()[k] == Tick;
  }

  /**
   The exact condition: without reservations no run over a pool in one network is ever
   crowded if and only if the pool has at most as many addresses as stations are allowed, or
   leases last a single tick.
   */
  lemma UncrowdedIff(c: Config)
    requires OneNet(c) && c.end.b3 < 255 && NoReservations(c) && c.start != ANY
    ensures (forall es: seq<Event> :: Uncrowded(c, Started(c), es)) <==> Size(c) <= MAX_STATION || c.ticks == 1
  {
    forall es: seq<Event> | Size(c) <= MAX_STATION || c.ticks == 1 ensures Uncrowded(c, Started(c), es) {
      if Size(c) <= MAX_STATION {
        SmallPool(c, [], es);
      } else {
        forall i | 0 <= i < |es| && es[i].Tick?
          ensures |Aged(Run(c, Started(c), es[..i]).leases)| % 0x100 <= MAX_STATION {
          RunOneTick(c, es[..i]);
          NoneSurvive(Run(c, Started(c), es[..i]).leases);
        }
      }
    }
    if Size(c) > MAX_STATION && c.ticks != 1 {
      CrowdIsCrowded(c);
    }
  }
}
