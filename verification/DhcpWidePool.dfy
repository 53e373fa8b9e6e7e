/**
 Pools of any mask: which of them serve anybody at all, in the order the server compares
 addresses in.
 */
module DhcpWidePool {
  import opened DhcpAddress
  import opened DhcpSpec
  import opened DhcpPool

  /** From the start, a pool whose end is natively below its start never leases anything. */
  lemma {:induction false} ReversedNeverServes(c: Config, es: seq<Event>)
    requires NoReservations(c) && Less(c.end, c.start)
    ensures var s := Run(c, Started(c), es); s.leases == [] && s.plus == c.start && !s.declined
  {
    if es != [] {
      ReversedNeverServes(c, es[..|es| - 1]);
      var s := Run(c, Started(c), es[..|es| - 1]);
      match es[|es| - 1]
      case Arrives(m) =>
        ChosenIsCandidate(c, s, m.mac);
        ScanNothing(s.leases, Start(c, s));
        assert Candidate(c, s) == c.start;
      case Tick =>
    }
  }

  /**
   Whatever the mask: without reservations the server leases an address in some run if and
   only if the pool's start is not natively past its end; otherwise it refuses everyone.
   */
  lemma ServesIff(c: Config)
    requires NoReservations(c) && c.start != ANY
    ensures (exists es :: Run(c, Started(c), es).leases != []) <==> AtMost(c.start, c.end)
  {
    if AtMost(c.start, c.end) {
      var s, m := Started(c), Discover(0);
      ChosenIsCandidate(c, s, 0);
      ScanNothing(s.leases, Start(c, s));
      assert !Less(c.end, c.start);
      assert Chosen(c, s, 0) == c.start;
      DiscoverNew(c, s, 0);
      var es := [Arrives(m)];
      assert es[..0] == [];
      assert Run(c, s, es) == Handle(c, s, m).0;
      hide MakeClaim, Settle, Chosen;
      assert |Run(c, s, es).leases| == 1;
    } else {
      forall es ensures Run(c, Started(c), es).leases == [] {
        ReversedNeverServes(c, es);
      }
    }
  }
}
