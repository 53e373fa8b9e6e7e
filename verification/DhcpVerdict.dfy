/**
 What a client is answered, in terms of the options in its message: the last message type,
 the last requested address, and, for want of one, the address it says it has.
 */
module DhcpVerdict {
  import opened Words
  import opened DhcpAddress
  import opened DhcpOptions
  import opened DhcpSpec
  import opened DhcpMacs

  /** `i` is the last option with that code and at least `least` bytes of data. */
  ghost predicate LastWith(opts: seq<Opt>, code: u8, least: nat, i: nat) {
    && i < |opts| && opts[i].code == code && |opts[i].data| >= least
    && forall j :: i < j < |opts| ==> opts[j].code != code || |opts[j].data| < least
  }

  ghost predicate NoneWith(opts: seq<Opt>, code: u8, least: nat) {
    forall j :: 0 <= j < |opts| ==> opts[j].code != code || |opts[j].data| < least
  }

  /** The message is of that type: the last option 53 with data says so. */
  ghost predicate OfType(m: Message, t: u8) {
    exists i: nat :: LastWith(Decode(m.options), 53, 1, i) && Decode(m.options)[i].data[0] == t
  }

  /** It carries a requested address. */
  ghost predicate Asks(m: Message) {
    exists i: nat :: LastWith(Decode(m.options), 50, 4, i)
  }

  /** The address it carries is `ip`. */
  ghost predicate AsksFor(m: Message, ip: Ip) {
    exists i: nat :: LastWith(Decode(m.options), 50, 4, i) && Decode(m.options)[i].data[..4] == [ip.b0, ip.b1, ip.b2, ip.b3]
  }

  /** The host name it carries, cleaned, if any. */
  ghost predicate Named(m: Message, name: seq<u8>) {
    || (NoneWith(Decode(m.options), 12, 1) && name == [])
    || exists i: nat :: LastWith(Decode(m.options), 12, 1, i) && name == Sanitized(Decode(m.options)[i].data)
  }

  /** The client holds a lease for the address it says it has. */
  ghost predicate Renews(s: Server, m: Message) {
    exists k :: 0 <= k < |s.leases| && s.leases[k].mac == m.mac && s.leases[k].ip == m.ciaddr
  }

  lemma {:induction false} LastExists(opts: seq<Opt>, code: u8, least: nat)
    ensures NoneWith(opts, code, least) || exists i: nat :: LastWith(opts, code, least, i)
  {
    if opts != [] {
      var n := |opts| - 1;
      if opts[n].code == code && |opts[n].data| >= least {
        assert LastWith(opts, code, least, n);
      } else {
        LastExists(opts[..n], code, least);
        if i: nat :| LastWith(opts[..n], code, least, i) {
          assert LastWith(opts, code, least, i);
        }
      }
    }
  }

  // ----- what is remembered of the options -----

  lemma TypeRead(opts: seq<Opt>, client: Ip, i: nat)
    requires LastWith(opts, 53, 1, i)
    ensures Summarize(opts, client).msgType == opts[i].data[0]
  {
    hide Summarize;
    SummaryIsLast(opts, client, MSG_TYPE, i);
  }

  lemma AskedRead(opts: seq<Opt>, client: Ip, i: nat)
    requires LastWith(opts, 50, 4, i)
    ensures Summarize(opts, client).asked ==
      if opts[i].data[..4] == [client.b0, client.b1, client.b2, client.b3] then Matches else Differs
  {
    hide Summarize;
    SummaryIsLast(opts, client, REQ_IPADDR, i);
    var d := opts[i].data;
    assert d[..4] == [d[0], d[1], d[2], d[3]];
  }

  lemma NameRead(opts: seq<Opt>, client: Ip, i: nat)
    requires LastWith(opts, 12, 1, i)
    ensures Summarize(opts, client).hostname == Sanitized(opts[i].data)
  {
    hide Summarize;
    SummaryIsLast(opts, client, HOSTNAME, i);
  }

  /** The summary of a message, over its decoded options. */
  lemma SummaryRead(m: Message, client: Ip)
    ensures var s := Summarize(Decode(m.options), client);
      && (s.msgType != 0 ==> OfType(m, s.msgType))
      && (forall t: u8 :: OfType(m, t) ==> t == s.msgType)
      && s.asked == (if AsksFor(m, client) then Matches else if Asks(m) then Differs else Unasked)
      && Named(m, s.hostname)
  {
    var opts := Decode(m.options);
    hide Decode, Summarize, Sanitized;
    LastExists(opts, 53, 1);
    LastExists(opts, 50, 4);
    LastExists(opts, 12, 1);
    forall i: nat | LastWith(opts, 53, 1, i) ensures Summarize(opts, client).msgType == opts[i].data[0] {
      TypeRead(opts, client, i);
    }
    forall i: nat | LastWith(opts, 50, 4, i) ensures Summarize(opts, client).asked ==
      if opts[i].data[..4] == [client.b0, client.b1, client.b2, client.b3] then Matches else Differs {
      AskedRead(opts, client, i);
    }
    if i: nat :| LastWith(opts, 12, 1, i) {
      NameRead(opts, client, i);
    }
    Untold(opts, client);
  }

  lemma Untold(opts: seq<Opt>, client: Ip)
    ensures NoneWith(opts, 53, 1) ==> Summarize(opts, client).msgType == 0
    ensures NoneWith(opts, 50, 4) ==> Summarize(opts, client).asked == Unasked
    ensures NoneWith(opts, 12, 1) ==> Summarize(opts, client).hostname == []
  {
    hide Summarize;
    if NoneWith(opts, 53, 1) {
      SummaryDefault(opts, client, MSG_TYPE);
    }
    if NoneWith(opts, 50, 4) {
      SummaryDefault(opts, client, REQ_IPADDR);
    }
    if NoneWith(opts, 12, 1) {
      SummaryDefault(opts, client, HOSTNAME);
    }
  }

  // ----- the answer -----

  /** The client's one lease, full, under that address and name. */
  ghost predicate HoldsNamed(ls: seq<Lease>, mac: Mac, ip: Ip, ticks: u32, m: Message) {
    exists i :: 0 <= i < |ls|
      && ls[i].mac == mac && ls[i].ip == ip && ls[i].timer == ticks && Named(m, ls[i].hostname)
      && forall j :: 0 <= j < |ls| && j != i ==> ls[j].mac != mac
  }

  /** The answer that keeps the lease, and the ones that end it. */
  ghost predicate Keeps(c: Config, s: Server, m: Message, reply: Reply) {
    var (t, r) := Handle(c, s, m);
    r == reply && !t.declined && HoldsNamed(t.leases, m.mac, MakeClaim(c, s, m).client, c.ticks, m)
  }

  ghost predicate Ends(c: Config, s: Server, m: Message, reply: Reply, declined: bool) {
    var (t, r) := Handle(c, s, m);
    r == reply && t.declined == declined && NoLease(t.leases, m.mac)
  }

  lemma KeptNamed(q: Claim, m: Message, ticks: u32, name: seq<u8>)
    requires ClaimSound(q, m.mac, ticks) && q.at < |q.leases| && Named(m, name)
    ensures HoldsNamed(q.leases[q.at := q.leases[q.at].(hostname := name)], m.mac, q.client, ticks, m)
  {
    hide Named;
    var ls := q.leases[q.at := q.leases[q.at].(hostname := name)];
    assert ls[q.at].mac == m.mac;
    forall j | 0 <= j < |ls| && j != q.at ensures ls[j].mac != m.mac {
      assert ls[j] == q.leases[j];
    }
  }

  lemma RenewIff(c: Config, s: Server, m: Message)
    requires MacsDistinct(s.leases)
    ensures MakeClaim(c, s, m).renew <==> Renews(s, m)
  {
    var k := FindMac(s.leases, m.mac);
    hide Chosen, InsertPos, ScanTo, FindMac;
    if j :| 0 <= j < |s.leases| && s.leases[j].mac == m.mac && s.leases[j].ip == m.ciaddr {
      assert k == j;
    }
  }

  /** What the verdict does, by kind. */
  lemma Outcome(c: Config, s: Server, m: Message)
    requires m.cookie && MacsDistinct(s.leases) && !Refused(c, MakeClaim(c, s, m))
    ensures var q := MakeClaim(c, s, m);
      match Verdict(q, m)
      case Offer => Keeps(c, s, m, OfferReply(q.client))
      case Ack => Keeps(c, s, m, AckReply(q.client))
      case Idle => Keeps(c, s, m, NoReply)
      case Nak => Ends(c, s, m, NakReply(ANY), false)
      case Decline => Ends(c, s, m, NoReply, true)
      case Release => Ends(c, s, m, NoReply, false)
  {
    hide MakeClaim, Decide, Decode, Summarize, HoldsNamed, NoLease, Named, Drop;
    var q := MakeClaim(c, s, m);
    MakeClaimSound(c, s, m);
    AcceptedHasLease(c, s, m);
    SummaryRead(m, q.client);
    DropSound(q.leases, q.at, m.mac);
    KeptNamed(q, m, c.ticks, Summarize(Decode(m.options), q.client).hostname);
  }

  /**
   The answer to every message that is not refused for its address. A DISCOVER is offered the
   address; a DECLINE or RELEASE ends the lease silently, and only a DECLINE is remembered; a
   REQUEST is confirmed exactly when it asks for the address, or asks for none and the client
   says it has it already. A message of another type, or of none, is answered by the
   requested address alone, and not at all without one.
   */
  lemma AnswerByOptions(c: Config, s: Server, m: Message)
    requires m.cookie && MacsDistinct(s.leases) && !Refused(c, MakeClaim(c, s, m))
    ensures var ip := MakeClaim(c, s, m).client;
      && (OfType(m, 1) ==> Keeps(c, s, m, OfferReply(ip)))
      && (OfType(m, 4) ==> Ends(c, s, m, NoReply, true))
      && (OfType(m, 7) ==> Ends(c, s, m, NoReply, false))
      && (OfType(m, 3) ==>
            if AsksFor(m, ip) || (!Asks(m) && Renews(s, m)) then Keeps(c, s, m, AckReply(ip))
            else Ends(c, s, m, NakReply(ANY), false))
      && (!OfType(m, 1) && !OfType(m, 3) && !OfType(m, 4) && !OfType(m, 7) ==>
            if AsksFor(m, ip) then Keeps(c, s, m, AckReply(ip))
            else if Asks(m) then Ends(c, s, m, NakReply(ANY), false)
            else Keeps(c, s, m, NoReply))
  {
    hide MakeClaim, Decode, Summarize, Keeps, Ends, OfType, Asks, AsksFor, Renews, Named, MacsDistinct;
    var q := MakeClaim(c, s, m);
    Outcome(c, s, m);
    RenewIff(c, s, m);
    SummaryRead(m, q.client);
  }

  /** A claim past the pool's end, or for no address, is refused before the options are read, and the lease behind it goes. */
  lemma RefusedIsNak(c: Config, s: Server, m: Message)
    requires m.cookie && MacsDistinct(s.leases)
    requires Less(c.end, MakeClaim(c, s, m).client) || MakeClaim(c, s, m).client == ANY
    ensures Ends(c, s, m, NakReply(MakeClaim(c, s, m).client), false)
  {
    hide MakeClaim, Drop, Less, NoLease;
    var q := MakeClaim(c, s, m);
    MakeClaimSound(c, s, m);
    DropSound(q.leases, q.at, m.mac);
  }

  // ----- the address it speaks of -----

  /** A client that holds a lease is answered about that lease's address, whatever else has happened to the cursor. */
  lemma SameAddress(c: Config, s: Server, m: Message, k: nat)
    requires MacsDistinct(s.leases) && k < |s.leases| && s.leases[k].mac == m.mac
    ensures MakeClaim(c, s, m).client == s.leases[k].ip
  {
    assert FindMac(s.leases, m.mac) == k;
    hide Chosen, InsertPos, ScanTo, FindMac;
  }

  /**
   The only client declines its address: the next one is offered another, where after a
   RELEASE it is offered the pool's first.
   */
  lemma DeclineMovesOn(c: Config, s: Server, m: Message)
    requires m.cookie && |s.leases| == 1 && s.leases[0].mac == m.mac && !Refused(c, MakeClaim(c, s, m))
    requires AtMost(s.plus, c.end) && s.plus != s.leases[0].ip
    ensures OfType(m, 4) ==> Candidate(c, Handle(c, s, m).0) == s.plus
    ensures OfType(m, 7) ==> Candidate(c, Handle(c, s, m).0) == c.start
  {
    hide OfType, Decide, Decode, Summarize, InsertPos, Skip, Chosen;
    assert FindMac(s.leases, m.mac) == 0;
    var q := MakeClaim(c, s, m);
    SummaryRead(m, q.client);
    assert q.plus == s.plus && q.at == 0 && |q.leases| == 1;
    hide MakeClaim, FindMac, Less;
    Decided(m, q);
    assert OfType(m, 4) || OfType(m, 7) ==> Handle(c, s, m).0.leases == [];
  }

  lemma Decided(m: Message, q: Claim)
    ensures OfType(m, 4) ==> Verdict(q, m) == Decline
    ensures OfType(m, 7) ==> Verdict(q, m) == Release
  {
    hide Decode, Summarize, OfType;
    SummaryRead(m, q.client);
  }
}
