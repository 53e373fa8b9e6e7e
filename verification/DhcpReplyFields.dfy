/**
 What a client reads in an OFFER or ACK, option by option, in terms of the server's settings.
 */
module DhcpReplyFields {
  import opened Words
  import opened DhcpAddress
  import opened DhcpOptions
  import opened DhcpReply

  /** Exactly one option has that code, and it has that data. */
  ghost predicate Only(opts: seq<Opt>, code: u8, data: seq<u8>) {
    exists i :: 0 <= i < |opts| && opts[i] == Opt(code, data)
      && forall j :: 0 <= j < |opts| && j != i ==> opts[j].code != code
  }

  ghost predicate Lacks(opts: seq<Opt>, code: u8) {
    forall i :: 0 <= i < |opts| ==> opts[i].code != code
  }

  // ----- the order of the options -----

  /** The codes rise and fall, but in this order no code comes twice. */
  function Rank(code: u8): nat {
    match code
    case 53 => 1 case 1 => 2 case 51 => 3 case 54 => 4 case 3 => 5 case 6 => 6
    case 28 => 7 case 26 => 8 case 114 => 9 case 31 => 10 case 43 => 11
    case _ => 0
  }

  ghost predicate Ranked(o: seq<Opt>, low: nat, high: nat) {
    && (forall i :: 0 <= i < |o| ==> low < Rank(o[i].code) <= high)
    && (forall i, j :: 0 <= i < j < |o| ==> Rank(o[i].code) < Rank(o[j].code))
  }

  lemma RankedConcat(a: seq<Opt>, b: seq<Opt>, low: nat, mid: nat, high: nat)
    requires Ranked(a, low, mid) && Ranked(b, mid, high) && low <= mid <= high
    ensures Ranked(a + b, low, high)
  {
    hide Rank;
  }

  lemma OptionsRanked(c: Settings, msgType: u8)
    ensures Ranked(ReplyOptions(c, msgType), 0, 11)
  {
    var last := [Opt(BROADCAST_ADDRESS, IpBytes(Broadcast(c.server, c.mask))), Opt(INTERFACE_MTU, [0x05, 0xDC])];
    var fixed, r, d, p := FixedOptions(c, msgType), RouterOption(c), DnsOption(c), PortalOption(c);
    assert Ranked(fixed, 0, 4) && Ranked(r, 4, 5) && Ranked(d, 5, 6) && Ranked(last, 6, 8);
    assert Ranked(p, 8, 9) && Ranked(LastOptions, 9, 11);
    assert ReplyOptions(c, msgType) == fixed + r + d + last + p + LastOptions;
    hide *;
    RankedConcat(fixed, r, 0, 4, 5);
    RankedConcat(fixed + r, d, 0, 5, 6);
    RankedConcat(fixed + r + d, last, 0, 6, 8);
    RankedConcat(fixed + r + d + last, p, 0, 8, 9);
    RankedConcat(fixed + r + d + last + p, LastOptions, 0, 9, 11);
  }

  lemma Member(o: seq<Opt>, x: Opt, low: nat, high: nat)
    requires Ranked(o, low, high) && x in o
    ensures Only(o, x.code, x.data)
  {
    hide Rank;
    var i :| 0 <= i < |o| && o[i] == x;
    forall j | 0 <= j < |o| && j != i ensures o[j].code != x.code {
      assert j < i ==> Rank(o[j].code) < Rank(o[i].code);
    }
    assert o[i] == Opt(x.code, x.data);
  }

  // ----- what they say -----

  function Bytes(a: Ip): seq<u8> {
    [a.b0, a.b1, a.b2, a.b3]
  }

  lemma Parts(c: Settings, msgType: u8)
    ensures ReplyOptions(c, msgType) == FixedOptions(c, msgType) + RouterOption(c) + DnsOption(c)
      + [Opt(28, IpBytes(Broadcast(c.server, c.mask))), Opt(26, [0x05, 0xDC])] + PortalOption(c) + LastOptions
  {
  }

  /** The options every reply carries. */
  lemma AlwaysSaid(c: Settings, msgType: u8)
    ensures var o := ReplyOptions(c, msgType);
      && Only(o, 53, [msgType])
      && Only(o, 1, Bytes(c.mask))
      && Only(o, 51, Big4(c.leaseSeconds))
      && Only(o, 54, Bytes(c.server))
      && Only(o, 28, Bytes(Broadcast(c.server, c.mask)))
      && Only(o, 26, [1500 / 0x100, 1500 % 0x100])
      && Only(o, 31, [0])
      && Only(o, 43, [1, 4, 0, 0, 0, 2])
  {
    var o := ReplyOptions(c, msgType);
    var f := FixedOptions(c, msgType);
    assert f[0] in f && f[1] in f && f[2] in f && f[3] in f && LastOptions[0] in LastOptions && LastOptions[1] in LastOptions;
    Parts(c, msgType);
    OptionsRanked(c, msgType);
    hide ReplyOptions, Broadcast, Big4, RouterOption, DnsOption, PortalOption, Only, Ranked;
    Member(o, Opt(53, [msgType]), 0, 11);
    Member(o, Opt(1, Bytes(c.mask)), 0, 11);
    Member(o, Opt(51, Big4(c.leaseSeconds)), 0, 11);
    Member(o, Opt(54, Bytes(c.server)), 0, 11);
    Member(o, Opt(28, Bytes(Broadcast(c.server, c.mask))), 0, 11);
    Member(o, Opt(26, [0x05, 0xDC]), 0, 11);
    Member(o, Opt(31, [0]), 0, 11);
    Member(o, Opt(43, [1, 4, 0, 0, 0, 2]), 0, 11);
  }

  /** The options some settings leave out. */
  lemma SometimesSaid(c: Settings, msgType: u8)
    ensures var o := ReplyOptions(c, msgType);
      && (if c.routerOn && c.gateway != ANY then Only(o, 3, Bytes(c.gateway)) else Lacks(o, 3))
      && (if c.dnsOn && c.dnsBackup != ANY then Only(o, 6, Bytes(c.dnsMain) + Bytes(c.dnsBackup))
          else if c.dnsOn then Only(o, 6, Bytes(c.dnsMain))
          else if c.addDns then Only(o, 6, Bytes(c.server))
          else Lacks(o, 6))
      && (if c.portalSet then Only(o, 114, c.portal) else Lacks(o, 114))
  {
    var o := ReplyOptions(c, msgType);
    var r, d, p := RouterOption(c), DnsOption(c), PortalOption(c);
    assert Bytes(c.dnsMain) + [] == Bytes(c.dnsMain);
    assert d == if c.dnsOn && c.dnsBackup != ANY then [Opt(6, Bytes(c.dnsMain) + Bytes(c.dnsBackup))]
      else if c.dnsOn then [Opt(6, Bytes(c.dnsMain))] else if c.addDns then [Opt(6, Bytes(c.server))] else [];
    Absent(c, msgType);
    assert (r != [] ==> r[0] in o) && (d != [] ==> d[0] in o) && (p != [] ==> p[0] in o) by {
      Parts(c, msgType);
      hide ReplyOptions, FixedOptions, RouterOption, DnsOption, PortalOption;
    }
    OptionsRanked(c, msgType);
    hide ReplyOptions, Only, Ranked, Lacks;
    if r != [] {
      Member(o, r[0], 0, 11);
    }
    if d != [] {
      Member(o, d[0], 0, 11);
    }
    if p != [] {
      Member(o, p[0], 0, 11);
    }
  }

  lemma LacksConcat(a: seq<Opt>, b: seq<Opt>, code: u8)
    ensures Lacks(a + b, code) <==> Lacks(a, code) && Lacks(b, code)
  {
    if Lacks(a + b, code) {
      forall i | 0 <= i < |a| ensures a[i].code != code {
        assert (a + b)[i] == a[i];
      }
      forall i | 0 <= i < |b| ensures b[i].code != code {
        assert (a + b)[|a| + i] == b[i];
      }
    }
  }

  lemma Absent(c: Settings, msgType: u8)
    ensures var o := ReplyOptions(c, msgType);
      && (RouterOption(c) == [] ==> Lacks(o, 3))
      && (DnsOption(c) == [] ==> Lacks(o, 6))
      && (PortalOption(c) == [] ==> Lacks(o, 114))
  {
    hide *;
    if RouterOption(c) == [] {
      OneAbsent(c, msgType, 3);
    }
    if DnsOption(c) == [] {
      OneAbsent(c, msgType, 6);
    }
    if PortalOption(c) == [] {
      OneAbsent(c, msgType, 114);
    }
  }

  lemma OneAbsent(c: Settings, msgType: u8, code: u8)
    requires code == 3 || code == 6 || code == 114
    requires code == 3 ==> RouterOption(c) == []
    requires code == 6 ==> DnsOption(c) == []
    requires code == 114 ==> PortalOption(c) == []
    ensures Lacks(ReplyOptions(c, msgType), code)
  {
    var last := [Opt(28, IpBytes(Broadcast(c.server, c.mask))), Opt(26, [0x05, 0xDC])];
    var fixed, r, d, p := FixedOptions(c, msgType), RouterOption(c), DnsOption(c), PortalOption(c);
    assert Lacks(fixed, code) && Lacks(r, code) && Lacks(d, code) && Lacks(last, code) && Lacks(p, code);
    assert Lacks(LastOptions, code);
    Parts(c, msgType);
    hide *;
    LacksConcat(fixed, r, code);
    LacksConcat(fixed + r, d, code);
    LacksConcat(fixed + r + d, last, code);
    LacksConcat(fixed + r + d + last, p, code);
    LacksConcat(fixed + r + d + last + p, LastOptions, code);
  }

  /** The number four big-endian bytes stand for. */
  function Value(d: seq<u8>): int
    requires |d| == 4
  {
    var (a, b, c, d) := (d[0] as int, d[1] as int, d[2] as int, d[3] as int);
    0x100_0000 * a + 0x1_0000 * b + 0x100 * c + d
  }

  lemma Big4Value(n: u32)
    ensures Value(Big4(n)) == n
  {
    var q1 := n / 0x100;
    var q2 := q1 / 0x100;
    assert n / 0x1_0000 == q2;
    assert n / 0x100_0000 == q2 / 0x100;
  }

  /** A byte with the mask's host bits set. */
  function Filled(ip: u8, mask: u8): u8 {
    ((ip as bv8) | !(mask as bv8)) as int
  }

  lemma BroadcastFills(server: Ip, mask: Ip)
    ensures Broadcast(server, mask) == Ip(Filled(server.b0, mask.b0), Filled(server.b1, mask.b1),
                                          Filled(server.b2, mask.b2), Filled(server.b3, mask.b3))
  {
    FillByte(server.b0, mask.b0);
    FillByte(server.b1, mask.b1);
    FillByte(server.b2, mask.b2);
    FillByte(server.b3, mask.b3);
    hide BroadcastByte, Filled;
  }

  lemma FillByte(ip: u8, mask: u8)
    ensures BroadcastByte(ip, mask) == Filled(ip, mask)
  {
    var (x, m) := (ip as bv8, mask as bv8);
    assert (x & m) | !m == x | !m;
  }

  /**
   What the client reads in a reply that fits its block: each option once, with the settings'
   values, and no other router, name server or portal.
   */
  lemma ReplySays(c: Settings, msgType: u8, before: seq<u8>)
    requires PortalFits(c) && ReplySize(c) <= |before|
    ensures var o := Decode(Field(c, msgType, before));
      && Only(o, 53, [msgType])
      && Only(o, 1, Bytes(c.mask))
      && Only(o, 54, Bytes(c.server))
      && Only(o, 28, [Filled(c.server.b0, c.mask.b0), Filled(c.server.b1, c.mask.b1),
                      Filled(c.server.b2, c.mask.b2), Filled(c.server.b3, c.mask.b3)])
      && (exists d: seq<u8> :: |d| == 4 && Only(o, 51, d) && Value(d) == c.leaseSeconds)
      && Only(o, 26, [1500 / 0x100, 1500 % 0x100])
      && (if c.routerOn && c.gateway != ANY then Only(o, 3, Bytes(c.gateway)) else Lacks(o, 3))
      && (if c.dnsOn && c.dnsBackup != ANY then Only(o, 6, Bytes(c.dnsMain) + Bytes(c.dnsBackup))
          else if c.dnsOn then Only(o, 6, Bytes(c.dnsMain))
          else if c.addDns then Only(o, 6, Bytes(c.server))
          else Lacks(o, 6))
      && (if c.portalSet then Only(o, 114, c.portal) else Lacks(o, 114))
  {
    var a := Broadcast(c.server, c.mask);
    assert Bytes(a) == [a.b0, a.b1, a.b2, a.b3];
    hide *;
    ReadableIff(c, msgType, before);
    BroadcastFills(c.server, c.mask);
    AlwaysSaid(c, msgType);
    SometimesSaid(c, msgType);
    Big4Value(c.leaseSeconds);
  }
}
