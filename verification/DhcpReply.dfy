/**
 The options of an OFFER or ACK, written in place into the options field of the block that
 held the client's message. The block has a fixed size, and exactly the block is sent.
 */
module DhcpReply {
  import opened Words
  import opened DhcpAddress
  import opened DhcpOptions

  /** `struct dhcps_msg`, and what of it lies before the options after the magic cookie. */
  const MSG_SIZE: int := 548
  const BEFORE_OPTIONS: int := 240

  /** The bytes for options in the block of `malloc_len` bytes that answers a message of `totLen`. */
  function Room(totLen: nat): nat {
    (if MSG_SIZE < totLen then totLen else MSG_SIZE) - BEFORE_OPTIONS
  }

  /** What `add_offer_options` reads: the server's settings at the time of the reply. */
  datatype Settings = Settings(
    server: Ip, mask: Ip, leaseSeconds: u32,
    routerOn: bool, gateway: Ip,
    dnsOn: bool, dnsMain: Ip, dnsBackup: Ip, addDns: bool,
    portal: seq<u8>, portalSet: bool)

  function IpBytes(a: Ip): (r: seq<u8>)
    ensures |r| == 4
  {
     [a.b0, a.b1, a.b2, a.b3]
  }

  /** Big-endian bytes of a 32-bit number. */
  function Big4(n: u32): (r: seq<u8>)
    ensures |r| == 4
  {
    [n / 0x100_0000, n / 0x1_0000 % 0x100, n / 0x100 % 0x100, n % 0x100]
  }

  lemma Big4Reads(n: u32)
    ensures Number(FirstIp(Big4(n))) == n
  {
    var q1 := n / 0x100;
    var q2 := q1 / 0x100;
    assert n / 0x1_0000 == q2;
    assert n / 0x100_0000 == q2 / 0x100;
  }

  /** One byte of `(ip & mask) | ~mask`. */
  function BroadcastByte(ip: u8, mask: u8): u8 {
    (((ip as bv8) & (mask as bv8)) | !(mask as bv8)) as int
  }

  function Broadcast(ip: Ip, mask: Ip): Ip {
    Ip(BroadcastByte(ip.b0, mask.b0), BroadcastByte(ip.b1, mask.b1),
       BroadcastByte(ip.b2, mask.b2), BroadcastByte(ip.b3, mask.b3))
  }

  // ----- the options -----

  function RouterOption(c: Settings): seq<Opt> {
    if c.routerOn && c.gateway != ANY then [Opt(ROUTER, IpBytes(c.gateway))] else []
  }

  function DnsOption(c: Settings): seq<Opt> {
    if c.dnsOn then
      [Opt(DNS_SERVER, IpBytes(c.dnsMain) + if c.dnsBackup != ANY then IpBytes(c.dnsBackup) else [])]
    else if c.addDns then [Opt(DNS_SERVER, IpBytes(c.server))]
    else []
  }

  function FixedOptions(c: Settings, msgType: u8): seq<Opt> {
    [Opt(MSG_TYPE, [msgType]),
     Opt(SUBNET_MASK, IpBytes(c.mask)),
     Opt(LEASE_TIME, Big4(c.leaseSeconds)),
     Opt(SERVER_ID, IpBytes(c.server))]
  }

  /** The options before the portal URI. */
  function FirstOptions(c: Settings, msgType: u8): seq<Opt> {
    FixedOptions(c, msgType) + RouterOption(c) + DnsOption(c)
    + [Opt(BROADCAST_ADDRESS, IpBytes(Broadcast(c.server, c.mask))), Opt(INTERFACE_MTU, [0x05, 0xDC])]
  }

  function PortalOption(c: Settings): seq<Opt> {
    if c.portalSet then [Opt(CAPTIVE_PORTAL, c.portal)] else []
  }

  const LastOptions: seq<Opt> := [Opt(ROUTER_DISCOVERY, [0]), Opt(VENDOR, [1, 4, 0, 0, 0, 2])]

  /** The options an OFFER or ACK promises, in order. */
  function ReplyOptions(c: Settings, msgType: u8): seq<Opt> {
    FirstOptions(c, msgType) + PortalOption(c) + LastOptions
  }

  /** The portal URI's length fits its length byte. */
  predicate PortalFits(c: Settings) {
    c.portalSet ==> |c.portal| < 0x100
  }

  /** The bytes these options take, without the end tag. */
  function ReplySize(c: Settings): nat {
    42 + (if c.routerOn && c.gateway != ANY then 6 else 0)
    + (if c.dnsOn then (if c.dnsBackup != ANY then 10 else 6) else if c.addDns then 6 else 0)
    + (if c.portalSet then 2 + |c.portal| else 0)
  }

  // ----- the bytes written -----

  /** The portal URI, copied whole behind a length byte that keeps only eight bits. */
  function PortalBytes(c: Settings): seq<u8> {
    if c.portalSet then [CAPTIVE_PORTAL, |c.portal| % 0x100] + c.portal else []
  }

  lemma FirstEncodable(c: Settings, msgType: u8)
    ensures Encodable(FirstOptions(c, msgType)) && Encodable(LastOptions)
  {
  }

  /** Everything the writer lays down, end tag included. */
  function Raw(c: Settings, msgType: u8): seq<u8> {
    FirstEncodable(c, msgType);
    Encode(FirstOptions(c, msgType)) + PortalBytes(c) + Encode(LastOptions) + [END]
  }

  /** A field with bytes laid over it from `at` on; what lies past the field's end is not in the block. */
  function Laid(s: seq<u8>, at: nat, b: seq<u8>): (r: seq<u8>)
    ensures |r| == |s|
  {
    seq(|s|, i requires 0 <= i < |s| => if at <= i < at + |b| then b[i - at] else s[i])
  }

  lemma LaidTwice(s: seq<u8>, at: nat, x: seq<u8>, y: seq<u8>)
    ensures Laid(Laid(s, at, x), at + |x|, y) == Laid(s, at, x + y)
  {
  }

  lemma LaidNothing(s: seq<u8>, at: nat)
    ensures Laid(s, at, []) == s
  {
  }

  /** The field the reply is sent from is the front of what was written, and what was there behind it. */
  lemma LaidFront(s: seq<u8>, b: seq<u8>)
    ensures Laid(s, 0, b) == if |b| <= |s| then b + s[|b|..] else b[..|s|]
  {
  }

  lemma {:induction false} EncodeConcat(a: seq<Opt>, b: seq<Opt>)
    requires Encodable(a) && Encodable(b)
    ensures Encodable(a + b) && Encode(a + b) == Encode(a) + Encode(b)
  {
    if a == [] {
      assert a + b == b;
    } else {
      assert (a + b)[1..] == a[1..] + b && (a + b)[0] == a[0];
      EncodeHead(a);
      assert Encodable(a[1..]) && Encodable(a + b);
      EncodeHead(a + b);
      hide Encode, Encodable;
      EncodeConcat(a[1..], b);
      Regroup(Encode([a[0]]), Encode(a[1..]), Encode(b));
    }
  }

  lemma EncodeHead(o: seq<Opt>)
    requires Encodable(o) && o != []
    ensures Encodable([o[0]]) && Encodable(o[1..]) && Encode(o) == Encode([o[0]]) + Encode(o[1..])
  {
    EncodeOne(o[0]);
  }

  lemma Regroup(x: seq<u8>, y: seq<u8>, z: seq<u8>)
    ensures x + (y + z) == x + y + z
  {
  }

  lemma EncodeOne(o: Opt)
    requires Encodable([o])
    ensures Encode([o]) == [o.code, |o.data|] + o.data
  {
    assert Encode([o][1..]) == [];
  }

  // ----- the writer -----

  /** `*optptr++ = x`, for each of some bytes. */
  method Put(field: array<u8>, at: nat, b: seq<u8>) returns (next: nat)
    modifies field
    ensures next == at + |b| && field[..] == Laid(old(field[..]), at, b)
  {
    next := at;
    for k := 0 to |b|
      invariant next == at + k
      invariant forall i :: 0 <= i < field.Length ==>
        field[i] == if at <= i < at + k then b[i - at] else old(field[i])
    {
      if next < field.Length {
        field[next] := b[k];
      }
      next := next + 1;
    }
  }

  /** One option: tag, length byte, data. */
  method PutOption(field: array<u8>, at: nat, code: u8, data: seq<u8>) returns (next: nat)
    requires code != PAD && code != END && |data| < 0x100
    modifies field
    ensures var b := Encode([Opt(code, data)]); next == at + |b| && field[..] == Laid(old(field[..]), at, b)
  {
    EncodeOne(Opt(code, data));
    LaidTwice(field[..], at, [code, |data|], data);
    next := Put(field, at, [code, |data|]);
    next := Put(field, next, data);
  }

  /** The field holds some bytes and then the options `o`, and the writer stands behind them. */
  ghost predicate Wrote(cur: seq<u8>, at: nat, before: seq<u8>, pre: seq<u8>, o: seq<Opt>) {
    Encodable(o) && at == |pre| + |Encode(o)| && cur == Laid(before, 0, pre + Encode(o))
  }

  lemma WroteMore(before: seq<u8>, pre: seq<u8>, o: seq<Opt>, x: Opt)
    requires Encodable(o) && Encodable([x])
    ensures Encodable(o + [x]) && |Encode(o + [x])| == |Encode(o)| + |Encode([x])|
    ensures Laid(Laid(before, 0, pre + Encode(o)), |pre| + |Encode(o)|, Encode([x])) == Laid(before, 0, pre + Encode(o + [x]))
  {
    hide Laid, Encode;
    EncodeConcat(o, [x]);
    LaidTwice(before, 0, pre + Encode(o), Encode([x]));
    Regroup(pre, Encode(o), Encode([x]));
  }

  /** One option more. */
  method Append(field: array<u8>, at: nat, code: u8, data: seq<u8>, ghost before: seq<u8>, ghost pre: seq<u8>, ghost o: seq<Opt>)
    returns (next: nat, ghost p: seq<Opt>)
    requires code != PAD && code != END && |data| < 0x100
    requires Wrote(field[..], at, before, pre, o)
    modifies field
    ensures p == o + [Opt(code, data)] && Wrote(field[..], next, before, pre, p)
  {
    WroteMore(before, pre, o, Opt(code, data));
    next := PutOption(field, at, code, data);
    p := o + [Opt(code, data)];
    hide Laid, Encode;
  }

  method AddRouter(c: Settings, field: array<u8>, at: nat, ghost before: seq<u8>, ghost o: seq<Opt>)
    returns (next: nat, ghost p: seq<Opt>)
    requires Wrote(field[..], at, before, [], o)
    modifies field
    ensures p == o + RouterOption(c) && Wrote(field[..], next, before, [], p)
  {
    hide Wrote, IpBytes;
    next, p := at, o;
    if c.routerOn {
      if c.gateway != ANY {
        next, p := Append(field, next, ROUTER, IpBytes(c.gateway), before, [], p);
      }
    }
  }

  method AddDns(c: Settings, field: array<u8>, at: nat, ghost before: seq<u8>, ghost o: seq<Opt>)
    returns (next: nat, ghost p: seq<Opt>)
    requires Wrote(field[..], at, before, [], o)
    modifies field
    ensures p == o + DnsOption(c) && Wrote(field[..], next, before, [], p)
  {
    hide Wrote, IpBytes;
    next, p := at, o;
    if c.dnsOn {
      var servers := IpBytes(c.dnsMain);
      if c.dnsBackup != ANY {
        servers := servers + IpBytes(c.dnsBackup);
      } else {
        assert servers == servers + [];
      }
      next, p := Append(field, next, DNS_SERVER, servers, before, [], p);
    } else if c.addDns {
      next, p := Append(field, next, DNS_SERVER, IpBytes(c.server), before, [], p);
    }
  }

  method AddFixed(c: Settings, msgType: u8, field: array<u8>) returns (next: nat)
    modifies field
    ensures Wrote(field[..], next, old(field[..]), [], FixedOptions(c, msgType))
  {
    ghost var before := field[..];
    LaidNothing(before, 0);
    assert Wrote(field[..], 0, before, [], []);
    hide Wrote, Big4, IpBytes;
    ghost var o: seq<Opt>;
    next, o := Append(field, 0, MSG_TYPE, [msgType], before, [], []);
    next, o := Append(field, next, SUBNET_MASK, IpBytes(c.mask), before, [], o);
    next, o := Append(field, next, LEASE_TIME, Big4(c.leaseSeconds), before, [], o);
    next, o := Append(field, next, SERVER_ID, IpBytes(c.server), before, [], o);
    assert o == FixedOptions(c, msgType);
  }

  /** `add_msg_type` and `add_offer_options` up to the portal URI. */
  method AddFirstOptions(c: Settings, msgType: u8, field: array<u8>) returns (next: nat)
    modifies field
    ensures Wrote(field[..], next, old(field[..]), [], FirstOptions(c, msgType))
  {
    ghost var before := field[..];
    hide Wrote, RouterOption, DnsOption, Broadcast, IpBytes, FixedOptions;
    next := AddFixed(c, msgType, field);
    ghost var o := FixedOptions(c, msgType);
    next, o := AddRouter(c, field, next, before, o);
    next, o := AddDns(c, field, next, before, o);
    next, o := Append(field, next, BROADCAST_ADDRESS, IpBytes(Broadcast(c.server, c.mask)), before, [], o);
    next, o := Append(field, next, INTERFACE_MTU, [0x05, 0xDC], before, [], o);
    assert o == FirstOptions(c, msgType);
  }

  method AddPortal(c: Settings, field: array<u8>, at: nat) returns (next: nat)
    modifies field
    ensures next == at + |PortalBytes(c)| && field[..] == Laid(old(field[..]), at, PortalBytes(c))
  {
    LaidNothing(field[..], at);
    next := at;
    if c.portalSet {
      LaidTwice(field[..], at, [CAPTIVE_PORTAL, |c.portal| % 0x100], c.portal);
      next := Put(field, at, [CAPTIVE_PORTAL, |c.portal| % 0x100]);
      next := Put(field, next, c.portal);
    }
    hide Laid;
  }

  method AddLastOptions(field: array<u8>, at: nat, ghost before: seq<u8>, ghost pre: seq<u8>) returns (next: nat)
    requires Wrote(field[..], at, before, pre, [])
    modifies field
    ensures Wrote(field[..], next, before, pre, LastOptions)
  {
    hide Wrote;
    ghost var o: seq<Opt>;
    next, o := Append(field, at, ROUTER_DISCOVERY, [0], before, pre, []);
    next, o := Append(field, next, VENDOR, [1, 4, 0, 0, 0, 2], before, pre, o);
    assert o == LastOptions;
  }

  /** The options behind the portal URI, and the end tag. */
  method AddEnd(field: array<u8>, at: nat, ghost before: seq<u8>, ghost pre: seq<u8>) returns (next: nat)
    requires at == |pre| && field[..] == Laid(before, 0, pre)
    modifies field
    ensures var b := pre + Encode(LastOptions) + [END]; next == |b| && field[..] == Laid(before, 0, b)
  {
    NoOptions(field[..], at, before, pre);
    hide Laid, Encode;
    next := AddLastOptions(field, at, before, pre);
    LaidTwice(before, 0, pre + Encode(LastOptions), [END]);
    next := Put(field, next, [END]);
  }

  /** The options of an OFFER or ACK behind the cookie: what the field holds after it, and where the writer ends. */
  method WriteReply(c: Settings, msgType: u8, field: array<u8>) returns (next: nat)
    modifies field
    ensures next == |Raw(c, msgType)|
    ensures field[..] == Field(c, msgType, old(field[..]))
  {
    hide FirstOptions, Encode, Laid, PortalBytes, Raw, Field;
    ghost var before := field[..];
    FirstEncodable(c, msgType);
    FieldIs(c, msgType, before);
    ghost var first := Encode(FirstOptions(c, msgType));
    next := AddFirstOptions(c, msgType, field);
    assert [] + first == first;
    LaidTwice(before, 0, first, PortalBytes(c));
    next := AddPortal(c, field, next);
    next := AddEnd(field, next, before, first + PortalBytes(c));
  }

  lemma FieldIs(c: Settings, msgType: u8, before: seq<u8>)
    ensures Encodable(FirstOptions(c, msgType)) && Encodable(LastOptions)
    ensures Raw(c, msgType) == Encode(FirstOptions(c, msgType)) + PortalBytes(c) + Encode(LastOptions) + [END]
    ensures Field(c, msgType, before) == Laid(before, 0, Raw(c, msgType))
  {
    FirstEncodable(c, msgType);
    hide Encode, Laid, PortalBytes, FirstOptions, Encodable;
  }

  lemma NoOptions(cur: seq<u8>, at: nat, before: seq<u8>, pre: seq<u8>)
    requires at == |pre| && cur == Laid(before, 0, pre)
    ensures Wrote(cur, at, before, pre, [])
  {
    assert pre + Encode([]) == pre;
  }

  // ----- what the client reads -----

  lemma PairSize(x: Opt, y: Opt)
    requires Encodable([x, y])
    ensures |Encode([x, y])| == 4 + |x.data| + |y.data|
  {
    var o := [x, y];
    assert o[0] == x && o[1] == y && o == [x] + [y];
    hide Encode;
    EncodeConcat([x], [y]);
    EncodeOne(x);
    EncodeOne(y);
  }

  lemma FixedSize(c: Settings, msgType: u8)
    ensures Encodable(FixedOptions(c, msgType)) && |Encode(FixedOptions(c, msgType))| == 21
  {
    var o := FixedOptions(c, msgType);
    assert o == [o[0], o[1]] + [o[2], o[3]];
    hide Encode, IpBytes, Big4;
    PairSize(o[0], o[1]);
    PairSize(o[2], o[3]);
    EncodeConcat([o[0], o[1]], [o[2], o[3]]);
  }

  /** The router and name server options together. */
  lemma ServicesSize(c: Settings)
    ensures var o := RouterOption(c) + DnsOption(c);
      Encodable(o) && |Encode(o)| == ReplySize(c) - 42 - |PortalBytes(c)|
  {
    var r, d := RouterOption(c), DnsOption(c);
    assert |Encode(r)| == if r == [] then 0 else 6 by {
      if r != [] {
        EncodeOne(r[0]);
      }
    }
    assert |Encode(d)| == if d == [] then 0 else 2 + |d[0].data| by {
      if d != [] {
        EncodeOne(d[0]);
      }
    }
    hide Encode, IpBytes;
    EncodeConcat(r, d);
  }

  lemma FirstSize(c: Settings, msgType: u8)
    ensures Encodable(FirstOptions(c, msgType))
    ensures |Encode(FirstOptions(c, msgType))| == ReplySize(c) - 11 - |PortalBytes(c)|
  {
    var services := RouterOption(c) + DnsOption(c);
    var last := [Opt(BROADCAST_ADDRESS, IpBytes(Broadcast(c.server, c.mask))), Opt(INTERFACE_MTU, [0x05, 0xDC])];
    assert FirstOptions(c, msgType) == FixedOptions(c, msgType) + services + last;
    FixedSize(c, msgType);
    ServicesSize(c);
    PairSize(last[0], last[1]);
    hide Encode, FixedOptions, RouterOption, DnsOption, ReplySize, PortalBytes, IpBytes, Broadcast;
    EncodeConcat(FixedOptions(c, msgType), services);
    EncodeConcat(FixedOptions(c, msgType) + services, last);
  }

  lemma LastSize()
    ensures Encodable(LastOptions) && |Encode(LastOptions)| == 11
  {
    PairSize(LastOptions[0], LastOptions[1]);
    assert LastOptions == [LastOptions[0], LastOptions[1]];
  }

  /** What the writer lays down has the closed-form size, and is the promised options unless the portal URI is too long. */
  lemma RawIs(c: Settings, msgType: u8)
    ensures |Raw(c, msgType)| == ReplySize(c) + 1
    ensures PortalFits(c) ==> Encodable(ReplyOptions(c, msgType))
    ensures PortalFits(c) ==> Raw(c, msgType) == Encode(ReplyOptions(c, msgType)) + [END]
  {
    FirstSize(c, msgType);
    LastSize();
    if PortalFits(c) {
      PortalIs(c);
      var (a, p) := (FirstOptions(c, msgType), PortalOption(c));
      hide Encode, FirstOptions, PortalOption, PortalBytes, LastOptions, Encodable, ReplySize;
      EncodeConcat(a, p);
      EncodeConcat(a + p, LastOptions);
    }
  }

  lemma PortalIs(c: Settings)
    requires PortalFits(c)
    ensures Encodable(PortalOption(c)) && Encode(PortalOption(c)) == PortalBytes(c)
  {
    if c.portalSet {
      EncodeOne(Opt(CAPTIVE_PORTAL, c.portal));
    }
  }

  /** Reading options that end with their field, or are cut inside it. */
  lemma {:induction false} CutDecodes(o: seq<Opt>, n: nat)
    requires Encodable(o) && n <= |Encode(o)|
    ensures Decode(Encode(o)[..n]) <= o
    ensures Decode(Encode(o)[..n]) == o <==> n == |Encode(o)|
    decreases |o|
  {
    if o != [] {
      var x, tail := o[0], Encode(o[1..]);
      var k := 2 + |x.data|;
      EncodeOne(x);
      assert Encode(o) == Encode([x]) + tail && Encodable([x]) && Encodable(o[1..]);
      hide Encode, Decode, Encodable;
      if n < k {
        CutInside(x, tail, n);
      } else {
        CutBehind(x, tail, n);
        CutDecodes(o[1..], n - k);
        assert o == [x] + o[1..];
      }
    }
  }

  lemma CutInside(x: Opt, tail: seq<u8>, n: nat)
    requires Encodable([x]) && n < 2 + |x.data|
    ensures |Encode([x])| == 2 + |x.data| && Decode((Encode([x]) + tail)[..n]) == []
  {
    assert [x][0] == x;
    EncodeOne(x);
    var e := Encode([x]) + tail;
    assert e[0] == x.code && e[1] == |x.data|;
  }

  lemma CutBehind(x: Opt, tail: seq<u8>, n: nat)
    requires Encodable([x]) && 2 + |x.data| <= n <= 2 + |x.data| + |tail|
    ensures |Encode([x])| == 2 + |x.data|
    ensures Decode((Encode([x]) + tail)[..n]) == [x] + Decode(tail[..n - 2 - |x.data|])
  {
    assert [x][0] == x;
    EncodeOne(x);
    var k := 2 + |x.data|;
    var b := (Encode([x]) + tail)[..n];
    assert b[0] == x.code && b[1] == |x.data|;
    assert b[2..k] == x.data && b[k..] == tail[..n - k];
  }

  /** No bytes decode to a reply whose portal URI has 256 bytes or more. */
  lemma LongPortalUnreadable(c: Settings, msgType: u8, b: seq<u8>)
    requires !PortalFits(c)
    ensures Decode(b) != ReplyOptions(c, msgType)
  {
    if Decode(b) == ReplyOptions(c, msgType) {
      var i := |FirstOptions(c, msgType)|;
      assert ReplyOptions(c, msgType)[i] == Opt(CAPTIVE_PORTAL, c.portal);
      DecodedAreShort(b, i);
      assert false;
    }
  }

  /** The field the reply is sent from, over what the client's message left there. */
  function Field(c: Settings, msgType: u8, before: seq<u8>): (r: seq<u8>)
    ensures |r| == |before|
  {
    Laid(before, 0, Raw(c, msgType))
  }

  /**
   The client reads exactly the promised options if and only if the portal URI is shorter
   than 256 bytes and the options have room in the field.
   */
  lemma ReadableIff(c: Settings, msgType: u8, before: seq<u8>)
    ensures Decode(Field(c, msgType, before)) == ReplyOptions(c, msgType) <==>
      PortalFits(c) && ReplySize(c) <= |before|
  {
    var raw, o := Raw(c, msgType), ReplyOptions(c, msgType);
    RawIs(c, msgType);
    LaidFront(before, raw);
    hide Laid, ReplySize, Raw, ReplyOptions, Decode, Encode, Encodable;
    if !PortalFits(c) {
      LongPortalUnreadable(c, msgType, Field(c, msgType, before));
    } else if |raw| <= |before| {
      DecodeEncode(o, before[|raw|..]);
    } else {
      CutReply(c, msgType, before);
    }
  }

  /** Without room for the end tag the client reads the options up to the cut: all, or fewer than promised. */
  lemma CutReply(c: Settings, msgType: u8, before: seq<u8>)
    requires PortalFits(c) && ReplySize(c) >= |before|
    ensures Decode(Field(c, msgType, before)) <= ReplyOptions(c, msgType)
    ensures Decode(Field(c, msgType, before)) == ReplyOptions(c, msgType) <==> ReplySize(c) == |before|
  {
    var raw, o, n := Raw(c, msgType), ReplyOptions(c, msgType), |before|;
    RawIs(c, msgType);
    LaidFront(before, raw);
    CutDecodes(o, n);
    assert raw[..n] == Encode(o)[..n];
    hide *;
  }

  /** The field carries the promised options and their end tag. */
  ghost predicate Complete(field: seq<u8>, o: seq<Opt>) {
    Encodable(o) && Encode(o) + [END] <= field
  }

  /** The reply is complete if and only if, besides, the end tag has room too. */
  lemma CompleteIff(c: Settings, msgType: u8, before: seq<u8>)
    ensures Complete(Field(c, msgType, before), ReplyOptions(c, msgType)) <==>
      PortalFits(c) && ReplySize(c) < |before|
  {
    var raw, o := Raw(c, msgType), ReplyOptions(c, msgType);
    RawIs(c, msgType);
    LaidFront(before, raw);
    if Complete(Field(c, msgType, before), o) {
      DecodeEncode(o, Field(c, msgType, before)[|Encode(o)| + 1..]);
      assert Encode(o) + [END] + Field(c, msgType, before)[|Encode(o)| + 1..] == Field(c, msgType, before);
      ReadableIff(c, msgType, before);
    }
    hide Laid, ReplySize, Raw, ReplyOptions, Decode, Encode, Encodable;
  }

  /**
   A client message of the usual size, a router, two name servers and a URI of 250 bytes:
   the URI fits its length byte, and the reply is sent cut.
   */
  lemma UriOf250Cut(c: Settings, msgType: u8, totLen: nat, before: seq<u8>)
    requires c.routerOn && c.gateway != ANY && c.dnsOn && c.dnsBackup != ANY
    requires c.portalSet && |c.portal| == 250 && totLen <= MSG_SIZE && |before| == Room(totLen)
    ensures PortalFits(c) && ReplySize(c) == 310 && |before| == 308
    ensures Decode(Field(c, msgType, before)) < ReplyOptions(c, msgType)
  {
    CutReply(c, msgType, before);
    hide Decode, Field, ReplyOptions;
  }
}
