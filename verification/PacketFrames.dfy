/**
 Which frames the two rewrites change: every IPv4 frame, however long its header, has its
 TTL set; every TCP segment with the SYN flag, whatever its other flags and options, has the
 first MSS option clamped; and no other frame is touched.
 */
module PacketFrames {
  import opened Words
  import opened Wrappers
  import opened PacketSum
  import opened PacketRewrite

  // ----- the TCP flags -----

  datatype Flags = Flags(fin: bool, syn: bool, rst: bool, psh: bool, ack: bool, urg: bool, ece: bool, cwr: bool)

  function Bit(b: bool): (r: u8)
    ensures r <= 1
  {
    if b then 1 else 0
  }

  function FlagByte(f: Flags): u8 {
    var (fin, syn, rst, psh) := (Bit(f.fin) as int, Bit(f.syn) as int, Bit(f.rst) as int, Bit(f.psh) as int);
    var (ack, urg, ece, cwr) := (Bit(f.ack) as int, Bit(f.urg) as int, Bit(f.ece) as int, Bit(f.cwr) as int);
    fin + 2 * syn + 4 * rst + 8 * psh + 16 * ack + 32 * urg + 64 * ece + 128 * cwr
  }

  /** The higher flags, without the lowest two. */
  function Upper(f: Flags): nat {
    var (rst, psh, ack) := (Bit(f.rst) as int, Bit(f.psh) as int, Bit(f.ack) as int);
    var (urg, ece, cwr) := (Bit(f.urg) as int, Bit(f.ece) as int, Bit(f.cwr) as int);
    rst + 2 * psh + 4 * ack + 8 * urg + 16 * ece + 32 * cwr
  }

  lemma SynBit(f: Flags)
    ensures FlagByte(f) / 2 % 2 == 1 <==> f.syn
  {
    assert FlagByte(f) == Bit(f.fin) as int + 2 * (Bit(f.syn) as int) + 4 * Upper(f);
    assert Bit(f.syn) == 1 <==> f.syn;
    hide FlagByte, Upper, Bit;
    Second(FlagByte(f), Bit(f.fin), Bit(f.syn), Upper(f));
  }

  lemma Second(b: nat, low: nat, second: nat, high: nat)
    requires low <= 1 && second <= 1 && b == low + 2 * second + 4 * high
    ensures b / 2 % 2 == second
  {
    assert b / 2 == second + 2 * high;
  }

  /** Every byte is that of some flags. */
  lemma EveryFlagByte(b: u8) returns (f: Flags)
    ensures FlagByte(f) == b
  {
    var (b1, b2, b3) := (b / 2, b / 4, b / 8);
    var (b4, b5, b6, b7) := (b / 16, b / 32, b / 64, b / 128);
    f := Flags(b % 2 == 1, b1 % 2 == 1, b2 % 2 == 1, b3 % 2 == 1, b4 % 2 == 1, b5 % 2 == 1, b6 % 2 == 1, b7 == 1);
    Halves(b);
    hide FlagByte;
    FlagSum(f, b, b1, b2, b3, b4, b5, b6, b7);
  }

  lemma FlagSum(f: Flags, b: nat, b1: nat, b2: nat, b3: nat, b4: nat, b5: nat, b6: nat, b7: nat)
    requires Bit(f.fin) == b - 2 * b1 && Bit(f.syn) == b1 - 2 * b2 && Bit(f.rst) == b2 - 2 * b3
    requires Bit(f.psh) == b3 - 2 * b4 && Bit(f.ack) == b4 - 2 * b5 && Bit(f.urg) == b5 - 2 * b6
    requires Bit(f.ece) == b6 - 2 * b7 && Bit(f.cwr) == b7
    ensures FlagByte(f) == b
  {
    hide Bit;
  }

  lemma Halves(b: u8)
    ensures b / 2 / 2 == b / 4 && b / 4 / 2 == b / 8 && b / 8 / 2 == b / 16
    ensures b / 16 / 2 == b / 32 && b / 32 / 2 == b / 64 && b / 64 / 2 == b / 128 && b / 128 <= 1
  {
  }

  // ----- composed frames -----

  /** A 14-byte Ethernet header of type IPv4, and an IPv4 header of five to fifteen words. */
  predicate Ipv4Headers(eth: seq<u8>, ip: seq<u8>) {
    && |eth| == 14 && eth[12] == 0x08 && eth[13] == 0x00
    && |ip| % 4 == 0 && 20 <= |ip| <= 60 && ip[0] == 0x40 + |ip| / 4
  }

  /** The fixed part of a TCP header in front of so many bytes of options. */
  predicate TcpHeader(tcp: seq<u8>, options: nat, f: Flags) {
    |tcp| == 20 && options % 4 == 0 && options <= 40 && tcp[12] / 0x10 == 5 + options / 4 && tcp[13] == FlagByte(f)
  }

  /** The checks made before the options find the segment of a composed frame exactly if it is a SYN. */
  lemma ComposedSyn(eth: seq<u8>, ip: seq<u8>, tcp: seq<u8>, options: seq<u8>, rest: seq<u8>, f: Flags)
    requires Ipv4Headers(eth, ip) && ip[9] == 6 && TcpHeader(tcp, |options|, f)
    ensures var s, at := eth + ip + tcp + options + rest, 14 + |ip|;
      && SynHeader(s) == (if f.syn then Some((at, at + 20 + |options|)) else None)
      && s[at + 20..at + 20 + |options|] == options
  {
    var s, at := eth + ip + tcp + options + rest, 14 + |ip|;
    assert s[12] == eth[12] && s[13] == eth[13] && s[14] == ip[0] && s[23] == ip[9];
    assert s[at + 12] == tcp[12] && s[at + 13] == tcp[13];
    SynHeaderOf(s, at, |options|, f);
    hide SynHeader, FlagByte;
  }

  lemma SynHeaderOf(s: seq<u8>, at: nat, options: nat, f: Flags)
    requires 34 <= at <= 74 && at % 4 == 2 && at + 20 + options <= |s| && options % 4 == 0
    requires s[12] == 0x08 && s[13] == 0x00 && s[14] == 0x40 + (at - 14) / 4 && s[23] == 6
    requires s[at + 12] / 0x10 == 5 + options / 4 && s[at + 13] == FlagByte(f)
    ensures var end: nat := at + 20 + options; SynHeader(s) == if f.syn then Some((at, end)) else None
  {
    hide FlagByte;
    SynBit(f);
  }

  /**
   Any segment of any option list: its first MSS option carries the lesser of its value and
   the limit if it is a SYN, and nothing else but the checksum differs.
   */
  lemma ComposedClamped(eth: seq<u8>, ip: seq<u8>, tcp: seq<u8>, os: seq<Opt>, tail: seq<u8>, rest: seq<u8>,
                        f: Flags, max: u16, i: nat)
    requires AllProper(os) && (tail == [] || tail[0] == 0)
    requires Ipv4Headers(eth, ip) && ip[9] == 6 && TcpHeader(tcp, |Flat(os) + tail|, f)
    requires max > 0 && i < |eth + ip + tcp + (Flat(os) + tail) + rest|
    ensures var s, at := eth + ip + tcp + (Flat(os) + tail) + rest, 14 + |ip|;
      var t := ClampSpec(s, max);
      match FirstMss(os, at + 20)
      case Some(k) =>
        if f.syn then
          && k + 2 <= |s|
          && Be(t, k) == (if Be(s, k) <= max then Be(s, k) else max)
          && (!(k <= i < k + 2) && !(at + 16 <= i < at + 18) ==> t[i] == s[i])
        else t == s
      case None => t == s
  {
    hide *;
    var options := Flat(os) + tail;
    var s, at := eth + ip + tcp + options + rest, 14 + |ip|;
    ComposedSyn(eth, ip, tcp, options, rest, f);
    Bounds(eth, ip, tcp, |options|, f);
    if f.syn {
      WalkFinds(s, at + 20, at + 20 + |options|, os, tail);
      PlaceIs(s, at, at + 20 + |options|);
      if MssPlace(s).Some? {
        ClampSets(s, max, i);
      }
    }
    NoPlace(s, max);
  }

  lemma Bounds(eth: seq<u8>, ip: seq<u8>, tcp: seq<u8>, options: nat, f: Flags)
    requires Ipv4Headers(eth, ip) && TcpHeader(tcp, options, f)
    ensures |eth| == 14 && |tcp| == 20
  {
  }

  lemma PlaceIs(s: seq<u8>, at: nat, end: nat)
    requires SynHeader(s) == Some((at, end))
    ensures at + 20 <= end <= |s| && MssPlace(s) == FindMss(s, at + 20, end)
  {
    hide FindMss;
  }

  lemma NoPlace(s: seq<u8>, max: u16)
    ensures SynHeader(s) == None ==> MssPlace(s) == None
    ensures MssPlace(s) == None ==> ClampSpec(s, max) == s
  {
    hide SynHeader, FindMss, Patch;
  }

  // ----- the frames that are changed -----

  /** The checks before the options, on the frame's bytes. */
  predicate SegmentAt(s: seq<u8>, tcp: nat, end: nat, f: Flags) {
    && |s| >= 54 && s[12] == 0x08 && s[13] == 0x00 && s[23] == 6
    && 14 <= tcp <= 74 && (tcp - 14) % 4 == 0 && s[14] == 0x40 + (tcp - 14) / 4
    && tcp + 20 <= end <= |s|
    && s[tcp + 13] == FlagByte(f) && s[tcp + 12] / 0x10 * 4 == end - tcp
  }

  lemma SynHeaderIff(s: seq<u8>, tcp: nat, end: nat)
    ensures SynHeader(s) == Some((tcp, end)) <==> exists f: Flags :: SegmentAt(s, tcp, end, f) && f.syn
  {
    if SynHeader(s) == Some((tcp, end)) {
      hide FlagByte;
      var f := EveryFlagByte(s[tcp + 13]);
      SynBit(f);
      assert SegmentAt(s, tcp, end, f) && f.syn;
    }
    if f: Flags :| SegmentAt(s, tcp, end, f) && f.syn {
      hide FlagByte;
      SynBit(f);
    }
  }

  ghost predicate NoMss(os: seq<Opt>) {
    forall i :: 0 <= i < |os| ==> !IsMss(os[i])
  }

  /** Behind proper options, none of them the MSS option, stand its two leading bytes, and room for its value. */
  ghost predicate Opens(s: seq<u8>, at: nat, end: nat, k: nat, os: seq<Opt>) {
    && AllProper(os) && NoMss(os)
    && at + |Flat(os)| + 2 == k && k + 2 <= end <= |s|
    && s[at..k] == Flat(os) + [2, 4]
  }

  lemma FlatCons(o: Opt, os: seq<Opt>)
    requires Proper(o) && AllProper(os)
    ensures AllProper([o] + os) && Flat([o] + os) == OptBytes(o) + Flat(os)
    ensures NoMss([o] + os) <==> !IsMss(o) && NoMss(os)
  {
    var all := [o] + os;
    assert all[1..] == os && all[0] == o;
    forall i | 0 <= i < |os| ensures all[i + 1] == os[i] {
    }
    if NoMss(all) {
      forall i | 0 <= i < |os| ensures !IsMss(os[i]) {
        assert all[i + 1] == os[i];
      }
    }
    hide Flat, OptBytes, IsMss, Proper;
    FlatHead(all);
  }

  lemma FlatHead(os: seq<Opt>)
    requires AllProper(os) && os != []
    ensures Proper(os[0]) && AllProper(os[1..]) && Flat(os) == OptBytes(os[0]) + Flat(os[1..])
  {
  }

  lemma {:induction false} FoundOpens(s: seq<u8>, at: nat, end: nat) returns (os: seq<Opt>)
    requires at <= end <= |s| && FindMss(s, at, end).Some?
    ensures Opens(s, at, end, FindMss(s, at, end).value, os)
    decreases end - at
  {
    var k := FindMss(s, at, end).value;
    var o, next := FirstOpt(s, at, end);
    if IsMss(o) {
      os := [];
      assert s[at..at + 2] == [2, 4] && Flat([]) == [];
    } else {
      hide FindMss, OptBytes, IsMss, Opens;
      var more := FoundOpens(s, next, end);
      os := [o] + more;
      OpensCons(s, at, next, end, k, o, more);
    }
  }

  lemma OpensCons(s: seq<u8>, at: nat, next: nat, end: nat, k: nat, o: Opt, more: seq<Opt>)
    requires Proper(o) && !IsMss(o) && at <= next <= |s| && s[at..next] == OptBytes(o) && Opens(s, next, end, k, more)
    ensures Opens(s, at, end, k, [o] + more)
  {
    hide OptBytes, Flat, IsMss, AllProper, NoMss;
    FlatCons(o, more);
    assert |OptBytes(o)| == next - at;
    assert s[at..k] == s[at..next] + s[next..k];
    assert OptBytes(o) + Flat(more) + [2, 4] == OptBytes(o) + (Flat(more) + [2, 4]);
  }

  /** The option the walk stands at: it is the MSS option, or it is passed. */
  lemma FirstOpt(s: seq<u8>, at: nat, end: nat) returns (o: Opt, next: nat)
    requires at <= end <= |s| && FindMss(s, at, end).Some?
    ensures Proper(o) && at < next <= end && s[at..next] == OptBytes(o)
    ensures IsMss(o) ==> FindMss(s, at, end) == Some(at + 2) && at + 4 <= end && s[at] == 2 && s[at + 1] == 4
    ensures !IsMss(o) ==> FindMss(s, at, end) == FindMss(s, next, end)
  {
    if s[at] == 1 {
      o, next := Nop, at + 1;
    } else {
      next := at + s[at + 1];
      o := Opt.Opt(s[at], s[at + 2..next]);
      assert s[at..next] == [s[at], s[at + 1]] + s[at + 2..next];
    }
  }

  lemma {:induction false} OpensFound(s: seq<u8>, at: nat, end: nat, k: nat, os: seq<Opt>)
    requires Opens(s, at, end, k, os)
    ensures at <= end && FindMss(s, at, end) == Some(k)
    decreases |os|
  {
    if os == [] {
      assert s[at..k][0] == s[at] && s[at..k][1] == s[at + 1];
    } else {
      OpensRest(s, at, end, k, os);
      hide FindMss, Opens, OptBytes;
      OpensFound(s, at + |OptBytes(os[0])|, end, k, os[1..]);
      WalkOne(s, at, end, os[0]);
    }
  }

  lemma OpensRest(s: seq<u8>, at: nat, end: nat, k: nat, os: seq<Opt>)
    requires Opens(s, at, end, k, os) && os != []
    ensures Proper(os[0]) && !IsMss(os[0])
    ensures var n := |OptBytes(os[0])|; at + n <= end <= |s| && Opens(s, at + n, end, k, os[1..])
    ensures forall i :: 0 <= i < |OptBytes(os[0])| ==> s[at + i] == OptBytes(os[0])[i]
  {
    hide IsMss, Flat, AllProper, NoMss, OptBytes;
    FlatHead(os);
    NoMssHead(os);
    var b := OptBytes(os[0]);
    assert Flat(os) + [2, 4] == b + (Flat(os[1..]) + [2, 4]);
    Passed(s, at, end, k, b, Flat(os[1..]) + [2, 4]);
  }

  lemma NoMssHead(os: seq<Opt>)
    requires NoMss(os) && os != []
    ensures !IsMss(os[0]) && NoMss(os[1..])
  {
    hide IsMss;
  }

  lemma Passed(s: seq<u8>, at: nat, end: nat, k: nat, b: seq<u8>, more: seq<u8>)
    requires at <= k <= end <= |s| && s[at..k] == b + more
    ensures at + |b| <= k && s[at + |b|..k] == more
    ensures forall i :: 0 <= i < |b| ==> s[at + i] == b[i]
  {
    var w := s[at..k];
    assert w[|b|..] == more;
    assert forall i :: 0 <= i < |b| ==> w[i] == b[i];
  }

  /** The walk finds the value at `k` if and only if proper options, none of them MSS, and the MSS option's first bytes lie before it. */
  lemma FindMssIff(s: seq<u8>, at: nat, end: nat, k: nat)
    requires at <= end <= |s|
    ensures FindMss(s, at, end) == Some(k) <==> exists os: seq<Opt> :: Opens(s, at, end, k, os)
  {
    hide FindMss, Opens;
    if FindMss(s, at, end) == Some(k) {
      var os := FoundOpens(s, at, end);
    }
    if os: seq<Opt> :| Opens(s, at, end, k, os) {
      OpensFound(s, at, end, k, os);
    }
  }

  /** The segment is a SYN, and the value of its first MSS option lies at `k`. */
  ghost predicate Offers(s: seq<u8>, tcp: nat, end: nat, f: Flags, os: seq<Opt>, k: nat) {
    SegmentAt(s, tcp, end, f) && f.syn && Opens(s, tcp + 20, end, k, os)
  }

  ghost predicate ValueAt(s: seq<u8>, k: nat) {
    exists tcp: nat, end: nat, f: Flags, os: seq<Opt> :: Offers(s, tcp, end, f, os, k)
  }

  lemma MssPlaceIff(s: seq<u8>, k: nat)
    ensures MssPlace(s) == Some(k) <==> ValueAt(s, k)
  {
    hide FindMss, SynHeader, SegmentAt, Opens;
    if MssPlace(s) == Some(k) {
      var (tcp, end) := SynHeader(s).value;
      SynHeaderIff(s, tcp, end);
      FindMssIff(s, tcp + 20, end, k);
      var f: Flags :| SegmentAt(s, tcp, end, f) && f.syn;
      var os: seq<Opt> :| Opens(s, tcp + 20, end, k, os);
      assert Offers(s, tcp, end, f, os, k);
    }
    if tcp: nat, end: nat, f: Flags, os: seq<Opt> :| Offers(s, tcp, end, f, os, k) {
      SynHeaderIff(s, tcp, end);
      FindMssIff(s, tcp + 20, end, k);
    }
  }

  /** A frame is changed if and only if it is a SYN whose first MSS option says more than the limit. */
  lemma ClampChangesIff(s: seq<u8>, max: u16)
    ensures ClampSpec(s, max) != s <==> max > 0 && exists k: nat :: ValueAt(s, k) && k + 2 <= |s| && Be(s, k) > max
  {
    hide SynHeader, MssPlace, ValueAt, Patch;
    if ClampSpec(s, max) != s {
      MssPlaceIff(s, MssPlace(s).value);
    }
    if k: nat :| max > 0 && ValueAt(s, k) && k + 2 <= |s| && Be(s, k) > max {
      MssPlaceIff(s, k);
      ClampSets(s, max, 0);
    }
  }

  // ----- the TTL -----

  /** Any IPv4 frame, however long its header, leaves with the TTL set, and nothing else but the checksum differs. */
  lemma ComposedTtl(eth: seq<u8>, ip: seq<u8>, rest: seq<u8>, ttl: u8, i: nat)
    requires Ipv4Headers(eth, ip) && ttl > 0 && i < |eth + ip + rest|
    ensures var s := eth + ip + rest;
      var t := TtlSpec(s, ttl);
      t[22] == ttl && (i != 22 && i != 24 && i != 25 ==> t[i] == s[i])
  {
    var s := eth + ip + rest;
    assert s[12] == eth[12] && s[13] == eth[13] && s[14] == ip[0];
    hide TtlSpec;
    TtlSets(s, ttl, i);
  }

  /** A frame is changed only if it is long enough, of type IPv4 and of version 4, and the override is on. */
  lemma TtlChangesOnly(s: seq<u8>, ttl: u8)
    ensures TtlSpec(s, ttl) != s ==>
      ttl > 0 && |s| >= 34 && s[12] == 0x08 && s[13] == 0x00 && 0x40 <= s[14] < 0x50
  {
    hide Patch;
  }
}
