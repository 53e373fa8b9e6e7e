/**
 The two in-place rewrites of `netif_hooks.c`: the TTL override of upstream packets and the
 clamping of the TCP MSS option in SYN packets.
 */
module PacketRewrite {
  import opened Words
  import opened Wrappers
  import opened Checksum
  import opened PacketSum

  const ETH: int := 14

  // ----- the TTL override -----

  predicate Ipv4(s: seq<u8>)
    requires |s| > ETH
  {
    s[12] == 0x08 && s[13] == 0x00 && s[14] / 0x10 == 4
  }

  predicate Overrides(s: seq<u8>, ttl: u8) {
    ttl > 0 && |s| >= ETH + 20 && Ipv4(s)
  }

  /** The frame as it leaves: TTL and protocol share a word, the checksum lies two behind. */
  function TtlSpec(s: seq<u8>, ttl: u8): (r: seq<u8>)
    ensures |r| == |s|
  {
    if Overrides(s, ttl) then Patch(s, 22, 24, ttl, s[23]) else s
  }

  /** `*(uint16_t *)p`. */
  method LoadAt(b: array<u8>, k: nat) returns (x: u16)
    requires k + 2 <= b.Length
    ensures x == Load(b[..], k)
  {
    x := Word(b[k + 1], b[k]);
  }

  method StoreAt(b: array<u8>, k: nat, x: u16)
    requires k + 2 <= b.Length
    modifies b
    ensures b[..] == Store(old(b[..]), k, x)
  {
    b[k] := x % 0x100;
    b[k + 1] := x / 0x100;
  }

  /** The TTL rewrite in `netif_linkoutput_hook`. */
  method OverrideTtl(b: array<u8>, ttl: u8)
    modifies b
    ensures b[..] == TtlSpec(old(b[..]), ttl)
  {
    if ttl > 0 && b.Length >= ETH + 20 {
      if b[12] == 0x08 && b[13] == 0x00 {
        if b[14] / 0x10 == 4 {
          ghost var s := b[..];
          var was := LoadAt(b, 22);
          b[22] := ttl;
          var now := LoadAt(b, 22);
          var chksum := LoadAt(b, 24);
          var updated := UpdateWord(chksum, was, now);
          assert b[..] == s[22 := ttl][23 := s[23]];
          StoreAt(b, 24, updated);
        }
      }
    }
  }

  /** The part of a frame from `from` on, patched, is the patched part. */
  lemma PatchSlice(s: seq<u8>, k: nat, c: nat, hi: u8, lo: u8, from: nat, to: nat)
    requires from <= k && from <= c && k + 2 <= to && c + 2 <= to <= |s|
    ensures Patch(s, k, c, hi, lo)[from..to] == Patch(s[from..to], k - from, c - from, hi, lo)
  {
    var t := s[from..to];
    assert s[k := hi][k + 1 := lo][from..to] == t[k - from := hi][k - from + 1 := lo];
    hide Update;
  }

  /**
   A header (the 20 bytes and any options up to `to`; `extra` is the sum of what lies outside
   the segment) is good after the override exactly when it was good before.
   */
  lemma TtlKeepsChecksum(s: seq<u8>, ttl: u8, to: nat, extra: nat)
    requires ETH + 20 <= to <= |s|
    ensures Good(extra + Sum(TtlSpec(s, ttl)[ETH..to])) <==> Good(extra + Sum(s[ETH..to]))
  {
    if Overrides(s, ttl) {
      var h := s[ETH..to];
      PatchSlice(s, 22, 24, ttl, s[23], ETH, to);
      assert h[0] > 0;
      assert Busy(h, 8, 10);
      hide *;
      PatchEven(h, 8, 10, ttl, s[23], extra);
    }
  }

  /** The override sets the TTL byte and touches nothing but it and the checksum. */
  lemma TtlSets(s: seq<u8>, ttl: u8, i: nat)
    requires Overrides(s, ttl) && i < |s|
    ensures TtlSpec(s, ttl)[22] == ttl
    ensures i != 22 && i != 24 && i != 25 ==> TtlSpec(s, ttl)[i] == s[i]
  {
    PatchWords(s, 22, 24, ttl, s[23]);
    WordInjective(ttl, s[23], TtlSpec(s, ttl)[22], TtlSpec(s, ttl)[23]);
  }

  lemma WordInjective(hi: u8, lo: u8, hi': u8, lo': u8)
    requires Word(hi, lo) == Word(hi', lo')
    ensures hi == hi' && lo == lo'
  {
  }

  // ----- the MSS option -----

  /** Where the value of the first MSS option lies, walking the options from `at` to `end`. */
  function FindMss(s: seq<u8>, at: nat, end: nat): (r: Option<nat>)
    requires at <= end <= |s|
    ensures r.Some? ==> at + 2 <= r.value && r.value + 2 <= end
    decreases end - at
  {
    if at == end || s[at] == 0 then None
    else if s[at] == 1 then FindMss(s, at + 1, end)
    else if at + 1 >= end then None
    else
      var len: nat := s[at + 1];
      if len < 2 || at + len > end then None
      else if s[at] == 2 && len == 4 then Some(at + 2)
      else FindMss(s, at + len, end)
  }

  /** Where the TCP header of a SYN starts and ends, when the frame passes every check. */
  function SynHeader(s: seq<u8>): (r: Option<(nat, nat)>)
    ensures r.Some? ==> ETH <= r.value.0 && r.value.0 + 20 <= r.value.1 <= |s|
    ensures r.Some? ==> r.value.0 % 2 == 0 && s[r.value.0 + 13] / 2 % 2 == 1
  {
    if |s| < ETH + 40 || s[12] != 0x08 || s[13] != 0x00 || s[14] / 0x10 != 4 || s[23] != 6 then None
    else
      var tcp := ETH + s[14] % 0x10 * 4;
      if |s| < tcp + 20 || s[tcp + 13] / 2 % 2 != 1 then None
      else
        var len := s[tcp + 12] / 0x10 * 4;
        if len < 20 || |s| < tcp + len then None else Some((tcp, tcp + len))
  }

  /** The place of the MSS value in a frame, if it is a SYN that carries one. */
  function MssPlace(s: seq<u8>): (r: Option<nat>)
    ensures r.Some? ==> SynHeader(s).Some?
    ensures r.Some? ==> SynHeader(s).value.0 + 22 <= r.value && r.value + 2 <= SynHeader(s).value.1
  {
    match SynHeader(s)
    case None => None
    case Some(h) => FindMss(s, h.0 + 20, h.1)
  }

  predicate Clamps(s: seq<u8>, max: u16) {
    max > 0 && MssPlace(s).Some? && Be(s, MssPlace(s).value) > max
  }

  function ClampSpec(s: seq<u8>, max: u16): (r: seq<u8>)
    ensures |r| == |s|
  {
    if Clamps(s, max) then Patch(s, MssPlace(s).value, SynHeader(s).value.0 + 16, max / 0x100, max % 0x100) else s
  }

  /** The option walk of `clamp_tcp_mss`. */
  method WalkOptions(b: array<u8>, start: nat, end: nat) returns (place: Option<nat>)
    requires start <= end <= b.Length
    ensures place == FindMss(b[..], start, end)
  {
    var opt := start;
    while opt < end
      invariant start <= opt <= end
      invariant FindMss(b[..], opt, end) == FindMss(b[..], start, end)
    {
      var kind := b[opt];
      if kind == 0 {
        return None;
      }
      if kind == 1 {
        opt := opt + 1;
        continue;
      }
      if opt + 1 >= end {
        return None;
      }
      var optLen := b[opt + 1];
      if optLen < 2 || opt + optLen > end {
        return None;
      }
      if kind == 2 && optLen == 4 {
        return Some(opt + 2);
      }
      opt := opt + optLen;
    }
    return None;
  }

  /** The checks `clamp_tcp_mss` makes before it walks the options. */
  method FindSynHeader(b: array<u8>) returns (r: Option<(nat, nat)>)
    ensures r == SynHeader(b[..])
  {
    if b.Length < ETH + 40 {
      return None;
    }
    if b[12] != 0x08 || b[13] != 0x00 {
      return None;
    }
    if b[14] / 0x10 != 4 || b[23] != 6 {
      return None;
    }
    var tcp := ETH + b[14] % 0x10 * 4;
    if b.Length < tcp + 20 || b[tcp + 13] / 2 % 2 != 1 {
      return None;
    }
    var len := b[tcp + 12] / 0x10 * 4;
    if len < 20 || b.Length < tcp + len {
      return None;
    }
    return Some((tcp, tcp + len));
  }

  /** A word replaced in place and the checksum word updated for it. */
  method PatchAt(b: array<u8>, k: nat, c: nat, hi: u8, lo: u8)
    requires k + 2 <= b.Length && c + 2 <= b.Length && Apart(k, c)
    modifies b
    ensures b[..] == Patch(old(b[..]), k, c, hi, lo)
  {
    ghost var s := b[..];
    var was := LoadAt(b, k);
    b[k], b[k + 1] := hi, lo;
    ghost var t: seq<u8> := s[k := hi];
    t := t[k + 1 := lo];
    assert b[..] == t;
    assert Load(t, c) == Load(s, c);
    hide Update;
    var now := LoadAt(b, k);
    var chksum := LoadAt(b, c);
    var updated := UpdateWord(chksum, was, now);
    StoreAt(b, c, updated);
  }

  /** `clamp_tcp_mss`. */
  method ClampTcpMss(b: array<u8>, max: u16)
    modifies b
    ensures b[..] == ClampSpec(old(b[..]), max)
  {
    hide Patch, SynHeader, FindMss;
    if max == 0 {
      return;
    }
    var syn := FindSynHeader(b);
    if syn == None {
      return;
    }
    var (tcp, end) := syn.value;
    var place := WalkOptions(b, tcp + 20, end);
    if place == None {
      return;
    }
    var mss := Word(b[place.value], b[place.value + 1]);
    if mss > max {
      PatchAt(b, place.value, tcp + 16, max / 0x100, max % 0x100);
    }
  }

  // ----- what clamping does -----

  /** After clamping the option stands where it stood and carries the lesser of the two values. */
  lemma ClampSets(s: seq<u8>, max: u16, i: nat)
    requires max > 0 && MssPlace(s).Some? && i < |s|
    ensures var (k, c) := (MssPlace(s).value, SynHeader(s).value.0 + 16);
      && Be(ClampSpec(s, max), k) == (if Be(s, k) <= max then Be(s, k) else max)
      && (!(k <= i < k + 2) && !(c <= i < c + 2) ==> ClampSpec(s, max)[i] == s[i])
  {
    var (k, c) := (MssPlace(s).value, SynHeader(s).value.0 + 16);
    hide Patch, MssPlace, SynHeader, Update;
    if Be(s, k) > max {
      PatchWords(s, k, c, max / 0x100, max % 0x100);
    }
  }

  /** The walk depends only on the bytes it passes, none of which the patch changes. */
  lemma {:induction false} FindMssSame(s: seq<u8>, t: seq<u8>, at: nat, end: nat)
    requires at <= end <= |s| && |t| == |s| && FindMss(s, at, end).Some?
    requires forall i :: at <= i < end && i < FindMss(s, at, end).value ==> t[i] == s[i]
    ensures FindMss(t, at, end) == FindMss(s, at, end)
    decreases end - at
  {
    if at < end && s[at] != 0 {
      if s[at] == 1 {
        FindMssSame(s, t, at + 1, end);
      } else if at + 1 < end {
        var len: nat := s[at + 1];
        if len >= 2 && at + len <= end && !(s[at] == 2 && len == 4) {
          FindMssSame(s, t, at + len, end);
        }
      }
    }
  }

  /** The patch of the option leaves the header's bounds and the walk as they are. */
  lemma ClampKeepsPlace(s: seq<u8>, max: u16)
    ensures MssPlace(ClampSpec(s, max)) == MssPlace(s)
  {
    if Clamps(s, max) {
      var (h, t) := (SynHeader(s).value, ClampSpec(s, max));
      hide Patch, Clamps, ClampSpec, SynHeader, FindMss;
      forall i | 0 <= i < h.0 + 16 || h.0 + 20 <= i < MssPlace(s).value ensures t[i] == s[i] {
        ClampSets(s, max, i);
      }
      SameSyn(s, t);
      FindMssSame(s, t, h.0 + 20, h.1);
    }
  }

  /** The checks before the walk read no byte that clamping writes. */
  lemma SameSyn(s: seq<u8>, t: seq<u8>)
    requires SynHeader(s).Some? && |t| == |s|
    requires forall i :: 0 <= i < SynHeader(s).value.0 + 16 ==> t[i] == s[i]
    ensures SynHeader(t) == SynHeader(s)
  {
  }

  /** Clamping is idempotent: a clamped frame passes unchanged. */
  lemma ClampTwice(s: seq<u8>, max: u16)
    ensures ClampSpec(ClampSpec(s, max), max) == ClampSpec(s, max)
  {
    ClampKeepsPlace(s, max);
    if max > 0 && MssPlace(s).Some? {
      hide MssPlace, SynHeader, Patch;
      ClampSets(s, max, 0);
    }
  }

  /** Clamping as a patch of the segment: its bytes, the option's place in it and the new value. */
  lemma ClampSlice(s: seq<u8>, max: u16, to: nat) returns (t: seq<u8>, k: nat, hi: u8, lo: u8)
    requires Clamps(s, max) && SynHeader(s).value.1 <= to <= |s|
    ensures t == s[SynHeader(s).value.0..to] && k + 2 <= |t| && 22 <= k && Busy(t, k, 16)
    ensures ClampSpec(s, max)[SynHeader(s).value.0..to] == Patch(t, k, 16, hi, lo)
    ensures k % 2 == MssPlace(s).value % 2 && Be(t, k) == Be(s, MssPlace(s).value) && Word(hi, lo) == max
  {
    hide *;
    ClampPlaces(s, max);
    WordParts(max);
    hi, lo := max / 0x100, max % 0x100;
    t, k := PatchedSegment(s, MssPlace(s).value, SynHeader(s).value.0, to, hi, lo);
  }

  lemma PatchedSegment(s: seq<u8>, place: nat, tcp: nat, to: nat, hi: u8, lo: u8) returns (t: seq<u8>, k: nat)
    requires tcp + 22 <= place && place + 2 <= to <= |s| && tcp % 2 == 0 && s[tcp + 13] > 0
    ensures t == s[tcp..to] && k + 2 <= |t| && 22 <= k && Busy(t, k, 16)
    ensures Patch(s, place, tcp + 16, hi, lo)[tcp..to] == Patch(t, k, 16, hi, lo)
    ensures k % 2 == place % 2 && Be(t, k) == Be(s, place)
  {
    hide *;
    t, k := s[tcp..to], place - tcp;
    PatchSlice(s, place, tcp + 16, hi, lo, tcp, to);
    BeSlice(s, place, tcp, to);
    Flagged(t, k);
    Parity(tcp, place);
  }

  lemma Parity(a: nat, b: nat)
    requires a % 2 == 0 && a <= b
    ensures (b - a) % 2 == b % 2
  {
  }

  lemma Flagged(t: seq<u8>, k: nat)
    requires k >= 22 && |t| >= 22 && t[13] > 0
    ensures Busy(t, k, 16)
  {
  }

  lemma ClampPlaces(s: seq<u8>, max: u16)
    requires Clamps(s, max)
    ensures SynHeader(s).Some? && MssPlace(s).Some?
    ensures SynHeader(s).value.0 + 22 <= MssPlace(s).value && MssPlace(s).value + 2 <= SynHeader(s).value.1
    ensures SynHeader(s).value.0 % 2 == 0 && SynHeader(s).value.1 <= |s| && s[SynHeader(s).value.0 + 13] > 0
    ensures ClampSpec(s, max) ==
      Patch(s, MssPlace(s).value, SynHeader(s).value.0 + 16, max / 0x100, max % 0x100)
  {
    hide Patch;
  }

  lemma BeSlice(s: seq<u8>, k: nat, from: nat, to: nat)
    requires from <= k && k + 2 <= to <= |s|
    ensures Be(s[from..to], k - from) == Be(s, k)
  {
  }

  lemma WordParts(x: u16)
    ensures Word(x / 0x100, x % 0x100) == x
  {
  }

  /**
   A SYN's segment (`extra` for the pseudo header and what lies outside the frame's first
   part) stays good exactly when nothing was clamped, the value stands at an even place of
   the header, or 257 divides the change.
   */
  lemma ClampKeepsChecksumIff(s: seq<u8>, max: u16, to: nat, extra: nat)
    requires SynHeader(s).Some? && SynHeader(s).value.1 <= to <= |s|
    requires Good(extra + Sum(s[SynHeader(s).value.0..to]))
    ensures Good(extra + Sum(ClampSpec(s, max)[SynHeader(s).value.0..to])) <==>
      !Clamps(s, max) || MssPlace(s).value % 2 == 0 || (max - Be(s, MssPlace(s).value)) % 257 == 0
  {
    hide *;
    if Clamps(s, max) {
      var t, k, hi, lo := ClampSlice(s, max, to);
      ClampedIff(t, k, hi, lo, extra);
    } else {
      Unclamped(s, max);
    }
  }

  lemma Unclamped(s: seq<u8>, max: u16)
    requires !Clamps(s, max)
    ensures ClampSpec(s, max) == s
  {
  }

  lemma ClampedIff(t: seq<u8>, k: nat, hi: u8, lo: u8, extra: nat)
    requires 22 <= k && k + 2 <= |t| && Busy(t, k, 16) && Good(extra + Sum(t))
    ensures Good(extra + Sum(Patch(t, k, 16, hi, lo))) <==> k % 2 == 0 || (Word(hi, lo) - Be(t, k)) % 257 == 0
  {
    assert Apart(k, 16);
    hide *;
    if k % 2 == 0 {
      PatchEven(t, k, 16, hi, lo, extra);
    } else {
      PatchOdd(t, k, 16, hi, lo, extra);
    }
  }

  /** A SYN whose options are a NOP and an MSS of 1460: the value stands at an odd place. */
  function OddSyn(): (s: seq<u8>)
    ensures |s| == 62
  {
    [0, 0, 0, 0, 0, 0, 0, 0, 0, 0, 0, 0, 0x08, 0x00]
    + [0x45, 0, 0, 48, 0, 0, 0, 0, 64, 6, 0, 0, 10, 0, 0, 1, 10, 0, 0, 2]
    + [0, 80, 0, 80, 0, 0, 0, 0, 0, 0, 0, 0, 0x70, 0x02, 0, 0, 0, 0, 0, 0]
    + [1, 2, 4, 0x05, 0xB4, 0, 0, 0]
  }

  lemma OddSynPlace()
    ensures SynHeader(OddSyn()) == Some((34, 62)) && MssPlace(OddSyn()) == Some(57)
    ensures Be(OddSyn(), 57) == 1460 && |OddSyn()| >= 62 && Clamps(OddSyn(), 1360)
  {
    var s := OddSyn();
    assert s[12] == 0x08 && s[13] == 0x00 && s[14] == 0x45 && s[23] == 6;
    assert s[46] == 0x70 && s[47] == 0x02;
    assert s[54] == 1 && s[55] == 2 && s[56] == 4 && s[57] == 0x05 && s[58] == 0xB4;
    hide OddSyn;
    assert FindMss(s, 55, 62) == Some(57);
    assert FindMss(s, 54, 62) == Some(57);
  }

  /** For any block some sum of the rest makes it good. */
  lemma SomeExtra(n: nat) returns (extra: nat)
    ensures Good(extra + n)
  {
    extra := ONES * (n + 1) - n;
    CongBy(extra + n, 0, n + 1);
    GoodIff(extra + n);
  }

  /** Clamping that SYN to 1360 spoils its checksum: 257 does not divide the change of 100. */
  lemma OddSynBreaks() returns (extra: nat)
    ensures Clamps(OddSyn(), 1360) && Good(extra + Sum(OddSyn()[34..62]))
    ensures !Good(extra + Sum(ClampSpec(OddSyn(), 1360)[34..62]))
  {
    hide *;
    OddSynPlace();
    var s := OddSyn();
    extra := SomeExtra(Sum(s[34..62]));
    ClampKeepsChecksumIff(s, 1360, 62, extra);
  }

  /** Every option list, and what the walk makes of it. */
  datatype Opt = Nop | Opt(kind: u8, data: seq<u8>)

  predicate Proper(o: Opt) {
    o.Opt? ==> o.kind >= 2 && |o.data| <= 253
  }

  function OptBytes(o: Opt): (r: seq<u8>)
    requires Proper(o)
    ensures |r| >= 1
  {
    match o
    case Nop => [1]
    case Opt(kind, data) => [kind, |data| + 2] + data
  }

  ghost predicate AllProper(os: seq<Opt>) {
    forall i :: 0 <= i < |os| ==> Proper(os[i])
  }

  ghost function Flat(os: seq<Opt>): seq<u8>
    requires AllProper(os)
  {
    if os == [] then [] else OptBytes(os[0]) + Flat(os[1..])
  }

  predicate IsMss(o: Opt) { o.Opt? && o.kind == 2 && |o.data| == 2 }

  /** Where the value of the first MSS option of a list lies. */
  ghost function FirstMss(os: seq<Opt>, at: nat): Option<nat>
    requires AllProper(os)
  {
    if os == [] then None
    else if IsMss(os[0]) then Some(at + 2)
    else FirstMss(os[1..], at + |OptBytes(os[0])|)
  }

  lemma Front(s: seq<u8>, at: nat, end: nat, o: seq<u8>, rest: seq<u8>)
    requires at <= end <= |s| && s[at..end] == o + rest
    ensures at + |o| <= end && s[at + |o|..end] == rest
    ensures forall i :: 0 <= i < |o| ==> s[at + i] == o[i]
  {
    var w := s[at..end];
    assert forall i :: 0 <= i < |o| ==> w[i] == o[i];
    assert w[|o|..] == rest;
  }

  /** One option is passed, or it is the MSS option. */
  lemma WalkOne(s: seq<u8>, at: nat, end: nat, o: Opt)
    requires Proper(o) && at + |OptBytes(o)| <= end <= |s|
    requires forall i :: 0 <= i < |OptBytes(o)| ==> s[at + i] == OptBytes(o)[i]
    ensures FindMss(s, at, end) == if IsMss(o) then Some(at + 2) else FindMss(s, at + |OptBytes(o)|, end)
  {
    var b := OptBytes(o);
    assert s[at + 0] == b[0];
    if o.Opt? {
      assert s[at + 1] == b[1] && |b| == |o.data| + 2;
    }
  }

  lemma FlatFirst(os: seq<Opt>, tail: seq<u8>, at: nat)
    requires AllProper(os) && os != []
    ensures Proper(os[0]) && AllProper(os[1..])
    ensures Flat(os) + tail == OptBytes(os[0]) + (Flat(os[1..]) + tail)
    ensures FirstMss(os, at) == if IsMss(os[0]) then Some(at + 2) else FirstMss(os[1..], at + |OptBytes(os[0])|)
  {
  }

  /** The walk finds the first MSS option of any proper option list, whether or not it is ended. */
  lemma {:induction false} WalkFinds(s: seq<u8>, at: nat, end: nat, os: seq<Opt>, tail: seq<u8>)
    requires at <= end <= |s| && AllProper(os)
    requires s[at..end] == Flat(os) + tail && (tail == [] || tail[0] == 0)
    ensures FindMss(s, at, end) == FirstMss(os, at)
    decreases |os|
  {
    hide *;
    if os == [] {
      WalkEnds(s, at, end, os, tail);
    } else {
      FlatFirst(os, tail, at);
      Front(s, at, end, OptBytes(os[0]), Flat(os[1..]) + tail);
      WalkOne(s, at, end, os[0]);
      if !IsMss(os[0]) {
        WalkFinds(s, at + |OptBytes(os[0])|, end, os[1..], tail);
      }
    }
  }

  lemma WalkEnds(s: seq<u8>, at: nat, end: nat, os: seq<Opt>, tail: seq<u8>)
    requires at <= end <= |s| && os == [] && AllProper(os)
    requires s[at..end] == Flat(os) + tail && (tail == [] || tail[0] == 0)
    ensures FindMss(s, at, end) == None == FirstMss(os, at)
  {
    assert tail != [] ==> s[at..end][0] == tail[0];
  }
}
