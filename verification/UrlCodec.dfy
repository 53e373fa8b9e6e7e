/**
 Percent-encoding into a bounded buffer (`url_encode`) and the decoder of query values
 (`preprocess_string`), which works in place behind its own read position.
 */
module UrlCodec {
  import opened Words

  const PERCENT: u8 := 37
  const PLUS: u8 := 43
  const SPACE: u8 := 32

  /** Letters, digits and the four marks that are never encoded. */
  predicate Plain(b: u8) {
    65 <= b <= 90 || 97 <= b <= 122 || 48 <= b <= 57 || b == 45 || b == 95 || b == 46 || b == 126
  }

  predicate IsHex(c: u8) {
    48 <= c <= 57 || 65 <= c <= 70 || 97 <= c <= 102
  }

  function HexDigit(n: nat): (c: u8)
    requires n < 16
    ensures IsHex(c) && HexValue(c) == n
  {
    if n < 10 then 48 + n else 55 + n
  }

  function HexValue(c: u8): (n: nat)
    requires IsHex(c)
    ensures n < 16
  {
    if c <= 57 then c - 48 else if c <= 70 then c - 55 else c - 87
  }

  function Escape(b: u8): (r: seq<u8>)
    ensures |r| == if Plain(b) then 1 else 3
  {
    if Plain(b) then [b] else [PERCENT, HexDigit(b / 16), HexDigit(b % 16)]
  }

  /** The whole encoding. */
  function Encode(src: seq<u8>): seq<u8> {
    if src == [] then [] else Escape(src[0]) + Encode(src[1..])
  }

  /** How much of the source fits into `room` characters. */
  function Fits(src: seq<u8>, room: nat): (k: nat)
    ensures k <= |src|
  {
    if src == [] || room < |Escape(src[0])| then 0 else 1 + Fits(src[1..], room - |Escape(src[0])|)
  }

  /** A percent sign and two hexadecimal digits stand at `i`. */
  predicate Escaped(s: seq<u8>, i: nat) {
    i + 2 < |s| && s[i] == PERCENT && IsHex(s[i + 1]) && IsHex(s[i + 2])
  }

  function Byte(hi: u8, lo: u8): (r: u8)
    requires IsHex(hi) && IsHex(lo)
  {
    HexValue(hi) * 16 + HexValue(lo)
  }

  function Decode(s: seq<u8>): (r: seq<u8>)
    ensures |r| <= |s|
  {
    if s == [] then []
    else if Escaped(s, 0) then [Byte(s[1], s[2])] + Decode(s[3..])
    else [if s[0] == PLUS then SPACE else s[0]] + Decode(s[1..])
  }

  lemma ByteOfDigits(b: u8)
    ensures Byte(HexDigit(b / 16), HexDigit(b % 16)) == b
  {
  }

  lemma DecodeEscape(b: u8, rest: seq<u8>)
    ensures Decode(Escape(b) + rest) == [b] + Decode(rest)
  {
    var s := Escape(b) + rest;
    ByteOfDigits(b);
    if Plain(b) {
      assert s[0] == b && s[1..] == rest;
    } else {
      assert s[0] == PERCENT && s[1] == HexDigit(b / 16) && s[2] == HexDigit(b % 16) && s[3..] == rest;
    }
  }

  /** Decoding undoes encoding, for every byte string. */
  lemma {:induction false} DecodeEncode(src: seq<u8>)
    ensures Decode(Encode(src)) == src
  {
    if src != [] {
      DecodeEncode(src[1..]);
      DecodeEscape(src[0], Encode(src[1..]));
      assert src == [src[0]] + src[1..];
    }
  }

  /** A hexadecimal digit in either case. */
  function Digit(n: nat, upper: bool): (c: char)
    requires n < 16
  {
    if upper then "0123456789ABCDEF"[n] else "0123456789abcdef"[n]
  }

  lemma DigitReads(n: nat, upper: bool)
    requires n < 16
    ensures var c: int := Digit(n, upper) as int; c < 0x100 && IsHex(c) && HexValue(c) == n
  {
    assert n < 10 ==> Digit(n, upper) == (48 + n) as char;
    assert n >= 10 && upper ==> Digit(n, upper) == (55 + n) as char;
    assert n >= 10 && !upper ==> Digit(n, upper) == (87 + n) as char;
  }

  lemma UpperDigit(n: nat)
    requires n < 16
    ensures HexDigit(n) == Digit(n, true) as int
  {
  }

  /** A percent sign and two digits, of either case, stand for their byte. */
  lemma DecodeDigits(hi: nat, lo: nat, upperHi: bool, upperLo: bool, rest: seq<u8>)
    requires hi < 16 && lo < 16
    ensures Digit(hi, upperHi) as int < 0x100 && Digit(lo, upperLo) as int < 0x100
    ensures Decode(['%' as int, Digit(hi, upperHi) as int, Digit(lo, upperLo) as int] + rest) == [16 * hi + lo] + Decode(rest)
  {
    DigitReads(hi, upperHi);
    DigitReads(lo, upperLo);
    var s: seq<u8> := ['%' as int, Digit(hi, upperHi) as int, Digit(lo, upperLo) as int] + rest;
    assert s[3..] == rest;
    hide Digit, IsHex, HexValue;
  }

  /** A plus stands for a blank, and any other byte, a percent sign without two digits too, for itself. */
  lemma DecodeOther(b: u8, rest: seq<u8>)
    requires b == '%' as int ==> |rest| < 2 || !IsHex(rest[0]) || !IsHex(rest[1])
    ensures Decode([b] + rest) == [if b == '+' as int then ' ' as int else b] + Decode(rest)
  {
    var s := [b] + rest;
    assert s[1..] == rest;
    assert |rest| >= 2 ==> s[1] == rest[0] && s[2] == rest[1];
    hide IsHex;
  }

  /**
   The bytes that stand for themselves are the unreserved characters of RFC 3986, section 2.3;
   any other is written as a percent sign and two upper-case digits.
   */
  lemma PlainIsUnreserved(b: u8)
    ensures var c := b as char;
      Encode([b]) == [b] <==> 'A' <= c <= 'Z' || 'a' <= c <= 'z' || '0' <= c <= '9' || c in {'-', '.', '_', '~'}
    ensures Encode([b]) == [b] || (|Encode([b])| == 3 && Encode([b])[0] == '%' as int
      && Encode([b])[1] == Digit(b / 16, true) as int && Encode([b])[2] == Digit(b % 16, true) as int)
  {
    UpperDigit(b / 16);
    UpperDigit(b % 16);
    assert Encode([b]) == Escape(b);
  }

  /** What fits is a longest prefix: it fits, the next character does not, and all does if it can. */
  lemma {:induction false} FitsIsLongest(src: seq<u8>, room: nat)
    ensures |Encode(src[..Fits(src, room)])| <= room
    ensures forall j :: Fits(src, room) < j <= |src| ==> |Encode(src[..j])| > room
    ensures Fits(src, room) == |src| <==> |Encode(src)| <= room
  {
    if src != [] {
      var e := |Escape(src[0])|;
      forall j | 0 < j <= |src| ensures |Encode(src[..j])| == e + |Encode(src[1..][..j - 1])| {
        assert src[..j][0] == src[0] && src[..j][1..] == src[1..][..j - 1];
      }
      if room >= e {
        FitsIsLongest(src[1..], room - e);
        hide Escape, Encode;
        assert Fits(src, room) == 1 + Fits(src[1..], room - e);
      }
      assert src[..|src|] == src;
    }
  }

  /**
   What the decoder makes of an encoding cut to a buffer of `size` bytes: the longest prefix
   whose encoding, with the terminator, has room.
   */
  lemma TruncatedRoundTrip(src: seq<u8>, size: nat)
    requires size > 0
    ensures var k := Fits(src, size - 1);
      && Decode(Encode(src[..k])) == src[..k]
      && (k == |src| <==> |Encode(src)| < size)
  {
    DecodeEncode(src[..Fits(src, size - 1)]);
    FitsIsLongest(src, size - 1);
  }

  lemma EncodeHead(src: seq<u8>)
    requires src != []
    ensures Encode(src) == Escape(src[0]) + Encode(src[1..])
  {
  }

  lemma Behind(src: seq<u8>, k: nat)
    requires 0 < k <= |src|
    ensures src[..k][0] == src[0] && src[..k][1..] == src[1..][..k - 1] && src[1..][k - 1..] == src[k..]
  {
  }

  lemma {:induction false} EncodeSnoc(src: seq<u8>, b: u8)
    ensures Encode(src + [b]) == Encode(src) + Escape(b)
  {
    if src == [] {
      assert [b][1..] == [];
    } else {
      assert (src + [b])[1..] == src[1..] + [b] && (src + [b])[0] == src[0];
      EncodeHead(src);
      EncodeHead(src + [b]);
      hide Encode, Escape;
      EncodeSnoc(src[1..], b);
    }
  }

  lemma {:induction false} FitsFrom(src: seq<u8>, room: nat, k: nat)
    requires k <= |src| && |Encode(src[..k])| <= room
    ensures Fits(src, room) == k + Fits(src[k..], room - |Encode(src[..k])|)
  {
    if k == 0 {
      assert src[0..] == src;
    } else {
      hide Encode, Escape;
      Behind(src, k);
      EncodeHead(src[..k]);
      FitsFrom(src[1..], room - |Escape(src[0])|, k - 1);
    }
  }

  lemma EncodeNone(src: seq<u8>)
    ensures Encode(src[..0]) == []
  {
  }

  /** The loop stops where nothing more fits. */
  lemma Stopped(src: seq<u8>, room: nat, k: nat)
    requires k <= |src| && |Encode(src[..k])| <= room
    requires k < |src| ==> |Encode(src[..k])| + |Escape(src[k])| > room
    ensures Fits(src, room) == k
  {
    FitsFrom(src, room, k);
    assert k < |src| ==> src[k..][0] == src[k];
    hide Encode;
  }

  /** `url_encode` of a string (no zero byte in it) into a buffer. */
  method UrlEncode(src: seq<u8>, dst: array<u8>) returns (n: nat)
    requires dst.Length > 0
    modifies dst
    ensures n < dst.Length && dst[n] == 0
    ensures dst[..n] == Encode(src[..Fits(src, dst.Length - 1)])
  {
    hide Encode, Fits;
    var i, k := 0, 0;
    assert Encode(src[..0]) == [] by {
      EncodeNone(src);
    }
    while k < |src| && i < dst.Length - 1
      invariant k <= |src| && i <= dst.Length - 1
      invariant dst[..i] == Encode(src[..k])
    {
      assert src[..k + 1] == src[..k] + [src[k]];
      EncodeSnoc(src[..k], src[k]);
      if Plain(src[k]) {
        dst[i] := src[k];
        i := i + 1;
      } else if i + 3 < dst.Length {
        dst[i], dst[i + 1], dst[i + 2] := PERCENT, HexDigit(src[k] / 16), HexDigit(src[k] % 16);
        i := i + 3;
      } else {
        break;
      }
      k := k + 1;
    }
    Stopped(src, dst.Length - 1, k);
    dst[i] := 0;
    n := i;
  }

  /** `preprocess_string`, on the string of `len` bytes before the terminator. */
  method Preprocess(str: array<u8>, len: nat) returns (n: nat)
    requires len < str.Length && str[len] == 0
    requires forall i :: 0 <= i < len ==> str[i] != 0
    modifies str
    ensures n <= len && str[n] == 0
    ensures str[..n] == Decode(old(str[..len]))
    ensures forall i :: len < i < str.Length ==> str[i] == old(str[i])
  {
    hide Decode, Byte, Escaped, HexValue;
    ghost var s := str[..len];
    var p, q := 0, 0;
    assert s[0..] == s;
    while p < len
      invariant q <= p <= len
      invariant forall i :: p <= i < len ==> str[i] == s[i]
      invariant str[..q] + Decode(s[p..]) == Decode(s)
      invariant forall i :: len < i < str.Length ==> str[i] == old(str[i])
    {
      ghost var done, rest := str[..q], Decode(s[p..]);
      DecodeAt(s, p);
      EscapedIs(s, p);
      var b: u8;
      if str[p] == PERCENT && p + 1 < len && p + 2 < len && IsHex(str[p + 1]) && IsHex(str[p + 2]) {
        b := Byte(str[p + 1], str[p + 2]);
        p := p + 3;
      } else if str[p] == PLUS {
        b := SPACE;
        p := p + 1;
      } else {
        b := str[p];
        p := p + 1;
      }
      assert rest == [b] + Decode(s[p..]);
      Regroup(done, b, Decode(s[p..]));
      str[q] := b;
      q := q + 1;
      assert str[..q] == done + [b];
      hide IsHex;
    }
    DecodeNone(s);
    str[q] := 0;
    n := q;
  }

  lemma DecodeNone(s: seq<u8>)
    ensures Decode(s[|s|..]) == []
  {
  }

  lemma Regroup(a: seq<u8>, b: u8, c: seq<u8>)
    ensures a + ([b] + c) == a + [b] + c
  {
  }

  lemma EscapedIs(s: seq<u8>, p: nat)
    requires p < |s|
    ensures Escaped(s, p) <==> s[p] == PERCENT && p + 2 < |s| && IsHex(s[p + 1]) && IsHex(s[p + 2])
  {
  }

  lemma DecodeAt(s: seq<u8>, p: nat)
    requires p < |s|
    ensures Decode(s[p..]) ==
      if Escaped(s, p) then [Byte(s[p + 1], s[p + 2])] + Decode(s[p + 3..])
      else [if s[p] == PLUS then SPACE else s[p]] + Decode(s[p + 1..])
  {
    var t := s[p..];
    assert t[0] == s[p] && t[1..] == s[p + 1..];
    if Escaped(s, p) {
      assert t[1] == s[p + 1] && t[2] == s[p + 2] && t[3..] == s[p + 3..];
    }
  }
}
