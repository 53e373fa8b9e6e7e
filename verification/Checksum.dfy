/**
 The Internet checksum (RFC 1071) and its incremental update (RFC 1624, section 3,
 equation 3), as the packet hooks compute it.
 */
module Checksum {
  import opened Words

  const ONES: int := 0xFFFF

  /** Folding carries back in until 16 bits are left. */
  function Fold(s: nat): (r: nat)
    decreases s
  {
    if s < M16 then s else Fold(s % M16 + s / M16)
  }

  /** The fold loop terminates, within 32 bits. */
  method FoldLoop(start: u32) returns (sum: u16)
    ensures sum == Fold(start)
  {
    var s: u32 := start;
    while s >= M16
      invariant Fold(s) == Fold(start)
      decreases s
    {
      s := s % M16 + s / M16;
    }
    sum := s;
  }

  /** Congruence modulo 65535, by a witness. */
  ghost predicate Cong(a: int, b: int) {
    exists k: int :: a - b == ONES * k
  }

  lemma CongBy(a: int, b: int, k: int)
    requires a - b == ONES * k
    ensures Cong(a, b)
  {
  }

  lemma CongTrans(a: int, b: int, c: int)
    requires Cong(a, b) && Cong(b, c)
    ensures Cong(a, c)
  {
    var j: int :| a - b == ONES * j;
    var k: int :| b - c == ONES * k;
    CongBy(a, c, j + k);
  }

  /** A fold is the one number up to 65535 that is congruent and zero only for zero. */
  lemma {:induction false} FoldCong(s: nat)
    ensures Fold(s) < M16 && Cong(Fold(s), s) && (Fold(s) == 0 <==> s == 0)
    decreases s
  {
    if s < M16 {
      CongBy(s, s, 0);
    } else {
      var t := s % M16 + s / M16;
      FoldCong(t);
      CongBy(t, s, -(s / M16));
      CongTrans(Fold(t), t, s);
    }
  }

  lemma Unique(x: nat, y: nat)
    requires x < M16 && y < M16 && Cong(x, y) && (x == 0 <==> y == 0)
    ensures x == y
  {
  }

  lemma FoldIs(s: nat, x: nat)
    requires x < M16 && Cong(s, x) && (x == 0 <==> s == 0)
    ensures Fold(s) == x
  {
    FoldCong(s);
    CongTrans(Fold(s), s, x);
    Unique(Fold(s), x);
  }

  /** The words of a checksummed block, the checksum among them, sum to all ones. */
  ghost predicate Good(sum: nat) {
    Fold(sum) == ONES
  }

  lemma GoodIff(sum: nat)
    ensures Good(sum) <==> sum > 0 && Cong(sum, 0)
  {
    FoldCong(sum);
    if Good(sum) {
      var k: int :| Fold(sum) - sum == ONES * k;
      CongBy(sum, 0, 1 - k);
    } else if sum > 0 && Cong(sum, 0) {
      var k: int :| sum - 0 == ONES * k;
      CongBy(sum, ONES, k - 1);
      FoldIs(sum, ONES);
    }
  }

  /** `~(~hc + ~m + m')`, folded. */
  function Update(hc: u16, m: u16, m': u16): (r: int) {
    ONES - Fold(ONES - hc + (ONES - m) + m')
  }

  method UpdateWord(hc: u16, old_: u16, new_: u16) returns (r: u16)
    ensures r == Update(hc, old_, new_)
  {
    var sum: u32 := ONES - hc;
    sum := sum + (ONES - old_);
    sum := sum + new_;
    var f := FoldLoop(sum);
    r := ONES - f;
  }

  /** The update keeps the sum of the block modulo 65535. */
  lemma UpdateKeepsSum(rest: nat, hc: u16, m: u16, m': u16)
    ensures 0 <= Update(hc, m, m') <= ONES
    ensures Cong(rest + m' + Update(hc, m, m'), rest + m + hc)
  {
    var s := ONES - hc + (ONES - m) + m';
    FoldCong(s);
    var k: int :| Fold(s) - s == ONES * k;
    CongBy(rest + m' + Update(hc, m, m'), rest + m + hc, -1 - k);
  }

  /**
   With any nonzero word beside the two, the block is good after the update exactly when it
   was good before.
   */
  lemma UpdateKeepsGood(rest: nat, hc: u16, m: u16, m': u16)
    requires rest > 0
    ensures 0 <= Update(hc, m, m') <= ONES
    ensures Good(rest + m' + Update(hc, m, m')) <==> Good(rest + m + hc)
  {
    UpdateKeepsSum(rest, hc, m, m');
    SameGood(rest + m' + Update(hc, m, m'), rest + m + hc);
  }

  lemma SameGood(a: nat, b: nat)
    requires a > 0 && b > 0 && Cong(a, b)
    ensures Good(a) <==> Good(b)
  {
    GoodIff(a);
    GoodIff(b);
    var k: int :| a - b == ONES * k;
    CongBy(b, a, -k);
    if Cong(a, 0) {
      CongTrans(b, a, 0);
    }
    if Cong(b, 0) {
      CongTrans(a, b, 0);
    }
  }

  /** Over every block: a good one stays good except when nothing but zeros would be left. */
  lemma UpdateGoodIff(rest: nat, hc: u16, m: u16, m': u16)
    requires Good(rest + m + hc)
    ensures 0 <= Update(hc, m, m') <= ONES
    ensures Good(rest + m' + Update(hc, m, m')) <==> !(rest == 0 && m' == 0 && hc + m == ONES)
  {
    UpdateKeepsSum(rest, hc, m, m');
    var s' := rest + m' + Update(hc, m, m');
    GoodIff(s');
    GoodIff(rest + m + hc);
    CongTrans(s', rest + m + hc, 0);
    var s := ONES - hc + (ONES - m) + m';
    FoldCong(s);
    if rest == 0 && m' == 0 {
      if hc + m == ONES {
        assert s == ONES;
      } else {
        var k: int :| m + hc - 0 == ONES * k;
        assert s == 0;
      }
    }
  }

  // ----- byte order -----

  /** The two bytes of a word exchanged: the word as a host of the other byte order loads it. */
  function Swap(x: u16): (r: u16) {
    x % 0x100 * 0x100 + x / 0x100
  }

  lemma SwapIs(x: u16)
    ensures Swap(x) == 0x100 * x - ONES * (x / 0x100)
  {
  }

  lemma SwapZero(x: u16)
    ensures Swap(x) == 0 <==> x == 0
    ensures Swap(ONES - x) == ONES - Swap(x)
  {
  }

  lemma SwappedSum(hc: u16, m: u16, m': u16)
    ensures Cong(ONES - Swap(hc) + (ONES - Swap(m)) + Swap(m'), 0x100 * (ONES - hc + (ONES - m) + m'))
  {
    SwapIs(hc);
    SwapIs(m);
    SwapIs(m');
    var s := ONES - hc + (ONES - m) + m';
    var t := ONES - Swap(hc) + (ONES - Swap(m)) + Swap(m');
    var (i, j, k) := (hc / 0x100, m / 0x100, m' / 0x100);
    hide Swap;
    CongBy(t, 0x100 * s, i + j - k - 510);
  }

  /** Loading, updating and storing in either byte order writes the same two bytes. */
  lemma UpdateSwaps(hc: u16, m: u16, m': u16)
    ensures 0 <= Update(hc, m, m') <= ONES
    ensures Update(Swap(hc), Swap(m), Swap(m')) == Swap(Update(hc, m, m'))
  {
    var s := ONES - hc + (ONES - m) + m';
    var t := ONES - Swap(hc) + (ONES - Swap(m)) + Swap(m');
    hide Swap, Fold, Cong;
    FoldCong(s);
    SwapZero(hc);
    SwapZero(ONES - hc);
    SwapZero(m);
    SwapZero(ONES - m);
    SwapZero(m');
    SwapZero(Fold(s));
    SwappedSum(hc, m, m');
    assert t == 0 <==> s == 0;
    SwapsBack(s, t);
    assert Fold(t) == Swap(Fold(s));
  }

  lemma SwapsBack(s: nat, t: nat)
    requires Cong(t, 0x100 * s) && (t == 0 <==> s == 0)
    ensures 0 <= Fold(s) < M16 && Fold(t) == Swap(Fold(s))
  {
    FoldCong(s);
    SwapZero(Fold(s));
    var f: int :| Fold(s) - s == ONES * f;
    CongBy(0x100 * s, 0x100 * Fold(s), -0x100 * f);
    SwapIs(Fold(s));
    CongBy(0x100 * Fold(s), Swap(Fold(s)), Fold(s) / 0x100);
    CongTrans(t, 0x100 * s, 0x100 * Fold(s));
    CongTrans(t, 0x100 * Fold(s), Swap(Fold(s)));
    FoldIs(t, Swap(Fold(s)));
  }
}
