/**
 Checksums over bytes in place: the one's complement sum of a block, and what replacing one
 word and updating the checksum word does to it.
 */
module PacketSum {
  import opened Words
  import opened Checksum

  /** A byte's share of the sum: the high byte of its word at an even place, the low at an odd. */
  function Weigh(i: nat, b: u8): nat {
    if i % 2 == 0 then 0x100 * b else b
  }

  /** The sum of a block's 16-bit words in network order, an odd last byte padded with zero. */
  function Sum(s: seq<u8>): nat {
    if s == [] then 0 else Sum(s[..|s| - 1]) + Weigh(|s| - 1, s[|s| - 1])
  }

  lemma {:induction false} SumSet(s: seq<u8>, i: nat, v: u8)
    requires i < |s|
    ensures Sum(s[i := v]) == Sum(s) - Weigh(i, s[i]) + Weigh(i, v)
  {
    var n := |s| - 1;
    if i < n {
      SumSet(s[..n], i, v);
      assert s[i := v][..n] == s[..n][i := v];
    } else {
      assert s[i := v][..n] == s[..n];
    }
  }

  lemma {:induction false} SumAtLeast(s: seq<u8>, i: nat)
    requires i < |s|
    ensures Sum(s) >= Weigh(i, s[i])
  {
    if i < |s| - 1 {
      SumAtLeast(s[..|s| - 1], i);
    }
  }

  /** A word in network order. */
  function Be(s: seq<u8>, k: nat): (r: u16)
    requires k + 2 <= |s|
  {
    Word(s[k], s[k + 1])
  }

  function Word(hi: u8, lo: u8): (r: u16) {
    var (h, l) := (hi as int, lo as int);
    h * 0x100 + l
  }

  /** The word as the little-endian processor loads it. */
  function Load(s: seq<u8>, k: nat): (r: u16)
    requires k + 2 <= |s|
  {
    Word(s[k + 1], s[k])
  }

  function Store(s: seq<u8>, k: nat, x: u16): (r: seq<u8>)
    requires k + 2 <= |s|
    ensures |r| == |s|
  {
    s[k := x % 0x100][k + 1 := x / 0x100]
  }

  lemma LoadIsSwap(s: seq<u8>, k: nat)
    requires k + 2 <= |s|
    ensures Load(s, k) == Swap(Be(s, k))
  {
  }

  lemma StoreSwap(s: seq<u8>, k: nat, x: u16)
    requires k + 2 <= |s|
    ensures Be(Store(s, k, Swap(x)), k) == x
  {
  }

  /** The word at `k` becomes `hi`, `lo`, and the checksum word at `c` is updated for it. */
  function Patch(s: seq<u8>, k: nat, c: nat, hi: u8, lo: u8): (r: seq<u8>)
    requires k + 2 <= |s| && c + 2 <= |s|
    ensures |r| == |s|
  {
    var t := s[k := hi][k + 1 := lo];
    var x := Update(Load(s, c), Load(s, k), Load(t, k));
    if 0 <= x <= ONES then Store(t, c, x) else t
  }

  predicate Apart(k: nat, c: nat) {
    k + 2 <= c || c + 2 <= k
  }

  /** The patch, word by word in network order. */
  lemma PatchWords(s: seq<u8>, k: nat, c: nat, hi: u8, lo: u8)
    requires k + 2 <= |s| && c + 2 <= |s| && Apart(k, c)
    ensures Be(Patch(s, k, c, hi, lo), k) == Word(hi, lo)
    ensures Be(Patch(s, k, c, hi, lo), c) == Update(Be(s, c), Be(s, k), Word(hi, lo))
    ensures forall i :: 0 <= i < |s| && !(k <= i < k + 2) && !(c <= i < c + 2) ==>
      Patch(s, k, c, hi, lo)[i] == s[i]
  {
    var t := s[k := hi][k + 1 := lo];
    LoadIsSwap(s, c);
    LoadIsSwap(s, k);
    LoadIsSwap(t, k);
    UpdateSwaps(Be(s, c), Be(s, k), Be(t, k));
    StoreSwap(t, c, Update(Be(s, c), Be(s, k), Be(t, k)));
    hide Swap, Update;
  }

  /** What the word at `k` is in the sum: itself at an even place, its bytes exchanged at an odd. */
  function Carried(s: seq<u8>, k: nat): u16
    requires k + 2 <= |s|
  {
    if k % 2 == 0 then Be(s, k) else Load(s, k)
  }

  lemma CarriedIs(s: seq<u8>, k: nat)
    requires k + 2 <= |s|
    ensures Carried(s, k) == Weigh(k, s[k]) + Weigh(k + 1, s[k + 1])
    ensures k % 2 == 1 ==> Carried(s, k) == Swap(Be(s, k))
  {
  }

  function BlankWord(s: seq<u8>, k: nat): (r: seq<u8>)
    requires k + 2 <= |s|
    ensures |r| == |s|
  {
    s[k := 0][k + 1 := 0]
  }

  lemma SumWord(s: seq<u8>, k: nat)
    requires k + 2 <= |s|
    ensures Sum(s) == Sum(BlankWord(s, k)) + Carried(s, k)
  {
    var t := s[k := 0];
    SumSet(s, k, 0);
    SumSet(t, k + 1, 0);
    CarriedIs(s, k);
    assert Weigh(k, 0) == 0 && Weigh(k + 1, 0) == 0;
    hide Sum, Weigh, Carried;
  }

  function Blank(s: seq<u8>, k: nat, c: nat): (r: seq<u8>)
    requires k + 2 <= |s| && c + 2 <= |s|
    ensures |r| == |s|
  {
    BlankWord(BlankWord(s, k), c)
  }

  /** A block's sum is that of its two words and of the rest. */
  lemma SumSplits(s: seq<u8>, k: nat, c: nat)
    requires k + 2 <= |s| && c + 2 <= |s| && Apart(k, c) && c % 2 == 0
    ensures Sum(s) == Sum(Blank(s, k, c)) + Carried(s, k) + Be(s, c)
  {
    SumWord(s, k);
    SumWord(BlankWord(s, k), c);
    assert Be(BlankWord(s, k), c) == Be(s, c);
    hide Sum, BlankWord;
  }

  lemma SameBlank(s: seq<u8>, k: nat, c: nat, hi: u8, lo: u8)
    requires k + 2 <= |s| && c + 2 <= |s| && Apart(k, c)
    ensures Blank(Patch(s, k, c, hi, lo), k, c) == Blank(s, k, c)
  {
    PatchWords(s, k, c, hi, lo);
    hide Patch, Update;
  }

  /** Some byte beside the two words is not zero. */
  ghost predicate Busy(s: seq<u8>, k: nat, c: nat) {
    exists j :: 0 <= j < |s| && !(k <= j < k + 2) && !(c <= j < c + 2) && s[j] > 0
  }

  lemma BusyRest(s: seq<u8>, k: nat, c: nat)
    requires k + 2 <= |s| && c + 2 <= |s| && Busy(s, k, c)
    ensures Sum(Blank(s, k, c)) > 0
  {
    var j :| 0 <= j < |s| && !(k <= j < k + 2) && !(c <= j < c + 2) && s[j] > 0;
    SumAtLeast(Blank(s, k, c), j);
  }

  /** At an even place the patched block is good exactly when the block was. */
  lemma PatchEven(s: seq<u8>, k: nat, c: nat, hi: u8, lo: u8, extra: nat)
    requires k + 2 <= |s| && c + 2 <= |s| && Apart(k, c) && k % 2 == 0 && c % 2 == 0 && Busy(s, k, c)
    ensures Good(extra + Sum(Patch(s, k, c, hi, lo))) <==> Good(extra + Sum(s))
  {
    hide *;
    var rest := Sum(Blank(s, k, c));
    var p := Patch(s, k, c, hi, lo);
    BusyRest(s, k, c);
    PatchSums(s, k, c, hi, lo);
    CarriedEven(s, k);
    CarriedEven(p, k);
    PatchWords(s, k, c, hi, lo);
    UpdateKeepsGood(extra + rest, Be(s, c), Be(s, k), Word(hi, lo));
    assert extra + Sum(s) == extra + rest + Be(s, k) + Be(s, c);
    assert extra + Sum(p) == extra + rest + Word(hi, lo) + Update(Be(s, c), Be(s, k), Word(hi, lo));
  }

  lemma CarriedEven(s: seq<u8>, k: nat)
    requires k + 2 <= |s| && k % 2 == 0
    ensures Carried(s, k) == Be(s, k)
  {
  }

  lemma PatchSums(s: seq<u8>, k: nat, c: nat, hi: u8, lo: u8)
    requires k + 2 <= |s| && c + 2 <= |s| && Apart(k, c) && c % 2 == 0
    ensures Sum(s) == Sum(Blank(s, k, c)) + Carried(s, k) + Be(s, c)
    ensures Sum(Patch(s, k, c, hi, lo)) ==
      Sum(Blank(s, k, c)) + Carried(Patch(s, k, c, hi, lo), k) + Be(Patch(s, k, c, hi, lo), c)
  {
    hide Patch, Blank, Sum, Carried, Be;
    SumSplits(s, k, c);
    SumSplits(Patch(s, k, c, hi, lo), k, c);
    SameBlank(s, k, c, hi, lo);
  }

  /** At an odd place a good block stays good exactly when 257 divides the change of the word. */
  lemma PatchOdd(s: seq<u8>, k: nat, c: nat, hi: u8, lo: u8, extra: nat)
    requires k + 2 <= |s| && c + 2 <= |s| && Apart(k, c) && k % 2 == 1 && c % 2 == 0 && Busy(s, k, c)
    requires Good(extra + Sum(s))
    ensures Good(extra + Sum(Patch(s, k, c, hi, lo))) <==> (Word(hi, lo) - Be(s, k)) % 257 == 0
  {
    hide *;
    var rest := Sum(Blank(s, k, c));
    var p := Patch(s, k, c, hi, lo);
    BusyRest(s, k, c);
    PatchSums(s, k, c, hi, lo);
    CarriedIs(s, k);
    CarriedIs(p, k);
    PatchWords(s, k, c, hi, lo);
    var (hc, m, m') := (Be(s, c), Be(s, k), Word(hi, lo));
    assert extra + Sum(s) == extra + rest + Swap(m) + hc;
    SwappedUpdate(extra + rest, hc, m, m');
    assert extra + Sum(p) == extra + rest + Swap(m') + Update(hc, m, m');
  }

  /** The two words as sums see them at an odd place. */
  lemma SwappedUpdate(rest: nat, hc: u16, m: u16, m': u16)
    requires rest > 0 && Good(rest + Swap(m) + hc)
    ensures 0 <= Update(hc, m, m') <= ONES
    ensures Good(rest + Swap(m') + Update(hc, m, m')) <==> (m' - m) % 257 == 0
  {
    UpdateKeepsSum(0, hc, m, m');
    var h := Update(hc, m, m');
    var j: int :| 0 + m' + h - (0 + m + hc) == ONES * j;
    var (q, q') := (m / 0x100, m' / 0x100);
    SwapIs(m);
    SwapIs(m');
    GoodIff(rest + Swap(m) + hc);
    GoodIff(rest + Swap(m') + h);
    hide Swap, Update, Good;
    OddShift(rest + Swap(m) + hc, rest + Swap(m') + h, m' - m, j - q' + q);
  }

  /** 65535 is 255 times 257. */
  lemma OddShift(b: int, a: int, d: int, t: int)
    requires Cong(b, 0) && a - b == 0xFF * d + ONES * t
    ensures Cong(a, 0) <==> d % 257 == 0
  {
    var i: int :| b - 0 == ONES * i;
    if d % 257 == 0 {
      CongBy(a, 0, i + t + d / 257);
    }
    if Cong(a, 0) {
      var k: int :| a - 0 == ONES * k;
      var e := k - i - t;
      assert d == 257 * e;
      MultipleOf257(d, e);
    }
  }

  lemma MultipleOf257(d: int, e: int)
    requires d == 257 * e
    ensures d % 257 == 0
  {
  }
}
