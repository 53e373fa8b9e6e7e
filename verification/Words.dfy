/**
 Fixed-width unsigned words, written out over `int`: the C sources rely on wrap-around
 at 8, 16 and 32 bits.
 */
module Words {

  const M16: int := 0x1_0000
  const M32: int := 0x1_0000_0000

  type u8 = x: int | 0 <= x < 0x100
  type u16 = x: int | 0 <= x < 0x1_0000
  type u32 = x: int | 0 <= x < 0x1_0000_0000

  /** Unsigned 32-bit `b - a`: the distance from `a` forward to `b` on the circle. */
  function Sub32(b: u32, a: u32): u32 {
    if b >= a then b - a else b - a + M32
  }

  /** Unsigned 32-bit increment. */
  function Inc32(a: u32): u32 {
    if a == M32 - 1 then 0 else a + 1
  }

  lemma IncWraps(n: nat)
    ensures Inc32(n % M32) == (n + 1) % M32
  {
  }

  /** Unsigned 32-bit decrement. */
  function Dec32(a: u32): u32 {
    if a == 0 then M32 - 1 else a - 1
  }

  /** `k` little-endian bytes of a number. */
  function Le(n: nat, k: nat): (r: seq<u8>)
    ensures |r| == k
  {
    if k == 0 then [] else [n % 0x100] + Le(n / 0x100, k - 1)
  }

  function FromLe(b: seq<u8>): nat {
    if b == [] then 0 else b[0] + 0x100 * FromLe(b[1..])
  }

  function Pow256(k: nat): nat {
    if k == 0 then 1 else 0x100 * Pow256(k - 1)
  }

  lemma {:induction false} LeRoundTrip(n: nat, k: nat)
    requires n < Pow256(k)
    ensures FromLe(Le(n, k)) == n
  {
    if k > 0 {
      LeRoundTrip(n / 0x100, k - 1);
      assert Le(n, k)[1..] == Le(n / 0x100, k - 1);
    }
  }

  lemma Pow256Of4()
    ensures Pow256(4) == M32
  {
    assert Pow256(2) == 0x1_0000;
  }
}
