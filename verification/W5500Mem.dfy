/**
 The W5500's 16 KiB circular memories, one each way, and the 16-bit pointers into them.
 */
module W5500Mem {
  import opened Words
  import opened RingBuffer

  const MEM: int := 0x4000

  function Add16(a: u16, n: nat): (r: u16)
    requires n < M16
  {
    if a + n < M16 then a + n else a + n - M16
  }

  lemma AddTwice(a: u16, m: nat, n: nat)
    requires m + n < M16
    ensures Add16(Add16(a, m), n) == Add16(a, m + n)
  {
  }

  function Sub16(a: u16, b: u16): (r: u16) {
    if a >= b then a - b else a - b + M16
  }

  /** Where a 16-bit pointer points in the memory. */
  function Pos(p: u16): (r: nat)
    ensures r < MEM
  {
    p % MEM
  }

  /** The pointer wraps at 2^16 where the memory wraps at 2^14: positions agree. */
  lemma PosAdd(p: u16, n: nat)
    requires n <= MEM
    ensures Pos(Add16(p, n)) == Wrap(Pos(p) + n, MEM)
  {
    var q := p / MEM;
    assert p == MEM * q + Pos(p);
  }

  /** A window of a window. */
  lemma SubWindow(mem: seq<u8>, start: nat, len: nat, from: nat, to: nat)
    requires start < |mem| && len <= |mem| && from <= to <= len
    ensures Wrap(start + from, |mem|) < |mem|
    ensures |Window(mem, start, len)| == len
    ensures Window(mem, Wrap(start + from, |mem|), to - from) == Window(mem, start, len)[from..to]
  {
    WindowLength(mem, start, len);
    WindowDrops(mem, start, len, from);
    WindowDrops(mem, Wrap(start + from, |mem|), len - from, to - from);
    var w := Window(mem, start, len);
    assert w[from..][..to - from] == w[from..to];
  }
}
