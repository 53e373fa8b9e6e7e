/**
 The capture ring in memory: a byte buffer with a write position, a read position and a
 count, copied into and out of in at most two pieces. It behaves as the queue of `RingSpec`.
 */
module RingBuffer {
  import opened Words
  import opened RingSpec

  /** The `len` bytes from `start` on, wrapping at the end of the buffer. */
  function Window(mem: seq<u8>, start: nat, len: nat): seq<u8>
    requires start < |mem| && len <= |mem|
  {
    if start + len <= |mem| then mem[start..start + len]
    else mem[start..] + mem[..start + len - |mem|]
  }

  function Wrap(i: nat, size: nat): nat {
    if i < size then i else i - size
  }

  /** `i % size` for the sums that occur: below twice the size. */
  method Modulo(i: nat, size: nat) returns (r: nat)
    requires i < 2 * size
    ensures r == Wrap(i, size)
  {
    r := i % size;
    if i >= size {
      ModOnce(i, size);
    }
  }

  lemma ModOnce(i: nat, size: nat)
    requires size <= i < 2 * size
    ensures i % size == i - size
  {
    var q, r := i / size, i % size;
    assert i == size * q + r;
  }

  /** Byte `i` of a window. */
  lemma WindowAt(mem: seq<u8>, start: nat, len: nat, i: nat)
    requires start < |mem| && len <= |mem| && i < len
    ensures Wrap(start + i, |mem|) < |mem| && Window(mem, start, len)[i] == mem[Wrap(start + i, |mem|)]
  {
  }

  lemma WindowLength(mem: seq<u8>, start: nat, len: nat)
    requires start < |mem| && len <= |mem|
    ensures |Window(mem, start, len)| == len
  {
  }

  /** `after` is `before` with `src` written from `head` on, wrapping. */
  ghost predicate Written(before: seq<u8>, after: seq<u8>, head: nat, src: seq<u8>) {
    && |after| == |before| && head < |before| && |src| <= |before|
    && (forall i :: 0 <= i < |src| ==> after[Wrap(head + i, |before|)] == src[i])
    && (forall j :: 0 <= j < |before| && !(head <= j < head + |src|) && !(j + |before| < head + |src|) ==>
          after[j] == before[j])
  }

  /** A written place reads back the new byte; a place of the old window is not touched. */
  lemma WrittenAt(before: seq<u8>, after: seq<u8>, tail: nat, len: nat, src: seq<u8>, i: nat)
    requires tail < |before| && len + |src| <= |before|
    requires Written(before, after, Wrap(tail + len, |before|), src)
    requires i < len + |src|
    ensures Wrap(tail + i, |before|) < |before|
    ensures after[Wrap(tail + i, |before|)] == if i < len then before[Wrap(tail + i, |before|)] else src[i - len]
  {
    var n := |before|;
    var head := Wrap(tail + len, n);
    if i < len {
      var j := Wrap(tail + i, n);
      assert !(head <= j < head + |src|) && !(j + n < head + |src|);
    } else {
      assert Wrap(tail + i, n) == Wrap(head + (i - len), n);
    }
  }

  /** Writing behind a window that leaves room extends it by what was written, whatever wraps. */
  lemma WrittenExtends(before: seq<u8>, after: seq<u8>, tail: nat, len: nat, src: seq<u8>)
    requires tail < |before| && len + |src| <= |before|
    requires Written(before, after, Wrap(tail + len, |before|), src)
    ensures Window(after, tail, len + |src|) == Window(before, tail, len) + src
  {
    var w, v := Window(after, tail, len + |src|), Window(before, tail, len) + src;
    WindowLength(after, tail, len + |src|);
    WindowLength(before, tail, len);
    forall i | 0 <= i < len + |src| ensures w[i] == v[i] {
      WindowAt(after, tail, len + |src|, i);
      WrittenAt(before, after, tail, len, src, i);
      if i < len {
        WindowAt(before, tail, len, i);
      }
    }
  }

  /** Moving the start of a window on drops bytes from its front. */
  lemma WindowDrops(mem: seq<u8>, tail: nat, len: nat, k: nat)
    requires tail < |mem| && len <= |mem| && k <= len
    ensures Wrap(tail + k, |mem|) < |mem|
    ensures Window(mem, Wrap(tail + k, |mem|), len - k) == Window(mem, tail, len)[k..]
    ensures Window(mem, tail, k) == Window(mem, tail, len)[..k]
  {
  }

  /** `memcpy`. */
  method Copy(dst: array<u8>, at: nat, src: seq<u8>)
    requires at + |src| <= dst.Length
    modifies dst
    ensures forall j :: 0 <= j < |src| ==> dst[at + j] == src[j]
    ensures forall j :: 0 <= j < dst.Length && !(at <= j < at + |src|) ==> dst[j] == old(dst[j])
  {
    for i := 0 to |src|
      invariant forall j :: 0 <= j < i ==> dst[at + j] == src[j]
      invariant forall j :: 0 <= j < dst.Length && !(at <= j < at + i) ==> dst[j] == old(dst[j])
    {
      dst[at + i] := src[i];
    }
  }

  /** The two-piece copy into the buffer, and where it leaves the write position. */
  method CopyWrapped(dst: array<u8>, head: nat, src: seq<u8>) returns (next: nat)
    requires head < dst.Length && |src| <= dst.Length
    modifies dst
    ensures Written(old(dst[..]), dst[..], head, src)
    ensures next == Wrap(head + |src|, dst.Length)
  {
    ghost var before := dst[..];
    var first := dst.Length - head;
    if first >= |src| {
      Copy(dst, head, src);
      next := Modulo(head + |src|, dst.Length);
    } else {
      Copy(dst, head, src[..first]);
      ghost var mid := dst[..];
      Copy(dst, 0, src[first..]);
      next := |src| - first;
      forall i | 0 <= i < |src| ensures dst[Wrap(head + i, dst.Length)] == src[i] {
        if i < first {
          assert mid[head + i] == src[..first][i] && dst[head + i] == mid[head + i];
        } else {
          assert dst[0 + (i - first)] == src[first..][i - first];
        }
      }
    }
  }

  /** The static state of `pcap_ringbuf.c`, with the data-ready semaphore. */
  class RingBuf {
    var data: array?<u8>
    var size: nat
    var head: nat
    var tail: nat
    var available: nat
    var dropped: u32
    var signal: bool

    ghost predicate Valid()
      reads this
    {
      && (data == null ==> size == 0 && available == 0)
      && (data != null ==> data.Length == size && available <= size)
      && (data != null && size > 0 ==> tail < size && head == Wrap(tail + available, size))
    }

    ghost function Contents(): seq<u8>
      reads this, data
      requires Valid()
    {
      if data == null || size == 0 then [] else Window(data[..], tail, available)
    }

    ghost function State(): Ring
      reads this, data
      requires Valid()
    {
      Ring(data != null, size, Contents(), dropped, signal)
    }

    /** `ringbuf_init`, before any buffer is allocated. */
    constructor ()
      ensures Valid() && State() == Ring(false, 0, [], 0, false)
    {
      data := null;
      size, head, tail, available, dropped, signal := 0, 0, 0, 0, 0, false;
    }

    /** `ringbuf_alloc`; `granted` is the outcome of `malloc`. */
    method Alloc(n: nat, granted: bool) returns (ok: bool)
      requires Valid()
      modifies this
      ensures Valid()
      ensures ok <==> old(data) != null || granted
      ensures State() == if old(data) == null && granted then Ring(true, n, [], 0, false) else old(State())
      ensures data == old(data) || fresh(data)
    {
      if data != null {
        return true;
      }
      if !granted {
        return false;
      }
      data := new u8[n];
      size := n;
      head, tail, available, dropped := 0, 0, 0, 0;
      signal := false;
      return true;
    }

    /** `ringbuf_free`. */
    method Free()
      requires Valid()
      modifies this
      ensures Valid() && data == null
      ensures State() == if old(data) == null then old(State()) else Ring(false, 0, [], 0, old(signal))
    {
      if data != null {
        data := null;
        size, head, tail, available, dropped := 0, 0, 0, 0, 0;
      }
    }

    /** `ringbuf_reset`. */
    method Reset()
      requires Valid()
      modifies this
      ensures Valid() && data == old(data)
      ensures State() == Cleared(old(State())) && State().bytes == [] && dropped == 0
    {
      head, tail, available, dropped := 0, 0, 0, 0;
    }

    /**
     `ringbuf_write`; `free` is the outcome of the non-blocking take of the mutex. The code
     takes positions modulo the size: nothing may be written into a ring of size zero.
     */
    method Write(src: seq<u8>, free: bool) returns (ok: bool)
      requires Valid() && (data != null && size == 0 ==> src != [])
      modifies this, data
      ensures Valid() && data == old(data)
      ensures (State(), ok) == Put(old(State()), src, free)
    {
      hide Window, Written;
      if data == null {
        return false;
      }
      if !free {
        dropped := Inc32(dropped);
        return false;
      }
      if size > 0 {
        WindowLength(data[..], tail, available);
      }
      var freeSpace := size - available;
      if |src| > freeSpace {
        dropped := Inc32(dropped);
        return false;
      }
      ghost var before := data[..];
      head := CopyWrapped(data, head, src);
      WrittenExtends(before, data[..], tail, available, src);
      available := available + |src|;
      signal := true;
      return true;
    }

    /** The two-piece copy out of the buffer, shared in shape by `ringbuf_read` and `ringbuf_peek`. */
    method CopyOut(n: nat) returns (out: seq<u8>)
      requires Valid() && data != null && 0 < available && n <= available
      ensures out == Contents()[..n]
    {
      WindowDrops(data[..], tail, available, n);
      var first := size - tail;
      if first >= n {
        out := data[tail..tail + n];
      } else {
        out := data[tail..tail + first];
        out := out + data[0..n - first];
      }
    }

    /** `ringbuf_read`; a wait for the signal ends with it or with the timeout. */
    method Read(max: nat) returns (out: seq<u8>)
      requires Valid()
      modifies this
      ensures Valid() && data == old(data)
      ensures (State(), out) == Take(old(State()), max)
    {
      hide Window;
      if data == null {
        return [];
      }
      if !signal {
        return [];
      }
      signal := false;
      if available == 0 {
        EmptyContents(this);
        return [];
      }
      WindowLength(data[..], tail, available);
      var n := if max < available then max else available;
      out := CopyOut(n);
      WindowDrops(data[..], tail, available, n);
      var first := size - tail;
      if first >= n {
        tail := Modulo(tail + n, size);
      } else {
        tail := n - first;
      }
      available := available - n;
      if available > 0 {
        signal := true;
      }
    }

    /** `ringbuf_peek`. */
    method Peek(max: nat) returns (out: seq<u8>)
      requires Valid()
      ensures out == Contents()[..Min(max, |Contents()|)]
    {
      if data == null {
        return [];
      }
      if available == 0 {
        EmptyContents(this);
        return [];
      }
      WindowLength(data[..], tail, available);
      var n := if max < available then max else available;
      out := CopyOut(n);
    }

    /** `ringbuf_skip`. */
    method SkipBytes(len: nat)
      requires Valid() && (data != null ==> size > 0)
      modifies this
      ensures Valid() && data == old(data)
      ensures State() == Skip(old(State()), len)
    {
      hide Window;
      if data == null {
        return;
      }
      WindowLength(data[..], tail, available);
      var n := if len > available then available else len;
      WindowDrops(data[..], tail, available, n);
      tail := Modulo(tail + n, size);
      available := available - n;
    }
  }

  lemma EmptyContents(r: RingBuf)
    requires r.Valid() && r.available == 0
    ensures r.Contents() == []
  {
  }
}
