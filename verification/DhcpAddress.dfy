/**
 IPv4 addresses as the DHCP server holds them: four bytes in network order, compared as
 one word loaded natively on a little-endian core, incremented as the byte-swapped word.
 Inside one /24 the two orders agree; past host byte 255 they do not.
 */
module DhcpAddress {
  import opened Words

  /** The four bytes in the order they have on the wire. */
  datatype Ip = Ip(b0: u8, b1: u8, b2: u8, b3: u8)

  const ANY: Ip := Ip(0, 0, 0, 0)

  /** The word a native little-endian load yields: `.addr`. */
  function Word(a: Ip): u32 {
    a.b0 + 0x100 * a.b1 + 0x1_0000 * a.b2 + 0x100_0000 * a.b3
  }

  /** The word after `htonl`: the address as a number. */
  function Number(a: Ip): u32 {
    a.b3 + 0x100 * a.b2 + 0x1_0000 * a.b1 + 0x100_0000 * a.b0
  }

  /** `a.addr < b.addr` on the native words: the last byte on the wire weighs most. */
  predicate Less(a: Ip, b: Ip) {
    if a.b3 != b.b3 then a.b3 < b.b3
    else if a.b2 != b.b2 then a.b2 < b.b2
    else if a.b1 != b.b1 then a.b1 < b.b1
    else a.b0 < b.b0
  }

  predicate AtMost(a: Ip, b: Ip) {
    !Less(b, a)
  }

  function Inc8(b: u8): u8 { if b == 255 then 0 else b + 1 }

  /** `htonl`, `++`, `htonl`: the next address, with the carry running towards the first byte. */
  function Next(a: Ip): Ip {
    Ip(if a.b3 == 255 && a.b2 == 255 && a.b1 == 255 then Inc8(a.b0) else a.b0,
       if a.b3 == 255 && a.b2 == 255 then Inc8(a.b1) else a.b1,
       if a.b3 == 255 then Inc8(a.b2) else a.b2,
       Inc8(a.b3))
  }

  /** `Less` is the order of the native words. */
  lemma LessIsWordOrder(a: Ip, b: Ip)
    ensures Less(a, b) <==> Word(a) < Word(b)
    ensures a == b <==> Word(a) == Word(b)
  {
    if a.b3 < b.b3 || (a.b3 == b.b3 && a.b2 < b.b2) {
      assert Word(a) < Word(b);
    } else if b.b3 < a.b3 || (a.b3 == b.b3 && b.b2 < a.b2) {
      assert Word(b) < Word(a);
    }
  }

  /** `Next` is the 32-bit increment of the swapped word. */
  lemma NextIsIncrement(a: Ip)
    ensures Number(Next(a)) == Inc32(Number(a))
  {
  }

  /** The three network bytes. */
  function Net(a: Ip): (u8, u8, u8) { (a.b0, a.b1, a.b2) }

  // ----- choosing the pool: plain 32-bit numbers in host order -----

  const MAX_LEASE: int := 100

  /** `dhcps_lease_t`: the configured or computed range, in host order. */
  datatype Poll = Poll(enable: bool, start: u32, end: u32)

  function Pow2(k: nat): (r: int)
    ensures r >= 1
    ensures k >= 1 ==> r % 2 == 0
  {
    if k == 0 then 1 else 2 * Pow2(k - 1)
  }

  lemma Pow2Monotone(j: nat, k: nat)
    requires j <= k
    ensures Pow2(j) <= Pow2(k)
  {
  }

  lemma PowBytes()
    ensures Pow2(8) == 0x100 && Pow2(31) == 0x8000_0000 && Pow2(32) == M32
  {
    assert Pow2(4) == 16;
    assert Pow2(8) == 0x100;
    assert Pow2(12) == 0x1000;
    assert Pow2(16) == 0x1_0000;
    assert Pow2(20) == 0x10_0000;
    assert Pow2(24) == 0x100_0000;
    assert Pow2(28) == 0x1000_0000;
  }

  /** `h & mask` for a mask with `k` host bits: the low `k` bits cleared. */
  function BlockStart(h: nat, k: nat): (r: nat)
    ensures r <= h < r + Pow2(k)
  {
    if k == 0 then h else 2 * BlockStart(h / 2, k - 1)
  }

  /** `start | ~mask`: the last address of the block. */
  function BlockEnd(h: nat, k: nat): int {
    BlockStart(h, k) + Pow2(k) - 1
  }

  lemma {:induction false} BlockFits(h: nat, k: nat, m: nat)
    requires k <= m && h < Pow2(m)
    ensures BlockEnd(h, k) < Pow2(m)
  {
    if k > 0 {
      BlockFits(h / 2, k - 1, m - 1);
    } else {
    }
  }

  /** Blocks do not overlap. */
  lemma {:induction false} BlockMember(h: nat, x: nat, k: nat)
    requires BlockStart(h, k) <= x <= BlockEnd(h, k)
    ensures BlockStart(x, k) == BlockStart(h, k)
  {
    if k > 0 {
      BlockMember(h / 2, x / 2, k - 1);
    } else {
    }
  }

  /** What `dhcps_start` checks before the pool is set: the server is neither end of its block. */
  predicate Startable(server: u32, k: nat) {
    k <= 32 && server != BlockStart(server, k) && server != BlockEnd(server, k)
  }

  /** True when an already enabled range passes the checks and is left as it was configured. */
  predicate Kept(poll: Poll, server: u32, k: nat) {
    && poll.enable
    && !(poll.start <= server <= poll.end)
    && BlockStart(poll.start, k) == BlockStart(server, k)
    && BlockStart(poll.end, k) == BlockStart(server, k)
    && Inc32(Sub32(poll.end, poll.start)) <= MAX_LEASE
  }

  /** The larger side of the server's block, cut to 100 addresses. */
  function Range(server: int, lo: int, hi: int): (int, int) {
    var (s, e) := if server - lo > hi - server then (lo + 1, server - 1) else (server + 1, hi - 1);
    if e - s + 1 > MAX_LEASE then (s, s + MAX_LEASE - 1) else (s, e)
  }

  /** The pool after `dhcps_poll_set`. */
  function PollSet(poll: Poll, server: u32, k: nat): Poll
    requires Startable(server, k)
  {
    if Kept(poll, server, k) then poll else
      RangeInside(server, k);
      var (s, e) := Range(server, BlockStart(server, k), BlockEnd(server, k));
      Poll(true, s, e)
  }

  lemma RangeInside(server: u32, k: nat)
    requires Startable(server, k)
    ensures var lo, hi := BlockStart(server, k), BlockEnd(server, k);
      var (s, e) := Range(server, lo, hi);
      lo < s <= e < hi < M32 && !(s <= server <= e) && e - s + 1 <= MAX_LEASE
  {
    PowBytes();
    BlockFits(server, k, 32);
    assert k != 0;
  }

  /**
   The pool never contains the server, lies in the server's block and has at most 100
   addresses. It is a non-empty range exactly when no reversed range was configured; and
   under any mask of at least one network bit the only reversed range that gets through
   is the empty one whose end is just below its start.
   */
  lemma PollSetPool(poll: Poll, server: u32, k: nat)
    requires Startable(server, k)
    ensures var p := PollSet(poll, server, k);
      && p.enable
      && !(p.start <= server <= p.end)
      && BlockStart(p.start, k) == BlockStart(p.end, k) == BlockStart(server, k)
      && (p.start <= p.end ==> p.end - p.start + 1 <= MAX_LEASE)
      && (p.start <= p.end <==> !(Kept(poll, server, k) && poll.end < poll.start))
      && (p.end < p.start && k <= 31 ==> p.end + 1 == p.start)
  {
    PowBytes();
    if Kept(poll, server, k) {
      var lo := BlockStart(server, k);
      if k <= 31 {
        Pow2Monotone(k, 31);
      }
    } else {
      RangeInside(server, k);
      var p := PollSet(poll, server, k);
      BlockMember(server, p.start, k);
      BlockMember(server, p.end, k);
    }
  }

  /** A configured range of at most 100 addresses, all in the server's block and none the server, is left alone. */
  lemma ConfiguredKept(poll: Poll, server: u32, k: nat)
    requires Startable(server, k) && poll.enable && poll.start <= poll.end < poll.start + 100
    requires forall x: nat :: poll.start <= x <= poll.end ==> x != server && BlockStart(x, k) == BlockStart(server, k)
    ensures PollSet(poll, server, k) == poll
  {
    assert BlockStart(poll.start, k) == BlockStart(server, k) && BlockStart(poll.end, k) == BlockStart(server, k);
    assert server < poll.start || poll.end < server;
    hide BlockStart, Pow2;
  }

  /** And no other proper range is: one with more addresses, with the server, or with an end outside the block is replaced. */
  lemma OtherReplaced(poll: Poll, server: u32, k: nat)
    requires Startable(server, k) && poll.enable && poll.start <= poll.end
    requires poll.end - poll.start >= 100 || poll.start <= server <= poll.end
      || BlockStart(poll.start, k) != BlockStart(server, k) || BlockStart(poll.end, k) != BlockStart(server, k)
    ensures PollSet(poll, server, k) == PollSet(Poll(false, 0, 0), server, k)
  {
    hide BlockStart, Pow2, Range;
  }

  /** A computed pool is the larger side of the server's block, without the block's ends, up to its first 100 addresses. */
  lemma ComputedIsLarger(poll: Poll, server: u32, k: nat)
    requires Startable(server, k) && !poll.enable
    ensures var p := PollSet(poll, server, k);
      var (below, above) := (server - BlockStart(server, k) - 1, BlockEnd(server, k) - server - 1);
      var most := if below > above then below else above;
      && p.start == (if below > above then BlockStart(server, k) + 1 else server + 1)
      && p.end - p.start + 1 == if most > 100 then 100 else most
  {
    RangeInside(server, k);
    hide BlockStart, Pow2;
  }

  /** `h & mask`, for a mask with `k` host bits: the host bits shifted out and back in as zeros. */
  method NetworkPart(h: u32, k: nat) returns (r: nat)
    ensures r == BlockStart(h, k)
  {
    var top: nat, size: nat := h, 1;
    for i := 0 to k
      invariant BlockStart(h, k) == size * BlockStart(top, k - i)
    {
      Shifted(size, BlockStart(top / 2, k - i - 1));
      top := top / 2;
      size := size * 2;
    }
    r := top * size;
  }

  lemma Shifted(size: nat, x: nat)
    ensures size * (2 * x) == size * 2 * x
  {
  }

  /** `~mask`. */
  method HostPart(k: nat) returns (r: nat)
    ensures r == Pow2(k) - 1
  {
    r := 0;
    for i := 0 to k
      invariant r == Pow2(i) - 1
    {
      r := 2 * r + 1;
    }
  }

  /** `dhcps_poll_set`. */
  method SetPoll(poll: Poll, server: u32, k: nat) returns (p: Poll)
    requires Startable(server, k)
    ensures p == PollSet(poll, server, k)
  {
    hide BlockStart, Pow2;
    var lo := NetworkPart(server, k);
    var enable := poll.enable;
    if enable {
      if server >= poll.start && server <= poll.end {
        enable := false;
      } else {
        var startNet := NetworkPart(poll.start, k);
        var endNet := NetworkPart(poll.end, k);
        if startNet != lo || endNet != lo || Inc32(Sub32(poll.end, poll.start)) > MAX_LEASE {
          enable := false;
        }
      }
    }
    if enable {
      return poll;
    }
    RangeInside(server, k);
    var host := HostPart(k);
    var s: int, e: int := lo, lo + host;
    if server - s > e - server {
      s := s + 1;
      e := server - 1;
    } else {
      s := server + 1;
      e := e - 1;
    }
    if e - s + 1 > MAX_LEASE {
      e := s + MAX_LEASE - 1;
    }
    p := Poll(true, s, e);
  }

  /** A configured range whose end is one below its start passes every check, and the pool is empty. */
  lemma EmptyRangeKept()
    ensures Number(Ip(192, 168, 4, 1)) == 0xC0A80401
    ensures Startable(0xC0A80401, 8)
    ensures PollSet(Poll(true, 0xC0A8040A, 0xC0A80409), 0xC0A80401, 8) == Poll(true, 0xC0A8040A, 0xC0A80409)
  {
    PowBytes();
    Block8(0xC0A80401);
    Block8(0xC0A8040A);
    Block8(0xC0A80409);
    hide BlockStart, Pow2;
    assert Inc32(Sub32(0xC0A80409, 0xC0A8040A)) == 0;
  }

  lemma Doubled(h: nat, k: nat)
    requires k > 0
    ensures BlockStart(h, k) == 2 * BlockStart(h / 2, k - 1)
  {
  }

  lemma BlockSplits(h: nat, k: nat)
    ensures BlockStart(h, k + 8) == 0x100 * BlockStart(h / 0x100, k)
  {
    var (h1, h2, h3, h4) := (h / 2, h / 4, h / 8, h / 16);
    var (h5, h6, h7, h8) := (h / 32, h / 64, h / 128, h / 256);
    assert h1 / 2 == h2 && h2 / 2 == h3 && h3 / 2 == h4 && h4 / 2 == h5 && h5 / 2 == h6 && h6 / 2 == h7 && h7 / 2 == h8;
    Doubled(h, k + 8);
    Doubled(h1, k + 7);
    Doubled(h2, k + 6);
    Doubled(h3, k + 5);
    Doubled(h4, k + 4);
    Doubled(h5, k + 3);
    Doubled(h6, k + 2);
    Doubled(h7, k + 1);
  }

  /** Under a wide mask the computed range can be reversed as the server compares addresses. */
  lemma WideMaskReverses()
    ensures Number(Ip(192, 168, 0, 200)) == 0xC0A800C8 && Startable(0xC0A800C8, 16)
    ensures PollSet(Poll(false, 0, 0), 0xC0A800C8, 16) ==
      Poll(true, Number(Ip(192, 168, 0, 201)), Number(Ip(192, 168, 1, 44)))
    ensures Less(Ip(192, 168, 1, 44), Ip(192, 168, 0, 201))
  {
    hide BlockStart, Pow2, Less, Number;
    WideBlock();
    WideNumbers();
  }

  lemma WideBlock()
    ensures BlockStart(0xC0A800C8, 16) == 0xC0A80000 && BlockEnd(0xC0A800C8, 16) == 0xC0A8FFFF
  {
    PowBytes();
    assert Pow2(16) == 0x1_0000;
    hide BlockStart, Pow2;
    BlockSplits(0xC0A800C8, 8);
    Block8(0xC0A800);
  }

  lemma WideNumbers()
    ensures Number(Ip(192, 168, 0, 200)) == 0xC0A800C8
    ensures Number(Ip(192, 168, 0, 201)) == 0xC0A800C9 && Number(Ip(192, 168, 1, 44)) == 0xC0A8012C
    ensures Less(Ip(192, 168, 1, 44), Ip(192, 168, 0, 201))
  {
  }

  /** `get_dhcp_pool_range`: the range shown to the user, always under a 255.255.255.0 mask. */
  function GetPoolRange(server: u32): (int, int) {
    Range(server, server - server % 0x100, server - server % 0x100 + 0xFF)
  }

  lemma Block8(h: nat)
    ensures BlockStart(h, 8) == h - h % 0x100
  {
    var q := h / 16;
    Block4(h);
    Block4(q);
    hide BlockStart;
    assert q / 16 == h / 0x100;
  }

  lemma Block4(h: nat)
    ensures BlockStart(h, 4) == h - h % 16
    ensures BlockStart(h, 8) == 16 * BlockStart(h / 16, 4)
  {
    var h1, h2, h3, h4 := h / 2, h / 4, h / 8, h / 16;
    assert h1 / 2 == h2 && h2 / 2 == h3 && h3 / 2 == h4;
    assert BlockStart(h, 4) == 2 * BlockStart(h1, 3);
    assert BlockStart(h1, 3) == 2 * BlockStart(h2, 2);
    assert BlockStart(h2, 2) == 2 * BlockStart(h3, 1);
    assert BlockStart(h3, 1) == 2 * BlockStart(h4, 0);
    assert BlockStart(h, 8) == 2 * BlockStart(h1, 7);
    assert BlockStart(h1, 7) == 2 * BlockStart(h2, 6);
    assert BlockStart(h2, 6) == 2 * BlockStart(h3, 5);
    assert BlockStart(h3, 5) == 2 * BlockStart(h4, 4);
  }

  /** The range shown is the range served: for a server with no configured pool under the default mask. */
  lemma PoolRangeAgrees(poll: Poll, server: u32)
    requires Startable(server, 8) && !poll.enable
    ensures PollSet(poll, server, 8) == Poll(true, GetPoolRange(server).0, GetPoolRange(server).1)
  {
    PowBytes();
    Block8(server);
  }

  /**
   Under the default mask both ends of the pool carry the server's three network bytes; a
   computed pool also stays below host byte 255 and its native words are in order.
   */
  lemma DefaultMaskIsOneNet(poll: Poll, server: Ip, start: Ip, end: Ip)
    requires Startable(Number(server), 8)
    requires PollSet(poll, Number(server), 8) == Poll(true, Number(start), Number(end))
    ensures Net(start) == Net(end) == Net(server)
    ensures !Kept(poll, Number(server), 8) ==> AtMost(start, end) && end.b3 < 255
  {
    PollSetPool(poll, Number(server), 8);
    PowBytes();
    NetOfBlock(start, server);
    NetOfBlock(end, server);
    if !Kept(poll, Number(server), 8) {
      RangeInside(Number(server), 8);
      assert Number(end) - end.b3 == Number(server) - server.b3;
      Block8Of(server);
    }
  }

  lemma Block8Of(a: Ip)
    ensures BlockStart(Number(a), 8) == Number(a) - a.b3
  {
    hide BlockStart, Number;
    var high := SplitNumber(a);
    LowByte(Number(a), a.b3, high);
    Block8(Number(a));
  }

  lemma SplitNumber(a: Ip) returns (high: nat)
    ensures Number(a) == a.b3 + 0x100 * high
  {
    var (b0, b1, b2) := (a.b0 as int, a.b1 as int, a.b2 as int);
    high := b2 + 0x100 * b1 + 0x1_0000 * b0;
  }

  lemma LowByte(n: nat, low: u8, high: nat)
    requires n == low + 0x100 * high
    ensures n % 0x100 == low
  {
  }

  lemma NetOfBlock(a: Ip, b: Ip)
    requires BlockStart(Number(a), 8) == BlockStart(Number(b), 8)
    ensures Net(a) == Net(b)
  {
    Block8Of(a);
    Block8Of(b);
    LessIsWordOrder(Ip(a.b2, a.b1, a.b0, 0), Ip(b.b2, b.b1, b.b0, 0));
  }
}
