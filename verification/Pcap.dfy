/**
 Packet capture: a record built over a chain of buffers, queued whole or not at all, and
 streamed to a client in chunks that ignore record boundaries. What the client receives
 decodes to the accepted packets.
 */
module Pcap {
  import opened Words
  import opened RingSpec
  import opened RingBuffer

  const HEADER: int := 16
  const SNAPLEN_MAX: int := 1600
  const SEND_BUF: int := 1024

  // ----- the record format -----

  /** One captured packet: time stamp, original length, captured bytes. */
  datatype Packet = Packet(sec: u32, usec: u32, orig: u32, data: seq<u8>)

  predicate Encodable(p: Packet) { |p.data| < M32 }

  /** A record: four little-endian words, then the captured bytes. */
  function Record(p: Packet): seq<u8> {
    Le(p.sec, 4) + Le(p.usec, 4) + Le(|p.data|, 4) + Le(p.orig, 4) + p.data
  }

  function Records(ps: seq<Packet>): seq<u8> {
    if ps == [] then [] else Record(ps[0]) + Records(ps[1..])
  }

  /** What a client makes of a stream: the whole records it has, and the bytes after them. */
  function Decode(b: seq<u8>): (r: (seq<Packet>, seq<u8>))
    decreases |b|
  {
    if |b| < HEADER then ([], b)
    else
      var n := FromLe(b[8..12]);
      if |b| < HEADER + n then ([], b)
      else
        var p := Packet(FromLe(b[0..4]) % M32, FromLe(b[4..8]) % M32, FromLe(b[12..16]) % M32, b[HEADER..HEADER + n]);
        var (ps, rest) := Decode(b[HEADER + n..]);
        ([p] + ps, rest)
  }

  lemma WordReads(n: u32)
    ensures FromLe(Le(n, 4)) == n
  {
    Pow256Of4();
    LeRoundTrip(n, 4);
  }

  lemma RecordFields(p: Packet, rest: seq<u8>)
    requires Encodable(p)
    ensures var b := Record(p) + rest;
      && |b| >= HEADER + |p.data|
      && FromLe(b[8..12]) == |p.data|
      && FromLe(b[0..4]) == p.sec && FromLe(b[4..8]) == p.usec && FromLe(b[12..16]) == p.orig
      && b[HEADER..HEADER + |p.data|] == p.data && b[HEADER + |p.data|..] == rest
  {
    var b := Record(p) + rest;
    assert b[0..4] == Le(p.sec, 4);
    assert b[4..8] == Le(p.usec, 4);
    assert b[8..12] == Le(|p.data|, 4);
    assert b[12..16] == Le(p.orig, 4);
    WordReads(p.sec);
    WordReads(p.usec);
    WordReads(|p.data|);
    WordReads(p.orig);
  }

  /** A record at the front of a stream is read back field by field. */
  lemma RecordReads(p: Packet, rest: seq<u8>)
    requires Encodable(p)
    ensures Decode(Record(p) + rest) == ([p] + Decode(rest).0, Decode(rest).1)
  {
    hide Record, Decode, FromLe;
    RecordFields(p, rest);
    DecodeStep(Record(p) + rest, p, rest);
  }

  lemma DecodeStep(b: seq<u8>, p: Packet, rest: seq<u8>)
    requires |b| >= HEADER + |p.data|
    requires FromLe(b[8..12]) == |p.data|
    requires FromLe(b[0..4]) == p.sec && FromLe(b[4..8]) == p.usec && FromLe(b[12..16]) == p.orig
    requires b[HEADER..HEADER + |p.data|] == p.data && b[HEADER + |p.data|..] == rest
    ensures Decode(b) == ([p] + Decode(rest).0, Decode(rest).1)
  {
    hide FromLe;
  }

  /** A proper prefix of a record contains no whole record. */
  lemma CutRecord(p: Packet, b: seq<u8>)
    requires Encodable(p) && b <= Record(p) && |b| < |Record(p)|
    ensures Decode(b) == ([], b)
  {
    RecordLength(p);
    if |b| >= HEADER {
      RecordFields(p, []);
      assert Record(p) + [] == Record(p);
      hide Record;
      assert b[8..12] == Record(p)[8..12];
    }
  }

  /**
   Any prefix of a record stream, wherever it is cut, decodes to a prefix of the packets;
   the undecoded rest is the start of the next record, and nothing is left of a full stream.
   */
  lemma {:induction false} PrefixDecodes(ps: seq<Packet>, b: seq<u8>)
    requires forall i :: 0 <= i < |ps| ==> Encodable(ps[i])
    requires b <= Records(ps)
    ensures var (qs, rest) := Decode(b);
      && qs <= ps
      && b == Records(qs) + rest
      && (b == Records(ps) ==> qs == ps && rest == [])
      && (qs != ps ==> rest <= Record(ps[|qs|]) && |rest| < |Record(ps[|qs|])|)
  {
    hide Record, Decode;
    if ps == [] {
      DecodeShort(b);
    } else {
      var p, n := ps[0], |Record(ps[0])|;
      RecordLength(p);
      if |b| >= n {
        var tail := b[n..];
        CutStream(p, Records(ps[1..]), b);
        PrefixDecodes(ps[1..], tail);
        RecordReads(p, tail);
        var (qs, rest) := Decode(tail);
        assert ([p] + qs)[1..] == qs;
        assert Record(p) + (Records(qs) + rest) == (Record(p) + Records(qs)) + rest;
        assert ps == [p] + ps[1..];
      } else {
        assert b <= Record(p) by { assert b == Records(ps)[..|b|]; }
        CutRecord(p, b);
        assert [] + b == b;
      }
    }
  }

  lemma DecodeShort(b: seq<u8>)
    requires |b| < HEADER
    ensures Decode(b) == ([], b)
  {
  }

  lemma RecordLength(p: Packet)
    ensures |Record(p)| == HEADER + |p.data|
  {
  }

  lemma CutStream(p: Packet, more: seq<u8>, b: seq<u8>)
    requires b <= Record(p) + more && |b| >= |Record(p)|
    ensures b == Record(p) + b[|Record(p)|..] && b[|Record(p)|..] <= more
    ensures b == Record(p) + more <==> b[|Record(p)|..] == more
  {
    hide Record;
    var n := |Record(p)|;
    assert b[..n] == (Record(p) + more)[..n];
  }

  // ----- building a record -----

  /** A `pbuf` chain, as the payload of each link. */
  type Chain = seq<seq<u8>>

  function Cut(data: seq<u8>, n: nat): seq<u8> {
    data[..Min(n, |data|)]
  }

  /** The packet a chain is captured as. */
  function Captured(sec: u32, usec: u32, chain: Chain, snaplen: u16): Packet
    requires |Flatten(chain)| < M16
  {
    Packet(sec, usec, |Flatten(chain)|, Cut(Flatten(chain), snaplen))
  }

  /** The little-endian number in four bytes. */
  function Word32(b: seq<u8>, at: nat): int
    requires at + 4 <= |b|
  {
    var (b0, b1, b2, b3) := (b[at] as int, b[at + 1] as int, b[at + 2] as int, b[at + 3] as int);
    b0 + 0x100 * b1 + 0x1_0000 * b2 + 0x100_0000 * b3
  }

  lemma LeWord(n: u32, b: seq<u8>, at: nat)
    requires at + 4 <= |b| && b[at..at + 4] == Le(n, 4)
    ensures Word32(b, at) == n
  {
    var w := b[at..at + 4];
    assert w[0] == b[at] && w[1] == b[at + 1] && w[2] == b[at + 2] && w[3] == b[at + 3];
    var (q1, q2, q3) := (n / 0x100, n / 0x1_0000, n / 0x100_0000);
    assert q1 / 0x100 == q2 && q2 / 0x100 == q3;
    assert Le(n, 4) == [n % 0x100] + Le(q1, 3) && Le(q1, 3) == [q1 % 0x100] + Le(q2, 2);
    assert Le(q2, 2) == [q2 % 0x100] + Le(q3, 1) && Le(q3, 1) == [q3 % 0x100] + Le(q3 / 0x100, 0);
  }

  /**
   The bytes of a captured packet's record: the time, how many bytes were captured, how many
   the packet has, and then its first bytes, as many as the snap length lets through.
   */
  lemma CapturedBytes(sec: u32, usec: u32, chain: Chain, snaplen: u16)
    requires |Flatten(chain)| < M16
    ensures var (b, all) := (Record(Captured(sec, usec, chain, snaplen)), Flatten(chain));
      var incl := if |all| > snaplen then snaplen else |all|;
      && |b| == 16 + incl
      && Word32(b, 0) == sec && Word32(b, 4) == usec && Word32(b, 8) == incl && Word32(b, 12) == |all|
      && forall i :: 0 <= i < incl ==> b[16 + i] == all[i]
  {
    var p := Captured(sec, usec, chain, snaplen);
    var b := Record(p);
    hide Record, Word32, Le, Flatten;
    RecordPlaces(p);
    LeWord(sec, b, 0);
    LeWord(usec, b, 4);
    LeWord(|p.data|, b, 8);
    LeWord(p.orig, b, 12);
    assert forall i :: 0 <= i < |p.data| ==> b[16..][i] == b[16 + i];
  }

  lemma RecordPlaces(p: Packet)
    ensures var b := Record(p);
      && |b| == 16 + |p.data| && b[16..] == p.data
      && b[0..4] == Le(p.sec, 4) && b[4..8] == Le(p.usec, 4)
      && b[8..12] == Le(|p.data|, 4) && b[12..16] == Le(p.orig, 4)
  {
    hide Le;
  }

  lemma {:induction false} FlattenSplit(chain: Chain, i: nat)
    requires i < |chain|
    ensures Flatten(chain[..i + 1]) == Flatten(chain[..i]) + chain[i]
    ensures Flatten(chain[..i + 1]) <= Flatten(chain)
  {
    assert chain[..i + 1] == chain[..i] + [chain[i]];
    FlattenSnoc(chain[..i], chain[i]);
    FlattenPrefix(chain, i + 1);
  }

  lemma {:induction false} FlattenPrefix(chain: Chain, i: nat)
    requires i <= |chain|
    ensures Flatten(chain[..i]) <= Flatten(chain)
  {
    if i > 0 {
      assert chain[..i][1..] == chain[1..][..i - 1];
      FlattenPrefix(chain[1..], i - 1);
    } else {
      assert chain[..0] == [];
    }
  }

  /** The copying loop over the chain: the first `incl` bytes, wherever the links are cut. */
  method Gather(buf: array<u8>, at: nat, chain: Chain, incl: nat)
    requires incl <= |Flatten(chain)| && at + incl <= buf.Length
    modifies buf
    ensures buf[at..at + incl] == Flatten(chain)[..incl]
    ensures buf[..at] == old(buf[..at])
  {
    var copied, q := 0, 0;
    ghost var all := Flatten(chain);
    assert chain[..0] == [];
    while q < |chain| && copied < incl
      invariant q <= |chain| && copied == Min(incl, |Flatten(chain[..q])|)
      invariant Flatten(chain[..q]) <= all
      invariant buf[at..at + copied] == all[..copied]
      invariant buf[..at] == old(buf[..at])
    {
      FlattenSplit(chain, q);
      var toCopy := |chain[q]|;
      if copied + toCopy > incl {
        toCopy := incl - copied;
      }
      CopyPiece(buf, at, copied, chain[q][..toCopy]);
      assert all[..copied + toCopy] == all[..copied] + chain[q][..toCopy];
      copied := copied + toCopy;
      q := q + 1;
    }
    if q == |chain| {
      assert chain[..q] == chain;
    }
  }

  method CopyPiece(buf: array<u8>, at: nat, copied: nat, piece: seq<u8>)
    requires at + copied + |piece| <= buf.Length
    modifies buf
    ensures buf[at..at + copied + |piece|] == old(buf[at..at + copied]) + piece
    ensures buf[..at] == old(buf[..at])
  {
    Copy(buf, at + copied, piece);
  }

  // ----- capture and streaming over one session -----

  /** What happens to a session: a packet is offered to the ring, or the server reads a chunk. */
  datatype Event = Offer(p: Packet, free: bool) | Chunk

  datatype Session = Session(ring: Ring, accepted: seq<Packet>, sent: seq<u8>)

  function Handle(s: Session, e: Event): Session {
    match e
    case Offer(p, free) =>
      var (r, ok) := Put(s.ring, Record(p), free);
      Session(r, if ok then s.accepted + [p] else s.accepted, s.sent)
    case Chunk =>
      var (r, out) := Take(s.ring, SEND_BUF);
      Session(r, s.accepted, s.sent + out)
  }

  /** A session from an empty ring on. */
  function PlayFrom(r: Ring, es: seq<Event>): Session {
    if es == [] then Session(r, [], []) else Handle(PlayFrom(r, es[..|es| - 1]), es[|es| - 1])
  }

  function Play(size: nat, es: seq<Event>): Session {
    PlayFrom(Ring(true, size, [], 0, false), es)
  }

  lemma {:induction false} RecordsSnoc(ps: seq<Packet>, p: Packet)
    ensures Records(ps + [p]) == Records(ps) + Record(p)
  {
    if ps == [] {
      assert [p][1..] == [] && [] + [p] == [p];
    } else {
      assert (ps + [p])[1..] == ps[1..] + [p];
      RecordsSnoc(ps[1..], p);
      assert Record(ps[0]) + (Records(ps[1..]) + Record(p)) == (Record(ps[0]) + Records(ps[1..])) + Record(p);
    }
  }

  /** Sent and queued bytes together are the records of the accepted packets. */
  lemma {:induction false} SessionConserves(r: Ring, es: seq<Event>)
    requires r.present && r.bytes == []
    ensures var s := PlayFrom(r, es);
      s.sent + s.ring.bytes == Records(s.accepted) && s.ring.present && s.ring.size == r.size
  {
    if es != [] {
      SessionConserves(r, es[..|es| - 1]);
      HandleConserves(PlayFrom(r, es[..|es| - 1]), es[|es| - 1]);
      hide Handle, Records;
    }
  }

  lemma HandleConserves(s: Session, e: Event)
    requires s.ring.present && s.sent + s.ring.bytes == Records(s.accepted)
    ensures var t := Handle(s, e);
      t.sent + t.ring.bytes == Records(t.accepted) && t.ring.present && t.ring.size == s.ring.size
  {
    hide Record, Records;
    match e
    case Offer(p, free) =>
      RecordsSnoc(s.accepted, p);
      assert s.sent + (s.ring.bytes + Record(p)) == (s.sent + s.ring.bytes) + Record(p);
    case Chunk =>
      var (t, out) := Take(s.ring, SEND_BUF);
      TakeSplits(s.ring, SEND_BUF);
      assert (s.sent + out) + t.bytes == s.sent + (out + t.bytes);
  }

  /** Only packets that were offered are accepted. */
  lemma {:induction false} AcceptedWereOffered(r: Ring, es: seq<Event>, p: Packet)
    requires p in PlayFrom(r, es).accepted
    ensures exists i :: 0 <= i < |es| && es[i].Offer? && es[i].p == p
  {
    var init, e := es[..|es| - 1], es[|es| - 1];
    if p in PlayFrom(r, init).accepted {
      AcceptedWereOffered(r, init, p);
      var i :| 0 <= i < |init| && init[i].Offer? && init[i].p == p;
      assert es[i] == init[i];
    } else {
      assert e.Offer? && e.p == p && es[|es| - 1] == e;
    }
    hide Handle;
  }

  /**
   End to end: without a reset, whatever the interleaving of packets and reads, what the
   client has received decodes to a prefix of the accepted packets in order, and to all of
   them once the ring is empty.
   */
  lemma StreamDecodes(size: nat, es: seq<Event>)
    requires AllEncodable(es)
    ensures var s := Play(size, es);
      && Decode(s.sent).0 <= s.accepted
      && (s.ring.bytes == [] ==> Decode(s.sent) == (s.accepted, []))
  {
    FromEmptyDecodes(Ring(true, size, [], 0, false), es);
  }

  ghost predicate AllEncodable(es: seq<Event>) {
    forall i :: 0 <= i < |es| && es[i].Offer? ==> Encodable(es[i].p)
  }

  lemma FromEmptyDecodes(r: Ring, es: seq<Event>)
    requires r.present && r.bytes == [] && AllEncodable(es)
    ensures var s := PlayFrom(r, es);
      && (forall i :: 0 <= i < |s.accepted| ==> Encodable(s.accepted[i]))
      && Decode(s.sent).0 <= s.accepted && s.sent == Records(Decode(s.sent).0) + Decode(s.sent).1
      && (s.ring.bytes == [] ==> Decode(s.sent) == (s.accepted, []))
  {
    SessionConserves(r, es);
    var s := PlayFrom(r, es);
    assert s.sent <= Records(s.accepted);
    forall i | 0 <= i < |s.accepted| ensures Encodable(s.accepted[i]) {
      AcceptedWereOffered(r, es, s.accepted[i]);
    }
    PrefixDecodes(s.accepted, s.sent);
  }

  // ----- a reset in the middle of a session -----

  lemma {:induction false} DecodeBehind(qs: seq<Packet>, tail: seq<u8>)
    requires forall i :: 0 <= i < |qs| ==> Encodable(qs[i])
    ensures Decode(Records(qs) + tail) == (qs + Decode(tail).0, Decode(tail).1)
  {
    hide Decode, Record;
    if qs == [] {
      assert Records(qs) + tail == tail && qs + Decode(tail).0 == Decode(tail).0;
    } else {
      assert Records(qs) + tail == Record(qs[0]) + (Records(qs[1..]) + tail);
      DecodeBehind(qs[1..], tail);
      RecordReads(qs[0], Records(qs[1..]) + tail);
      var ds := Decode(tail).0;
      assert [qs[0]] + (qs[1..] + ds) == qs + ds;
    }
  }

  lemma Cancel(a: seq<Packet>, x: seq<Packet>, y: seq<Packet>)
    ensures a + x == a + y ==> x == y
  {
    assert (a + x)[|a|..] == x && (a + y)[|a|..] == y;
  }

  /** What the client receives when the ring is cleared between two stretches of a session. */
  function Stream(size: nat, first: seq<Event>, second: seq<Event>): seq<u8> {
    var s := Play(size, first);
    s.sent + PlayFrom(Cleared(s.ring), second).sent
  }

  /** A reset on a record boundary: the packets sent before it, then a prefix of those accepted after it. */
  lemma ResetOnBoundary(size: nat, first: seq<Event>, second: seq<Event>)
    requires AllEncodable(first) && AllEncodable(second) && Decode(Play(size, first).sent).1 == []
    ensures var s := Play(size, first);
      var t := PlayFrom(Cleared(s.ring), second);
      var qs := Decode(Stream(size, first, second)).0;
      && Decode(s.sent).0 <= qs <= Decode(s.sent).0 + t.accepted
      && (t.ring.bytes == [] ==> qs == Decode(s.sent).0 + t.accepted)
  {
    var s := Play(size, first);
    FirstStretch(size, first);
    FromEmptyDecodes(Cleared(s.ring), second);
    var t := PlayFrom(Cleared(s.ring), second);
    var qs := Decode(s.sent).0;
    hide PlayFrom, Play, Decode, Records;
    assert s.sent == Records(qs) by {
      assert Records(qs) + [] == Records(qs);
    }
    DecodeBehind(qs, t.sent);
  }

  /** What is sent before the reset is whole records and a rest. */
  lemma FirstStretch(size: nat, first: seq<Event>)
    requires AllEncodable(first)
    ensures var s := Play(size, first);
      && s.ring.present && s.ring.size == size
      && s.sent == Records(Decode(s.sent).0) + Decode(s.sent).1
      && forall i :: 0 <= i < |Decode(s.sent).0| ==> Encodable(Decode(s.sent).0[i])
  {
    SessionConserves(Ring(true, size, [], 0, false), first);
    FromEmptyDecodes(Ring(true, size, [], 0, false), first);
    hide PlayFrom, Decode, Records;
  }

  /**
   With a reset while a client streams, every continuation decodes to the packets sent and
   then those accepted if and only if the bytes sent before it end on a record boundary.
   */
  lemma ResetDecodesIff(size: nat, first: seq<Event>)
    requires AllEncodable(first) && size >= HEADER
    ensures (forall second :: AllEncodable(second) && PlayFrom(Cleared(Play(size, first).ring), second).ring.bytes == [] ==>
        Decode(Stream(size, first, second)).0 ==
          Decode(Play(size, first).sent).0 + PlayFrom(Cleared(Play(size, first).ring), second).accepted)
      <==> Decode(Play(size, first).sent).1 == []
  {
    var s := Play(size, first);
    if Decode(s.sent).1 == [] {
      forall second | AllEncodable(second) && PlayFrom(Cleared(s.ring), second).ring.bytes == []
        ensures Decode(Stream(size, first, second)).0 == Decode(s.sent).0 + PlayFrom(Cleared(s.ring), second).accepted {
        ResetOnBoundary(size, first, second);
      }
    } else {
      var second := TornBy(size, first);
    }
  }

  /** Otherwise one packet more is misread: its record is taken for the rest of the torn one. */
  lemma TornBy(size: nat, first: seq<Event>) returns (second: seq<Event>)
    requires AllEncodable(first) && size >= HEADER && Decode(Play(size, first).sent).1 != []
    ensures AllEncodable(second)
    ensures PlayFrom(Cleared(Play(size, first).ring), second).ring.bytes == []
    ensures Decode(Stream(size, first, second)).0 !=
      Decode(Play(size, first).sent).0 + PlayFrom(Cleared(Play(size, first).ring), second).accepted
  {
    var s := Play(size, first);
    FirstStretch(size, first);
    var (qs, rest) := Decode(s.sent);
    var p := Packet(if rest[0] == 0 then 1 else 0, 0, 0, []);
    second := [Offer(p, true), Chunk];
    OneThrough(Cleared(s.ring), p);
    hide PlayFrom, Play, Decode, Record, Records;
    MisreadsOne(qs, rest, p);
    assert Stream(size, first, second) == Records(qs) + rest + Record(p);
  }

  lemma MisreadsOne(qs: seq<Packet>, rest: seq<u8>, p: Packet)
    requires forall i :: 0 <= i < |qs| ==> Encodable(qs[i])
    requires rest != [] && p.sec < 0x100 && p.sec != rest[0]
    ensures Decode(Records(qs) + rest + Record(p)).0 != qs + [p]
  {
    var tail := rest + Record(p);
    hide Decode, Record, Records;
    assert Records(qs) + rest + Record(p) == Records(qs) + tail;
    DecodeBehind(qs, tail);
    assert tail[0] == rest[0];
    FirstSecond(tail, p);
    Cancel(qs, Decode(tail).0, [p]);
  }

  /** A packet without data goes through an empty ring at once. */
  lemma OneThrough(r: Ring, p: Packet)
    requires r.present && r.bytes == [] && r.size >= HEADER && p.data == []
    ensures var s := PlayFrom(r, [Offer(p, true), Chunk]);
      s.ring.bytes == [] && s.sent == Record(p) && s.accepted == [p]
  {
    var es := [Offer(p, true), Chunk];
    RecordLength(p);
    hide Record;
    var one := [Offer(p, true)];
    assert es[..1] == one && one[..0] == [];
    var s0 := Session(r, [], []);
    assert PlayFrom(r, one[..0]) == s0;
    assert PlayFrom(r, one) == Handle(s0, one[0]);
    assert r.bytes + Record(p) == Record(p);
    var s1 := Session(r.(bytes := Record(p), signal := true), [p], []);
    assert Handle(s0, one[0]) == s1;
    assert PlayFrom(r, es) == Handle(s1, es[1]);
  }

  /** The first packet decoded starts with the first byte of the stream. */
  lemma FirstSecond(b: seq<u8>, p: Packet)
    requires b != [] && p.sec < 0x100 && p.sec != b[0]
    ensures Decode(b).0 != [p]
  {
    if Decode(b).0 != [] {
      var x := FromLe(b[0..4]);
      assert x == b[0] + 0x100 * FromLe(b[1..4]) by {
        assert b[0..4][0] == b[0] && b[0..4][1..] == b[1..4];
      }
      LowByte(x, b[0], FromLe(b[1..4]));
      assert Decode(b).0[0].sec == x % M32;
    }
  }

  lemma LowByte(x: nat, lo: u8, hi: nat)
    requires x == lo + 0x100 * hi
    ensures x % M32 % 0x100 == lo
  {
  }
}
