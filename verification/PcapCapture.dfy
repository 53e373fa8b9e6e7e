/**
 The capture component's own state and loops: building and queueing one record, and the
 server task moving bytes from the ring to its client.
 */
module PcapCapture {
  import opened Words
  import opened RingSpec
  import opened RingBuffer
  import opened Pcap

  datatype Mode = Off | AclMonitor | Promiscuous

  class Capture {
    const ring: RingBuf
    var mode: Mode
    var connected: bool
    var captured: u32
    var snaplen: u16
    var sent: seq<u8>  // bytes handed to the client's socket in this session

    ghost predicate Valid()
      reads this, ring
    {
      ring.Valid() && snaplen <= SNAPLEN_MAX
    }

    constructor (r: RingBuf)
      requires r.Valid()
      ensures Valid() && ring == r && mode == Off && !connected && captured == 0 && snaplen == 96 && sent == []
    {
      ring := r;
      mode, connected, captured, snaplen, sent := Off, false, 0, 96, [];
    }

    /** The client streams what session `s` of `Pcap` says. */
    ghost predicate Streams(s: Session)
      reads this, ring, ring.data
    {
      Valid() && connected && ring.State() == s.ring && sent == s.sent
    }

    /** `pcap_set_snaplen`. */
    method SetSnaplen(n: u16) returns (ok: bool)
      modifies this`snaplen
      ensures ok <==> 64 <= n <= SNAPLEN_MAX
      ensures snaplen == if ok then n else old(snaplen)
    {
      if n < 64 || n > SNAPLEN_MAX {
        return false;
      }
      snaplen := n;
      return true;
    }

    /**
     `pcap_set_mode`; `running` says whether the server is there or could be started. Without
     it capture cannot be turned on; turning it on clears the counter and the ring.
     */
    method SetMode(m: Mode, running: bool)
      requires Valid()
      modifies this`mode, this`captured, ring
      ensures Valid() && ring.data == old(ring.data)
      ensures mode == if m != Off && !running then old(mode) else m
      ensures var on := old(mode) == Off && m != Off && running;
        && captured == (if on then 0 else old(captured))
        && ring.State() == (if on then Cleared(old(ring.State())) else old(ring.State()))
    {
      var oldMode := mode;
      if m != Off && !running {
        return;
      }
      mode := m;
      if oldMode == Off && m != Off {
        captured := 0;
        ring.Reset();
      }
    }

    /** `pcap_capture_packet`: header, gathered bytes, one all-or-nothing write. */
    method CapturePacket(chain: Chain, sec: u32, usec: u32, free: bool, ghost s: Session)
      requires Valid() && |Flatten(chain)| < M16
      modifies this`captured, ring, ring.data
      ensures Valid() && ring.data == old(ring.data)
      ensures var (r, ok) := Put(old(ring.State()), Record(Captured(sec, usec, chain, snaplen)), free);
        if connected then ring.State() == r && captured == (if ok then Inc32(old(captured)) else old(captured))
        else ring.State() == old(ring.State()) && captured == old(captured)
      ensures old(Streams(s)) ==> Streams(Handle(s, Offer(Captured(sec, usec, chain, snaplen), free)))
    {
      if !connected {
        return;
      }
      var total := |Flatten(chain)|;
      var incl := if total > snaplen then snaplen else total;
      var header := Le(sec, 4) + Le(usec, 4) + Le(incl, 4) + Le(total, 4);
      var buf := new u8[HEADER + SNAPLEN_MAX];
      Copy(buf, 0, header);
      assert buf[..HEADER] == header;
      Gather(buf, HEADER, chain, incl);
      var record := buf[..HEADER + incl];
      assert record == buf[..HEADER] + buf[HEADER..HEADER + incl];
      assert record == Record(Captured(sec, usec, chain, snaplen));
      var ok := ring.Write(record, free);
      if ok {
        captured := Inc32(captured);
      }
    }

    /**
     `send_to_client`: `results` are what the socket's send calls return in turn, -1 for a
     full socket, less for an error. All of the data goes out, or a prefix and a failure.
     */
    method SendToClient(data: seq<u8>, results: seq<int>) returns (ok: bool, ghost k: nat)
      modifies this`sent
      ensures k <= |data| && sent == old(sent) + data[..k]
      ensures ok ==> k == |data|
    {
      var i := 0;
      k := 0;
      var remaining := |data|;
      while remaining > 0
        invariant remaining >= 0 && k + remaining == |data| && i <= |results|
        invariant sent == old(sent) + data[..k]
        decreases |results| - i
      {
        if i == |results| {
          return false, k;
        }
        var n := results[i];
        i := i + 1;
        if n < 0 {
          if n == -1 {
            continue;
          }
          return false, k;
        }
        if n > remaining {
          return false, k;  // a socket never reports more than it was given
        }
        var at := |data| - remaining;
        sent := sent + data[at..at + n];
        assert data[..at + n] == data[..at] + data[at..at + n];
        remaining := remaining - n;
        k := k + n;
      }
      ok := true;
    }

    /** One turn of the server's streaming loop: a chunk off the ring, all of it to the client or the session ends. */
    method ServeOnce(stillThere: bool, results: seq<int>, ghost s: Session) returns (alive: bool)
      requires Valid()
      modifies this`sent, ring
      ensures Valid() && ring.data == old(ring.data)
      ensures var (r, out) := Take(old(ring.State()), SEND_BUF);
        ring.State() == r && (alive ==> sent == old(sent) + out) && (out == [] ==> alive == stillThere)
      ensures var out := Take(old(ring.State()), SEND_BUF).1;
        exists k :: 0 <= k <= |out| && sent == old(sent) + out[..k]
      ensures old(Streams(s)) && alive ==> Streams(Handle(s, Chunk))
    {
      var out := ring.Read(SEND_BUF);
      if |out| == 0 {
        assert sent == old(sent) + out[..0];
        return stillThere;
      }
      ghost var k;
      alive, k := SendToClient(out, results);
      assert k == |out| ==> out[..k] == out;
    }
  }
}
