/**
 DHCP options (RFC 2132): the reader of a client's options and the writer of the
 server's, over the tag-length-value grammar both of them use.
 */
module DhcpOptions {
  import opened Words
  import opened DhcpAddress

  const PAD: u8 := 0
  const SUBNET_MASK: u8 := 1
  const ROUTER: u8 := 3
  const DNS_SERVER: u8 := 6
  const HOSTNAME: u8 := 12
  const INTERFACE_MTU: u8 := 26
  const BROADCAST_ADDRESS: u8 := 28
  const ROUTER_DISCOVERY: u8 := 31
  const VENDOR: u8 := 43
  const REQ_IPADDR: u8 := 50
  const LEASE_TIME: u8 := 51
  const MSG_TYPE: u8 := 53
  const SERVER_ID: u8 := 54
  const CAPTIVE_PORTAL: u8 := 114
  const END: u8 := 255

  const DISCOVER: u8 := 1
  const REQUEST: u8 := 3
  const DECLINE: u8 := 4
  const RELEASE: u8 := 7

  const MAX_HOSTNAME: int := 32

  datatype Opt = Opt(code: u8, data: seq<u8>)

  // ----- the grammar -----

  /** The options of a field: pads skipped, up to the end tag or the first truncated option. */
  function Decode(b: seq<u8>): seq<Opt> {
    if |b| == 0 || b[0] == END then []
    else if b[0] == PAD then Decode(b[1..])
    else if |b| < 2 || 2 + b[1] > |b| then []
    else [Opt(b[0], b[2..2 + b[1]])] + Decode(b[2 + b[1]..])
  }

  function Encode(opts: seq<Opt>): seq<u8>
    requires Encodable(opts)
  {
    if opts == [] then []
    else [opts[0].code, |opts[0].data|] + opts[0].data + Encode(opts[1..])
  }

  predicate Encodable(opts: seq<Opt>) {
    forall i :: 0 <= i < |opts| ==> opts[i].code != PAD && opts[i].code != END && |opts[i].data| < 0x100
  }

  /** Reading back what was written gives the same options, whatever follows the end tag. */
  lemma {:induction false} DecodeEncode(opts: seq<Opt>, rest: seq<u8>)
    requires Encodable(opts)
    ensures Decode(Encode(opts) + [END] + rest) == opts
  {
    if opts != [] {
      var o := opts[0];
      var tail := Encode(opts[1..]) + [END] + rest;
      var b := Encode(opts) + [END] + rest;
      assert b == [o.code, |o.data|] + o.data + tail;
      assert b[2..2 + b[1]] == o.data;
      assert b[2 + b[1]..] == tail;
      DecodeEncode(opts[1..], rest);
    }
  }

  /** What lies in a field: single pad bytes and options. */
  datatype Item = Pad | Told(o: Opt)

  predicate Writable(x: Item) {
    x.Told? ==> 0 < x.o.code < 255 && |x.o.data| < 0x100
  }

  ghost predicate AllWritable(xs: seq<Item>) {
    forall i :: 0 <= i < |xs| ==> Writable(xs[i])
  }

  function ItemBytes(x: Item): seq<u8>
    requires Writable(x)
  {
    match x case Pad => [0] case Told(o) => [o.code, |o.data|] + o.data
  }

  ghost function Wire(xs: seq<Item>): seq<u8>
    requires AllWritable(xs)
  {
    if xs == [] then [] else ItemBytes(xs[0]) + Wire(xs[1..])
  }

  /** The options among them, in order. */
  ghost function Opts(xs: seq<Item>): seq<Opt> {
    if xs == [] then [] else (match xs[0] case Pad => [] case Told(o) => [o]) + Opts(xs[1..])
  }

  /** Nothing more can be read: the field is over, the end tag stands there, or an option longer than the rest. */
  predicate Over(b: seq<u8>) {
    b == [] || b[0] == 255 || (b[0] != 0 && (|b| == 1 || 2 + b[1] > |b|))
  }

  /** The reader finds exactly the options of a field, whatever pads lie between them and however it ends. */
  lemma {:induction false} DecodeWire(xs: seq<Item>, tail: seq<u8>)
    requires AllWritable(xs) && Over(tail)
    ensures Decode(Wire(xs) + tail) == Opts(xs)
  {
    if xs == [] {
      assert Wire(xs) + tail == tail;
    } else {
      var b, more := Wire(xs) + tail, Wire(xs[1..]) + tail;
      DecodeWire(xs[1..], tail);
      hide Wire, Opts, Over;
      WireFirst(xs, tail);
      match xs[0]
      case Pad =>
        assert b[1..] == more;
      case Told(o) =>
        assert b[2..2 + b[1]] == o.data && b[2 + b[1]..] == more;
    }
  }

  lemma WireFirst(xs: seq<Item>, tail: seq<u8>)
    requires AllWritable(xs) && xs != []
    ensures Opts(xs) == (match xs[0] case Pad => [] case Told(o) => [o]) + Opts(xs[1..])
    ensures Wire(xs) + tail == ItemBytes(xs[0]) + (Wire(xs[1..]) + tail)
  {
  }

  /** And every field is one of those. */
  lemma {:induction false} EveryField(b: seq<u8>) returns (xs: seq<Item>, tail: seq<u8>)
    ensures AllWritable(xs) && Over(tail) && b == Wire(xs) + tail
    decreases |b|
  {
    if Over(b) {
      xs, tail := [], b;
    } else {
      hide Wire, Over, ItemBytes;
      var x, rest := FirstItem(b);
      var ys;
      ys, tail := EveryField(rest);
      xs := [x] + ys;
      assert xs[1..] == ys;
      WireFirst(xs, tail);
    }
  }

  lemma FirstItem(b: seq<u8>) returns (x: Item, rest: seq<u8>)
    requires !Over(b)
    ensures Writable(x) && b == ItemBytes(x) + rest && |rest| < |b|
  {
    if b[0] == 0 {
      x, rest := Pad, b[1..];
    } else {
      x, rest := Told(Opt(b[0], b[2..2 + b[1]])), b[2 + b[1]..];
    }
  }

  /** No decoded option is longer than its length byte can say. */
  lemma {:induction false} DecodedAreShort(b: seq<u8>, i: nat)
    requires i < |Decode(b)|
    ensures |Decode(b)[i].data| < 0x100
    decreases |b|
  {
    if b[0] == PAD {
      DecodedAreShort(b[1..], i);
    } else if i > 0 {
      DecodedAreShort(b[2 + b[1]..], i - 1);
    }
  }

  // ----- reading a client's options -----

  datatype AddressTest = Unasked | Matches | Differs

  /** What the reading loop remembers: the message type, the requested-address test, the host name. */
  datatype Summary = Summary(msgType: u8, asked: AddressTest, hostname: seq<u8>)

  predicate HostChar(c: u8) {
    0x61 <= c <= 0x7A || 0x41 <= c <= 0x5A || 0x30 <= c <= 0x39 || c == 0x2D || c == 0x2E || c == 0x5F
  }

  function Clean(c: u8): u8 { if HostChar(c) then c else 0x5F }

  /** The host name kept from option 12: cut to 31 bytes, other bytes replaced by `_`. */
  function Sanitized(data: seq<u8>): (r: seq<u8>)
    ensures |r| == if |data| < MAX_HOSTNAME then |data| else MAX_HOSTNAME - 1
    ensures forall i :: 0 <= i < |r| ==> HostChar(r[i])
    ensures forall i :: 0 <= i < |r| && HostChar(data[i]) ==> r[i] == data[i]
  {
    var n := if |data| < MAX_HOSTNAME then |data| else MAX_HOSTNAME - 1;
    seq(n, i requires 0 <= i < n => Clean(data[i]))
  }

  function FirstIp(data: seq<u8>): Ip
    requires |data| >= 4
  {
    Ip(data[0], data[1], data[2], data[3])
  }

  predicate Telling(o: Opt, code: u8) {
    o.code == code && |o.data| >= if code == REQ_IPADDR then 4 else 1
  }

  function Note(s: Summary, o: Opt, client: Ip): Summary {
    if Telling(o, MSG_TYPE) then s.(msgType := o.data[0])
    else if Telling(o, HOSTNAME) then s.(hostname := Sanitized(o.data))
    else if Telling(o, REQ_IPADDR) then s.(asked := if FirstIp(o.data) == client then Matches else Differs)
    else s
  }

  function Summarize(opts: seq<Opt>, client: Ip): Summary {
    if opts == [] then Summary(0, Unasked, [])
    else Note(Summarize(opts[..|opts| - 1], client), opts[|opts| - 1], client)
  }

  /** `i` is the last option with that code and enough data to be looked at. */
  predicate LastOf(opts: seq<Opt>, code: u8, i: nat) {
    && i < |opts|
    && Telling(opts[i], code)
    && forall j :: i < j < |opts| ==> !Telling(opts[j], code)
  }

  /** Every field of the summary comes from the last usable option that carries it. */
  lemma {:induction false} SummaryIsLast(opts: seq<Opt>, client: Ip, code: u8, i: nat)
    requires LastOf(opts, code, i)
    ensures var s := Summarize(opts, client);
      && (code == MSG_TYPE ==> s.msgType == opts[i].data[0])
      && (code == HOSTNAME ==> s.hostname == Sanitized(opts[i].data))
      && (code == REQ_IPADDR ==> s.asked == if FirstIp(opts[i].data) == client then Matches else Differs)
  {
    var n := |opts| - 1;
    if i < n {
      var init := opts[..n];
      assert LastOf(init, code, i);
      SummaryIsLast(init, client, code, i);
      assert !Telling(opts[n], code);
    }
  }

  /** A field no usable option carries keeps its default. */
  lemma {:induction false} SummaryDefault(opts: seq<Opt>, client: Ip, code: u8)
    requires forall i :: 0 <= i < |opts| ==> !Telling(opts[i], code)
    ensures var s := Summarize(opts, client);
      && (code == MSG_TYPE ==> s.msgType == 0)
      && (code == HOSTNAME ==> s.hostname == [])
      && (code == REQ_IPADDR ==> s.asked == Unasked)
  {
    if opts != [] {
      SummaryDefault(opts[..|opts| - 1], client, code);
    }
  }

  /** The options before `at` are read into `done`, and noted in `s`. */
  ghost predicate Reading(b: seq<u8>, at: nat, done: seq<Opt>, client: Ip, s: Summary) {
    at <= |b| && Decode(b) == done + Decode(b[at..]) && s == Summarize(done, client)
  }

  /** The reading loop over the raw bytes. */
  method ScanOptions(b: seq<u8>, client: Ip) returns (s: Summary)
    ensures s == Summarize(Decode(b), client)
  {
    hide Note, Summarize, Decode, Reading;
    s := Summary(0, Unasked, []);
    var at := 0;
    ghost var done: seq<Opt> := [];
    ReadNone(b, client);
    while at < |b|
      invariant at <= |b| && Reading(b, at, done, client, s)
    {
      if b[at] == PAD {
        ReadPad(b, at, done, client, s);
        at := at + 1;
        continue;
      }
      if b[at] == END || at + 1 >= |b| || at + 2 + b[at + 1] > |b| {
        break;
      }
      var data := b[at + 2..at + 2 + b[at + 1]];
      ReadOne(b, at, done, client, s);
      s := NoteOption(s, b[at], data, client);
      done := done + [Opt(b[at], data)];
      at := at + 2 + |data|;
    }
    ReadAll(b, at, done, client, s);
  }

  lemma ReadNone(b: seq<u8>, client: Ip)
    ensures Reading(b, 0, [], client, Summary(0, Unasked, []))
  {
    assert b[0..] == b && [] + Decode(b) == Decode(b);
    hide Decode;
  }

  lemma ReadPad(b: seq<u8>, at: nat, done: seq<Opt>, client: Ip, s: Summary)
    requires at < |b| && b[at] == PAD && Reading(b, at, done, client, s)
    ensures Reading(b, at + 1, done, client, s)
  {
    assert b[at..][1..] == b[at + 1..];
    hide Summarize;
  }

  lemma ReadOne(b: seq<u8>, at: nat, done: seq<Opt>, client: Ip, s: Summary)
    requires at + 1 < |b| && b[at] != PAD && b[at] != END && at + 2 + b[at + 1] <= |b|
    requires Reading(b, at, done, client, s)
    ensures var o := Opt(b[at], b[at + 2..at + 2 + b[at + 1]]);
      Reading(b, at + 2 + b[at + 1], done + [o], client, Note(s, o, client))
  {
    hide Summarize, Decode, Note;
    DecodeOne(b, at, done);
    SummarizeOne(done, Opt(b[at], b[at + 2..at + 2 + b[at + 1]]), client);
  }

  /** Nothing more is read at the end, at the end tag, or at an option cut short. */
  lemma ReadAll(b: seq<u8>, at: nat, done: seq<Opt>, client: Ip, s: Summary)
    requires Reading(b, at, done, client, s)
    requires at < |b| && b[at] != END ==> b[at] != PAD && (at + 1 < |b| ==> at + 2 + b[at + 1] > |b|)
    ensures s == Summarize(Decode(b), client)
  {
    assert Decode(b[at..]) == [];
    assert done + [] == done;
    hide Summarize;
  }

  lemma SummarizeOne(done: seq<Opt>, o: Opt, client: Ip)
    ensures Summarize(done + [o], client) == Note(Summarize(done, client), o, client)
  {
    assert (done + [o])[..|done|] == done;
  }

  lemma DecodeOne(b: seq<u8>, at: nat, done: seq<Opt>)
    requires at + 1 < |b| && b[at] != PAD && b[at] != END && at + 2 + b[at + 1] <= |b|
    ensures var o := Opt(b[at], b[at + 2..at + 2 + b[at + 1]]);
      done + Decode(b[at..]) == (done + [o]) + Decode(b[at + 2 + b[at + 1]..])
  {
    var left := b[at..];
    var len := b[at + 1];
    assert left[2..2 + len] == b[at + 2..at + 2 + len];
    assert left[2 + len..] == b[at + 2 + len..];
  }

  /** The `switch` on one option. */
  method NoteOption(s: Summary, code: u8, data: seq<u8>, client: Ip) returns (r: Summary)
    requires |data| < 0x100
    ensures r == Note(s, Opt(code, data), client)
  {
    r := s;
    if code == MSG_TYPE {
      if |data| >= 1 {
        r := r.(msgType := data[0]);
      }
    } else if code == HOSTNAME {
      if |data| > 0 {
        var name := CleanHostname(data);
        r := r.(hostname := name);
      }
    } else if code == REQ_IPADDR {
      if |data| >= 4 {
        var same := client.b0 == data[0] && client.b1 == data[1] && client.b2 == data[2] && client.b3 == data[3];
        r := r.(asked := if same then Matches else Differs);
      }
    }
  }

  method CleanHostname(data: seq<u8>) returns (name: seq<u8>)
    ensures name == Sanitized(data)
  {
    var n := |data|;
    if n >= MAX_HOSTNAME {
      n := MAX_HOSTNAME - 1;
    }
    name := [];
    for k := 0 to n
      invariant name == Sanitized(data)[..k]
    {
      var c := data[k];
      var ok := (c >= 0x61 && c <= 0x7A) || (c >= 0x41 && c <= 0x5A) ||
        (c >= 0x30 && c <= 0x39) || c == 0x2D || c == 0x2E || c == 0x5F;
      name := name + [if ok then c else 0x5F];
    }
  }

  // ----- the verdict on a message -----

  /** `DHCPS_STATE_*`. */
  datatype State = Offer | Decline | Ack | Nak | Idle | Release

  /** What `parse_options` returns. */
  function Decide(s: Summary, renew: bool): State {
    if s.msgType == DISCOVER then Offer
    else if s.msgType == DECLINE then Decline
    else if s.msgType == RELEASE then Release
    else match s.asked
      case Matches => Ack
      case Differs => Nak
      case Unasked => if s.msgType != REQUEST then Idle else if renew then Ack else Nak
  }
}
