/**
 The lease allocator as functions on values: what one client message and one timer tick
 do to the lease list, the address cursor and the flags of `struct dhcps_t`.
 */
module DhcpSpec {
  import opened Words
  import opened DhcpAddress
  import opened DhcpOptions

  const MAX_STATION: int := 16
  const MAX_RESERVATIONS: int := 10

  /** A hardware address: six bytes as one number. */
  type Mac = x: int | 0 <= x < 0x1_0000_0000_0000

  /** `struct dhcps_pool`. */
  datatype Lease = Lease(ip: Ip, mac: Mac, timer: u32, hostname: seq<u8>)

  /** `struct dhcp_reservation_entry`, as far as the allocator reads it. */
  datatype Reservation = Reservation(valid: bool, mac: Mac, ip: Ip)

  /** What stays fixed between messages: the pool, the full lease time in ticks, the reservation table. */
  datatype Config = Config(start: Ip, end: Ip, ticks: u32, reservations: seq<Reservation>)

  /** The fields of `struct dhcps_t` that messages change. `plus` is `client_address_plus`. */
  datatype Server = Server(
    leases: seq<Lease>, client: Ip, plus: Ip, renew: bool, declined: bool, hostname: seq<u8>)

  datatype Message = Message(cookie: bool, mac: Mac, ciaddr: Ip, options: seq<u8>)

  // ----- the reservation table -----

  /** `lookup_dhcp_reservation`: the address reserved for a MAC, 0.0.0.0 when there is none. */
  function Reserved(table: seq<Reservation>, mac: Mac): Ip {
    if table == [] then ANY
    else if table[0].valid && table[0].mac == mac then table[0].ip
    else Reserved(table[1..], mac)
  }

  /** The addresses `is_ip_reserved_for_other` answers yes to. */
  function Foreign(table: seq<Reservation>, mac: Mac): set<Ip> {
    set i | 0 <= i < |table| && table[i].valid && table[i].ip != ANY && table[i].mac != mac :: table[i].ip
  }

  /** The first address from `ip` on that is past the pool or not reserved for somebody else. */
  function Skip(foreign: set<Ip>, end: Ip, ip: Ip): Ip
    decreases |foreign|
  {
    if AtMost(ip, end) && ip in foreign then Skip(foreign - {ip}, end, Next(ip)) else ip
  }

  // ----- the walk over the lease list -----

  /** The walk's registers: cursor, candidate, first unused address, and whether that one is settled. */
  datatype Scan = Scan(plus: Ip, client: Ip, first: Ip, settled: bool)

  function ScanStep(s: Scan, ip: Ip): Scan {
    var s1 := if ip == s.plus then s.(plus := Next(s.plus), client := Next(s.plus)) else s;
    if s1.settled then s1
    else if Less(s1.first, ip) then s1.(settled := true)
    else s1.(first := Next(s1.first))
  }

  /** The registers after passing the first `k` leases. */
  function ScanTo(ls: seq<Lease>, k: nat, s: Scan): Scan
    requires k <= |ls|
  {
    if k == 0 then s else ScanStep(ScanTo(ls, k - 1, s), ls[k - 1].ip)
  }

  /** The index of the first lease of a MAC, or the length of the list. */
  function FindMac(ls: seq<Lease>, mac: Mac): (r: nat)
    ensures r <= |ls|
    ensures r < |ls| ==> ls[r].mac == mac
    ensures forall j :: 0 <= j < r ==> ls[j].mac != mac
  {
    if ls == [] || ls[0].mac == mac then 0 else 1 + FindMac(ls[1..], mac)
  }

  /** Where `node_insert_to_list` puts an address: before the first greater one. */
  function InsertPos(ls: seq<Lease>, ip: Ip): (r: nat)
    ensures r <= |ls|
    ensures r < |ls| ==> Less(ip, ls[r].ip)
    ensures forall j :: 0 <= j < r ==> AtMost(ls[j].ip, ip)
  {
    if ls == [] || Less(ip, ls[0].ip) then 0 else 1 + InsertPos(ls[1..], ip)
  }

  function InsertAt<T>(s: seq<T>, i: nat, x: T): seq<T>
    requires i <= |s|
  {
    s[..i] + [x] + s[i..]
  }

  function RemoveAt<T>(s: seq<T>, i: nat): seq<T>
    requires i < |s|
  {
    s[..i] + s[i + 1..]
  }

  // ----- one message -----

  /** The state at the label POOL_CHECK: `at` is the lease `pnode` points to, or the list's length for NULL. */
  datatype Claim = Claim(leases: seq<Lease>, at: nat, client: Ip, plus: Ip, renew: bool)

  function Start(c: Config, s: Server): Scan {
    Scan(s.plus, if s.leases == [] && !s.declined then c.start else s.plus, c.start, false)
  }

  /** The candidate address before reservations are looked at. */
  function Candidate(c: Config, s: Server): Ip {
    var scan := ScanTo(s.leases, |s.leases|, Start(c, s));
    if Less(c.end, scan.plus) then scan.first else scan.client
  }

  /** The address a MAC without a lease is given: its reservation, else the candidate past foreign ones. */
  function Chosen(c: Config, s: Server, mac: Mac): Ip {
    var r := Reserved(c.reservations, mac);
    if r != ANY then r else Skip(Foreign(c.reservations, mac), c.end, Candidate(c, s))
  }

  /** `parse_msg` up to POOL_CHECK. */
  function MakeClaim(c: Config, s: Server, m: Message): Claim {
    var k := FindMac(s.leases, m.mac);
    if k < |s.leases| then
      var l := s.leases[k];
      Claim(s.leases[k := l.(timer := c.ticks)], k, l.ip, ScanTo(s.leases, k, Start(c, s)).plus, l.ip == m.ciaddr)
    else
      var ip := Chosen(c, s, m.mac);
      if Less(c.end, ip) then
        Claim(s.leases, |s.leases|, ip, c.start, false)
      else
        var at := InsertPos(s.leases, ip);
        Claim(InsertAt(s.leases, at, Lease(ip, m.mac, c.ticks, [])), at, ip,
              if ip == c.end then c.start else Next(ip), false)
  }

  /** What the server sends back. */
  datatype Reply = NoReply | OfferReply(yiaddr: Ip) | AckReply(yiaddr: Ip) | NakReply(yiaddr: Ip)

  function Drop(ls: seq<Lease>, at: nat): seq<Lease> {
    if at < |ls| then RemoveAt(ls, at) else ls
  }

  /** Out of the pool or 0.0.0.0: the message is refused before its options are read. */
  predicate Refused(c: Config, q: Claim) {
    Less(c.end, q.client) || q.client == ANY
  }

  function Verdict(q: Claim, m: Message): State {
    Decide(Summarize(Decode(m.options), q.client), q.renew)
  }

  /** `parse_msg` from POOL_CHECK on, and the dispatch of `handle_dhcp`. */
  function Settle(c: Config, q: Claim, m: Message, hostname: seq<u8>): (Server, Reply) {
    if Refused(c, q) then
      (Server(Drop(q.leases, q.at), q.client, q.plus, q.renew, false, hostname), NakReply(q.client))
    else
      var name := Summarize(Decode(m.options), q.client).hostname;
      var v := Verdict(q, m);
      if v == Release || v == Nak || v == Decline then
        (Server(Drop(q.leases, q.at), ANY, q.plus, q.renew, v == Decline, name),
         if v == Nak then NakReply(ANY) else NoReply)
      else
        var kept := if q.at < |q.leases| then q.leases[q.at := q.leases[q.at].(hostname := name)] else q.leases;
        (Server(kept, q.client, q.plus, q.renew, false, name),
         if v == Offer then OfferReply(q.client) else if v == Ack then AckReply(q.client) else NoReply)
  }

  /** `handle_dhcp`: a message without the magic cookie changes nothing. */
  function Handle(c: Config, s: Server, m: Message): (Server, Reply) {
    if !m.cookie then (s, NoReply) else Settle(c, MakeClaim(c, s, m), m, s.hostname)
  }

  // ----- one timer tick -----

  /** Every timer one lower (wrapping), the leases that reach zero gone. */
  function Aged(ls: seq<Lease>): seq<Lease> {
    if ls == [] then []
    else
      var l := ls[|ls| - 1];
      var rest := Aged(ls[..|ls| - 1]);
      if Dec32(l.timer) == 0 then rest else rest + [l.(timer := Dec32(l.timer))]
  }

  /** The first lease with the least time left. */
  function Oldest(ls: seq<Lease>): (r: nat)
    requires ls != []
    ensures r < |ls|
    ensures forall j :: 0 <= j < |ls| ==> ls[r].timer <= ls[j].timer
    ensures forall j :: 0 <= j < r ==> ls[r].timer < ls[j].timer
  {
    var n := |ls| - 1;
    if n == 0 then 0
    else
      var r := Oldest(ls[..n]);
      if ls[n].timer < ls[r].timer then n else r
  }

  /** `dhcps_tmr`: the count that decides on eviction is kept in eight bits. */
  function Ticked(ls: seq<Lease>): seq<Lease> {
    var a := Aged(ls);
    if |a| % 0x100 > MAX_STATION then RemoveAt(a, Oldest(a)) else a
  }

  // ----- runs -----

  datatype Event = Arrives(m: Message) | Tick

  function Step(c: Config, s: Server, e: Event): Server {
    match e
    case Arrives(m) => Handle(c, s, m).0
    case Tick => s.(leases := Ticked(s.leases))
  }

  function Run(c: Config, s: Server, es: seq<Event>): Server {
    if es == [] then s else Step(c, Run(c, s, es[..|es| - 1]), es[|es| - 1])
  }

  /** The state after `dhcps_start`. */
  function Started(c: Config): Server {
    Server([], ANY, c.start, false, false, [])
  }
}
