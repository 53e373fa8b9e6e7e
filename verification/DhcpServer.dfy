/**
 The DHCP server as the program keeps it: a struct whose fields and linked lease list are
 updated in place by each message and tick. Every method is proved against `DhcpSpec`.
 */
module DhcpServer {
  import opened Words
  import opened DhcpAddress
  import opened DhcpOptions
  import opened DhcpSpec
  import opened DhcpReservations
  import opened LeaseList

  /** `htonl` back to the four bytes of an address. */
  method FromNumber(n: u32) returns (a: Ip)
    ensures Number(a) == n
  {
    var q1 := n / 0x100;
    var q2 := q1 / 0x100;
    a := Ip(q2 / 0x100, q2 % 0x100, q1 % 0x100, n % 0x100);
  }

  lemma KeptStays(poll: Poll, server: u32, k: nat)
    requires Startable(server, k) && Kept(poll, server, k)
    ensures PollSet(poll, server, k) == poll
  {
  }

  lemma FindIs(ls: seq<Lease>, mac: Mac, k: nat)
    requires k <= |ls|
    requires forall j :: 0 <= j < k ==> ls[j].mac != mac
    requires k < |ls| ==> ls[k].mac == mac
    ensures FindMac(ls, mac) == k
  {
  }

  const LEASE_TIME_DEF: u32 := 120

  /** The claim of a client without a lease. */
  function NewClaim(c: Config, s: Server, mac: Mac, renew: bool): Claim {
    var ip := Chosen(c, s, mac);
    if Less(c.end, ip) then Claim(s.leases, |s.leases|, ip, c.start, renew)
    else
      var at := InsertPos(s.leases, ip);
      Claim(InsertAt(s.leases, at, Lease(ip, mac, c.ticks, [])), at, ip,
            if ip == c.end then c.start else Next(ip), renew)
  }

  lemma ClaimNew(c: Config, s: Server, m: Message)
    requires FindMac(s.leases, m.mac) == |s.leases|
    ensures MakeClaim(c, s, m) == NewClaim(c, s, m.mac, false)
  {
  }

  lemma ClaimFound(c: Config, s: Server, m: Message, k: nat)
    requires FindMac(s.leases, m.mac) == k < |s.leases|
    ensures var l := s.leases[k];
      MakeClaim(c, s, m) == Claim(s.leases[k := l.(timer := c.ticks)], k, l.ip,
                                  ScanTo(s.leases, k, Start(c, s)).plus, l.ip == m.ciaddr)
  {
  }

  /** `struct dhcps_t`. */
  class Dhcps {
    var plist: Node?
    ghost var nodes: seq<Node>
    var client: Ip
    var plus: Ip
    var renew: bool
    var declined: bool
    var hostname: seq<u8>
    var enabled: bool
    var startIp: Ip
    var endIp: Ip
    var leaseTime: u32
    const unit: nat
    const table: array<Reservation>

    ghost predicate Valid()
      reads this, nodes, table
    {
      Chain(plist, nodes) && table.Length == MAX_RESERVATIONS
    }

    /** `lease_time * DHCPS_LEASE_UNIT / DHCPS_COARSE_TIMER_SECS`, in 32 bits. */
    function LeaseTicks(): u32
      reads this`leaseTime
    {
      leaseTime * unit % M32
    }

    ghost function Cfg(): Config
      reads this`startIp, this`endIp, this`leaseTime, table
    {
      Config(startIp, endIp, LeaseTicks(), table[..])
    }

    ghost function State(): Server
      reads this, nodes
    {
      Server(Values(nodes), client, plus, renew, declined, hostname)
    }

    /** `dhcps_new`: no range is set, the lease time is the default, and the reservation table is the program's. */
    constructor (unit: nat, table: array<Reservation>)
      requires table.Length == MAX_RESERVATIONS
      ensures Valid() && Idle() && !enabled && leaseTime == LEASE_TIME_DEF
      ensures this.unit == unit && this.table == table
    {
      plist, nodes := null, [];
      client, plus, renew, declined, hostname := ANY, ANY, false, false, [];
      enabled, startIp, endIp, leaseTime := false, ANY, ANY, LEASE_TIME_DEF;
      this.unit, this.table := unit, table;
    }

    /** No message has been handled yet. */
    ghost predicate Idle()
      reads this`nodes, this`client, this`renew, this`declined, this`hostname
    {
      nodes == [] && client == ANY && !renew && !declined && hostname == []
    }

    /** `lookup_dhcp_reservation`. */
    method LookupReservation(mac: Mac) returns (ip: Ip)
      ensures ip == Reserved(table[..], mac)
    {
      assert table[0..] == table[..];
      for i := 0 to table.Length
        invariant Reserved(table[..], mac) == Reserved(table[i..], mac)
      {
        assert table[i..][1..] == table[i + 1..];
        if table[i].valid && table[i].mac == mac {
          return table[i].ip;
        }
      }
      return ANY;
    }

    /** `is_ip_reserved_for_other`. */
    method IsReservedForOther(ip: Ip, mac: Mac) returns (b: bool)
      ensures b <==> ip in Foreign(table[..], mac)
    {
      if ip == ANY {
        return false;
      }
      for i := 0 to table.Length
        invariant forall j :: 0 <= j < i ==> !(table[j].valid && table[j].ip == ip && table[j].mac != mac)
      {
        if table[i].valid && table[i].ip == ip && table[i].mac != mac {
          assert table[..][i] == table[i];
          return true;
        }
      }
      return false;
    }

    /** The loop that skips addresses reserved for a different MAC. */
    method SkipForeign(mac: Mac)
      requires table.Length == MAX_RESERVATIONS
      modifies this`client
      ensures client == Skip(Foreign(table[..], mac), endIp, old(client))
    {
      ghost var foreign := Foreign(table[..], mac);
      ForeignIsSmall(table[..], mac);
      ghost var base, left := client, foreign;
      hide Foreign, Number, AtMost;
      while true
        invariant Skip(foreign, endIp, base) == Skip(left, endIp, client)
        invariant left <= foreign && Offset(base, client) + |left| == |foreign|
        invariant forall v :: v in foreign && v !in left ==> Offset(base, v) < Offset(base, client)
        decreases |left|
      {
        if !AtMost(client, endIp) {
          break;
        }
        var other := IsReservedForOther(client, mac);
        if !other {
          break;
        }
        OffsetNext(base, client);
        left := left - {client};
        client := Next(client);
      }
    }

    /** One lease of another client: the cursor and the first-unused search move on. */
    method Pass(ip: Ip, first: Ip, flag: bool) returns (first': Ip, flag': bool)
      modifies this`client, this`plus
      ensures Scan(plus, client, first', flag') == ScanStep(Scan(old(plus), old(client), first, flag), ip)
    {
      first', flag' := first, flag;
      if ip == plus {
        plus := Next(plus);
        client := plus;
      }
      if !flag {
        if Less(first, ip) {
          flag' := true;
        } else {
          first' := Next(first);
        }
      }
    }

    /** The loop over the list: it stops at the client's node, or has passed every lease. */
    method WalkList(mac: Mac, start: Ip) returns (found: Node?, first: Ip, ghost k: nat, ghost scan: Scan)
      requires Chain(plist, nodes)
      modifies this`client, this`plus
      ensures k == FindMac(Values(nodes), mac)
      ensures found == if k < |nodes| then nodes[k] else null
      ensures scan == ScanTo(Values(nodes), k, Scan(old(plus), old(client), start, false))
      ensures scan.plus == plus && scan.client == client && scan.first == first
    {
      hide FindMac, ScanStep, Chain, Values, NextIn;
      ghost var ls := Values(nodes);
      ghost var s0 := Scan(plus, client, start, false);
      found, first, k := null, start, 0;
      assert ScanTo(ls, 0, s0) == s0;
      hide ScanTo;
      var flag := false;
      var pback := plist;
      HeadOf(plist, nodes);
      while pback != null
        invariant Chain(plist, nodes) && Values(nodes) == ls
        invariant k <= |nodes| && pback == if k < |nodes| then nodes[k] else null
        invariant found == null && forall j :: 0 <= j < k ==> ls[j].mac != mac
        invariant Scan(plus, client, first, flag) == ScanTo(ls, k, s0)
        decreases |nodes| - k
      {
        AtNode(plist, nodes, k);
        if pback.mac == mac {
          found := pback;
          break;
        }
        first, flag := Pass(pback.ip, first, flag);
        pback := pback.next;
        k := k + 1;
        ScanUnfold(ls, k, s0);
      }
      FindIs(ls, mac, k);
      scan := Scan(plus, client, first, flag);
    }

    /** The registers set up, the walk, and what a client that is found leaves in them. */
    method Walk(mac: Mac, ciaddr: Ip) returns (found: Node?, first: Ip, ghost k: nat, ghost scan: Scan)
      requires Chain(plist, nodes)
      modifies this`client, this`plus, this`renew, this`declined
      ensures k == FindMac(Values(nodes), mac)
      ensures found == if k < |nodes| then nodes[k] else null
      ensures var c0 := if plist == null && !old(declined) then startIp else old(plus);
        scan == ScanTo(Values(nodes), k, Scan(old(plus), c0, startIp, false))
      ensures scan.plus == plus && scan.first == first
      ensures client == if found == null then scan.client else found.ip
      ensures renew <==> found != null && found.ip == ciaddr
      ensures !declined
    {
      hide FindMac, ScanTo, Chain, Values;
      client := plus;
      renew := false;
      if plist == null {
        if declined {
          declined := false;
        } else {
          client := startIp;
        }
      } else {
        declined := false;
      }
      found, first, k, scan := WalkList(mac, startIp);
      if found != null {
        if found.ip == ciaddr {
          renew := true;
        }
        client := found.ip;
      }
    }

    // ----- a new lease -----

    /** From the walk's registers to the address chosen for a client without a lease. */
    method Choose(mac: Mac, first: Ip, ghost s: Server, ghost scan: Scan)
      requires table.Length == MAX_RESERVATIONS
      requires scan == ScanTo(s.leases, |s.leases|, Start(Cfg(), s))
      requires client == scan.client && plus == scan.plus && first == scan.first
      modifies this`client
      ensures client == Chosen(Cfg(), s, mac)
    {
      hide Foreign, Skip, Reserved, ScanTo, Start;
      if Less(endIp, plus) {
        client := first;
      }
      SkipForeign(mac);
      var reserved := LookupReservation(mac);
      if reserved != ANY {
        client := reserved;
      }
    }

    /** The new lease linked in, and the cursor set behind it. */
    method Allocate(mac: Mac) returns (pnode: Node, ghost at: nat)
      requires Chain(plist, nodes)
      modifies this`plist, this`nodes, this`plus, nodes`next
      ensures at == old(InsertPos(Values(nodes), client)) && at < |nodes| && nodes[at] == pnode
      ensures Chain(plist, nodes)
      ensures Values(nodes) == old(InsertAt(Values(nodes), InsertPos(Values(nodes), client),
                                            Lease(client, mac, LeaseTicks(), [])))
      ensures forall i :: 0 <= i < |nodes| ==> nodes[i] in old(nodes) || fresh(nodes[i])
      ensures plus == if client == endIp then startIp else Next(client)
    {
      hide Chain, InsertPos, InsertAt, Values;
      ghost var ls, ns := Values(nodes), nodes;
      at := InsertPos(ls, client);
      pnode := new Node(Lease(client, mac, LeaseTicks(), []));
      ghost var ms: seq<Node>;
      plist, ms := Insert(plist, nodes, pnode);
      nodes := ms;
      InsertedValues(ns, at, pnode, ls);
      InsertMembers(ns, at, pnode);
      if client == endIp {
        plus := startIp;
      } else {
        plus := Next(client);
      }
    }

    // ----- starting -----

    /** The pool in host order, as `dhcps_poll_set` works on it. */
    ghost function Pool(): Poll
      reads this`enabled, this`startIp, this`endIp
    {
      Poll(enabled, Number(startIp), Number(endIp))
    }

    /**
     `dhcps_start`; `socket` says that `udp_new` succeeded. The server is neither end of its
     block; then it is not in the pool, the pool lies in its block and has at most 100
     addresses, the cursor is at its start, and a configured range that qualifies is kept.
     */
    method StartServer(server: Ip, k: nat, socket: bool) returns (ok: bool)
      requires k <= 32
      modifies this`enabled, this`startIp, this`endIp, this`plus
      ensures ok <==> socket && server != ANY && Startable(Number(server), k)
      ensures ok ==> plus == startIp && enabled
      ensures ok && Idle() ==> State() == Started(Cfg())
      ensures ok ==> !(Pool().start <= Number(server) <= Pool().end)
      ensures ok ==> BlockStart(Pool().start, k) == BlockStart(Pool().end, k) == BlockStart(Number(server), k)
      ensures ok && Pool().start <= Pool().end ==> Pool().end - Pool().start + 1 <= MAX_LEASE
      ensures ok && !Kept(old(Pool()), Number(server), k) ==> Pool().start <= Pool().end
      ensures ok && Kept(old(Pool()), Number(server), k) ==> Pool() == old(Pool())
      ensures ok ==> Pool() == PollSet(old(Pool()), Number(server), k)
      ensures !ok ==> plus == old(plus) && startIp == old(startIp) && endIp == old(endIp) && enabled == old(enabled)
    {
      if !socket || server == ANY {
        return false;
      }
      hide Number, PollSet, BlockStart, Pow2, Kept;
      var h := Number(server);
      var lo := NetworkPart(h, k);
      var host := HostPart(k);
      if h == lo || h == lo + host {
        return false;
      }
      PollSetPool(Poll(enabled, Number(startIp), Number(endIp)), h, k);
      if Kept(Poll(enabled, Number(startIp), Number(endIp)), h, k) {
        KeptStays(Poll(enabled, Number(startIp), Number(endIp)), h, k);
      }
      var poll := SetPoll(Poll(enabled, Number(startIp), Number(endIp)), h, k);
      enabled := poll.enable;
      startIp := FromNumber(poll.start);
      endIp := FromNumber(poll.end);
      plus := startIp;
      return true;
    }

    // ----- one message -----

    /** A client that is found keeps its lease, with a full timer. */
    method Refresh(pnode: Node, ghost k: nat)
      requires Chain(plist, nodes) && k < |nodes| && nodes[k] == pnode
      modifies pnode`timer
      ensures Chain(plist, nodes)
      ensures var ls := old(Values(nodes)); Values(nodes) == ls[k := ls[k].(timer := LeaseTicks())]
    {
      ghost var ls := Values(nodes);
      assert forall i :: 0 <= i < |nodes| && i != k ==> nodes[i] != pnode;
      hide Chain, Values;
      pnode.timer := LeaseTicks();
      forall i | 0 <= i < |nodes| && i != k ensures nodes[i].Value() == ls[i] {
        assert nodes[i] != pnode;
      }
      Replaced(ls, nodes, k);
    }

    /** A client that is not found gets an address and a lease, or nothing when the address is past the pool. */
    method NewLease(mac: Mac, first: Ip, ghost s: Server, ghost scan: Scan) returns (pnode: Node?, ghost at: nat)
      requires Valid()
      requires s.leases == Values(nodes) && scan == ScanTo(s.leases, |s.leases|, Start(Cfg(), s))
      requires client == scan.client && plus == scan.plus && first == scan.first
      modifies this`client, this`plus, this`plist, this`nodes, nodes`next
      ensures Valid()
      ensures client == Chosen(old(Cfg()), s, mac)
      ensures Claim(Values(nodes), at, client, plus, renew) == NewClaim(old(Cfg()), s, mac, renew)
      ensures pnode == if at < |nodes| then nodes[at] else null
      ensures forall i :: 0 <= i < |nodes| ==> nodes[i] in old(nodes) || fresh(nodes[i])
    {
      hide Values, InsertPos, InsertAt, Chosen, ScanTo, Less, Next, Start, Chain, Foreign;
      ValuesLength(nodes);
      Choose(mac, first, s, scan);
      if Less(endIp, client) {
        plus := startIp;
        at, pnode := |nodes|, null;
      } else {
        pnode, at := Allocate(mac);
      }
    }

    /** The walk, in terms of the state `s` the message met. */
    method LookUp(m: Message, ghost s: Server) returns (found: Node?, first: Ip, ghost k: nat, ghost scan: Scan)
      requires Chain(plist, nodes) && s == State()
      modifies this`client, this`plus, this`renew, this`declined
      ensures k == FindMac(s.leases, m.mac) && |s.leases| == |nodes|
      ensures found == if k < |nodes| then nodes[k] else null
      ensures scan == ScanTo(s.leases, k, Start(Cfg(), s))
      ensures scan.plus == plus && scan.first == first
      ensures client == if found == null then scan.client else s.leases[k].ip
      ensures renew <==> found != null && s.leases[k].ip == m.ciaddr
      ensures !declined
    {
      hide Values, FindMac, ScanTo, Chain;
      EmptyChain(plist, nodes);
      ValuesLength(nodes);
      found, first, k, scan := Walk(m.mac, m.ciaddr);
      if found != null {
        ValueAt(nodes, k);
      }
    }

    /** `parse_msg` up to the label POOL_CHECK. */
    method ClaimLease(m: Message) returns (pnode: Node?, ghost at: nat)
      requires Valid()
      modifies this`client, this`plus, this`renew, this`declined, this`plist, this`nodes, nodes`next, nodes`timer
      ensures Valid()
      ensures Claim(Values(nodes), at, client, plus, renew) == MakeClaim(old(Cfg()), old(State()), m)
      ensures !declined
      ensures pnode == if at < |nodes| then nodes[at] else null
      ensures forall i :: 0 <= i < |nodes| ==> nodes[i] in old(nodes) || fresh(nodes[i])
    {
      hide Values, FindMac, ScanTo, Chain, MakeClaim, NewClaim;
      ghost var c, s := Cfg(), State();
      var found, first, k, scan := LookUp(m, s);
      if found != null {
        at, pnode := k, found;
        Refresh(pnode, k);
        ClaimFound(c, s, m, k);
      } else {
        pnode, at := NewLease(m.mac, first, s, scan);
        ClaimNew(c, s, m);
      }
    }

    /** `node_remove_from_list` and `free` for the client's lease. */
    method Unlink(pnode: Node, ghost at: nat)
      requires Chain(plist, nodes) && at < |nodes| && nodes[at] == pnode
      modifies this`plist, this`nodes, nodes`next
      ensures Chain(plist, nodes) && |nodes| == |old(nodes)| - 1
      ensures Values(nodes) == RemoveAt(old(Values(nodes)), at)
      ensures nodes == RemoveAt(old(nodes), at)
      ensures forall i :: 0 <= i < |nodes| ==> nodes[i] in old(nodes)
    {
      hide Values, Chain, RemoveAt;
      ghost var ls, ns, ms := Values(nodes), nodes, nodes;
      plist, ms := Remove(plist, nodes, pnode, at);
      nodes := ms;
      RemovedValues(ns, at, ls);
    }

    /** The host name copied into the lease. */
    method Rename(pnode: Node, ghost at: nat, name: seq<u8>)
      requires Chain(plist, nodes) && at < |nodes| && nodes[at] == pnode
      modifies pnode`hostname
      ensures Chain(plist, nodes)
      ensures var ls := old(Values(nodes)); Values(nodes) == ls[at := ls[at].(hostname := name)]
    {
      ghost var ls := Values(nodes);
      assert forall i :: 0 <= i < |nodes| && i != at ==> nodes[i] != pnode;
      hide Chain, Values;
      pnode.hostname := name;
      forall i | 0 <= i < |nodes| && i != at ensures nodes[i].Value() == ls[i] {
        assert nodes[i] != pnode;
      }
      Replaced(ls, nodes, at);
    }

    /** The client's lease dropped, if there is one. */
    method DropLease(pnode: Node?, ghost at: nat)
      requires Chain(plist, nodes) && pnode == if at < |nodes| then nodes[at] else null
      modifies this`plist, this`nodes, nodes`next
      ensures Chain(plist, nodes)
      ensures Values(nodes) == Drop(old(Values(nodes)), at)
      ensures forall i :: 0 <= i < |nodes| ==> nodes[i] in old(nodes)
    {
      hide Values, Chain, RemoveAt;
      ValuesLength(nodes);
      if pnode != null {
        Unlink(pnode, at);
      }
    }

    /** The verdict on a client that is not refused, and what it does to the lease. */
    method Answer(m: Message, pnode: Node?, ghost at: nat) returns (r: State)
      requires Valid() && !declined && !(Less(endIp, client) || client == ANY)
      requires pnode == if at < |nodes| then nodes[at] else null
      modifies this`client, this`declined, this`hostname, this`plist, this`nodes, nodes`next, nodes`hostname
      ensures Valid()
      ensures (State(), ReplyOf(r, client))
        == Settle(old(Cfg()), old(Claim(Values(nodes), at, client, plus, renew)), m, old(hostname))
      ensures forall i :: 0 <= i < |nodes| ==> nodes[i] in old(nodes)
    {
      hide Values, Chain, Drop, Summarize, Decode, Less, Decide;
      ValuesLength(nodes);
      var sum := ScanOptions(m.options, client);
      hostname := sum.hostname;
      r := Decide(sum, renew);
      if r == Release || r == Nak || r == Decline {
        DropLease(pnode, at);
        declined := r == Decline;
        client := ANY;
      } else if pnode != null {
        Rename(pnode, at, hostname);
      }
    }

    /** `parse_msg` from POOL_CHECK on. */
    method SettleLease(m: Message, pnode: Node?, ghost at: nat) returns (r: State)
      requires Valid() && !declined
      requires pnode == if at < |nodes| then nodes[at] else null
      modifies this`client, this`declined, this`hostname, this`plist, this`nodes, nodes`next, nodes`hostname
      ensures Valid()
      ensures (State(), ReplyOf(r, client))
        == Settle(old(Cfg()), old(Claim(Values(nodes), at, client, plus, renew)), m, old(hostname))
      ensures forall i :: 0 <= i < |nodes| ==> nodes[i] in old(nodes)
    {
      hide Values, Chain, Drop, Verdict, Summarize, Decode, Less;
      if Less(endIp, client) || client == ANY {
        DropLease(pnode, at);
        r := Nak;
      } else {
        hide Settle;
        r := Answer(m, pnode, at);
      }
    }

    /** `parse_msg` for a message with the magic cookie. */
    method ParseMsg(m: Message) returns (r: State)
      requires Valid() && m.cookie
      modifies this`client, this`plus, this`renew, this`declined, this`hostname, this`plist, this`nodes
      modifies nodes`next, nodes`timer, nodes`hostname
      ensures Valid()
      ensures (State(), ReplyOf(r, client)) == Handle(old(Cfg()), old(State()), m)
      ensures forall i :: 0 <= i < |nodes| ==> nodes[i] in old(nodes) || fresh(nodes[i])
    {
      hide Values, Chain, MakeClaim, Settle, Handle;
      ghost var c, s := Cfg(), State();
      HandleIs(c, s, m);
      var pnode, at := ClaimLease(m);
      r := SettleLease(m, pnode, at);
    }

    /** `handle_dhcp`: parse, then dispatch on the state. */
    method HandleDhcp(m: Message) returns (reply: Reply)
      requires Valid()
      modifies this`client, this`plus, this`renew, this`declined, this`hostname, this`plist, this`nodes
      modifies nodes`next, nodes`timer, nodes`hostname
      ensures Valid()
      ensures (State(), reply) == Handle(old(Cfg()), old(State()), m)
      ensures forall i :: 0 <= i < |nodes| ==> nodes[i] in old(nodes) || fresh(nodes[i])
    {
      hide Values, Chain, MakeClaim, Settle;
      reply := NoReply;
      if m.cookie {
        var r := ParseMsg(m);
        match r
        case Offer => reply := OfferReply(client);
        case Ack => reply := AckReply(client);
        case Nak => reply := NakReply(client);
        case _ =>
      }
    }

    // ----- one tick -----

    /** The walk of `kill_oldest_dhcps_pool`: the first node with the least time left, and its predecessor. */
    method FindOldest() returns (minpre: Node?, minp: Node, ghost r: nat)
      requires Chain(plist, nodes) && |nodes| >= 2
      ensures r == Oldest(Values(nodes)) && r < |nodes| && minp == nodes[r]
      ensures minpre == if r == 0 then null else nodes[r - 1]
    {
      hide Values, Chain, Oldest;
      ghost var ls := Values(nodes);
      HeadOf(plist, nodes);
      ValuesLength(nodes);
      OldestOne(ls);
      var pre: Node := plist;
      AtNode(plist, nodes, 0);
      var p := pre.next;
      minpre, minp, r := null, pre, 0;
      ghost var i := 1;
      while p != null
        invariant 1 <= i <= |nodes| && p == if i < |nodes| then nodes[i] else null
        invariant pre == nodes[i - 1]
        invariant r < i && minp == nodes[r] && minpre == if r == 0 then null else nodes[r - 1]
        invariant r == Oldest(ls[..i])
        decreases |nodes| - i
      {
        AtNode(plist, nodes, i);
        AtNode(plist, nodes, r);
        OldestStep(ls, i);
        if p.timer < minp.timer {
          minp := p;
          minpre := pre;
          r := i;
        }
        pre := p;
        p := p.next;
        i := i + 1;
      }
      assert ls[..|nodes|] == ls;
    }

    /** `kill_oldest_dhcps_pool`. */
    method KillOldest()
      requires Chain(plist, nodes) && |nodes| >= 2
      modifies this`plist, this`nodes, nodes`next
      ensures Chain(plist, nodes)
      ensures var ls := old(Values(nodes)); ls != [] && Values(nodes) == RemoveAt(ls, Oldest(ls))
      ensures forall i :: 0 <= i < |nodes| ==> nodes[i] in old(nodes)
    {
      hide Values, Chain, RemoveAt, Oldest;
      ghost var ls, ns := Values(nodes), nodes;
      ValuesLength(nodes);
      var minpre, minp, r := FindOldest();
      plist := UnlinkAt(plist, nodes, r, minpre, minp);
      nodes := RemoveAt(nodes, r);
      RemovedValues(ns, r, ls);
    }

    method SetTimer(pnode: Node, ghost k: nat, t: u32)
      requires Chain(plist, nodes) && k < |nodes| && nodes[k] == pnode
      modifies pnode`timer
      ensures Chain(plist, nodes) && pnode.timer == t
      ensures var ls := old(Values(nodes)); Values(nodes) == ls[k := ls[k].(timer := t)]
    {
      ghost var ls := Values(nodes);
      assert forall i :: 0 <= i < |nodes| && i != k ==> nodes[i] != pnode;
      hide Chain, Values;
      pnode.timer := t;
      forall i | 0 <= i < |nodes| && i != k ensures nodes[i].Value() == ls[i] {
        assert nodes[i] != pnode;
      }
      Replaced(ls, nodes, k);
    }

    /** `j` leases of `ls` are aged, `i` of them still there; the walk stands at `pnode`. */
    ghost predicate Aging(ls: seq<Lease>, j: nat, i: nat, pnode: Node?, count: u8)
      reads this`plist, this`nodes, nodes
    {
      && Chain(plist, nodes)
      && j <= |ls| && i == |Aged(ls[..j])| && |nodes| == i + |ls| - j
      && Values(nodes) == PartAged(ls, j)
      && pnode == (if i < |nodes| then nodes[i] else null)
      && count == i % 0x100
    }

    /** The ageing loop of `dhcps_tmr`; the count of survivors is kept in eight bits. */
    method AgeAll() returns (count: u8)
      requires Chain(plist, nodes)
      modifies this`plist, this`nodes, nodes`next, nodes`timer
      ensures Chain(plist, nodes)
      ensures Values(nodes) == Aged(old(Values(nodes)))
      ensures count == |nodes| % 0x100
      ensures forall i :: 0 <= i < |nodes| ==> nodes[i] in old(nodes)
    {
      ghost var ls, j, i := Values(nodes), 0, 0;
      count := 0;
      var pnode := plist;
      assert Aging(ls, 0, 0, pnode, count) by {
        ValuesLength(nodes);
        AgedNothing(ls);
      }
      hide Aging, Aged, Values, Chain;
      while pnode != null
        invariant Aging(ls, j, i, pnode, count)
        invariant forall n :: 0 <= n < |nodes| ==> nodes[n] in old(nodes)
        decreases |ls| - j
      {
        pnode, count, i := AgeOne(pnode, count, ls, j, i);
        j := j + 1;
      }
      AgingDone(ls, j, i, count);
    }

    lemma AgingDone(ls: seq<Lease>, j: nat, i: nat, count: u8)
      requires Aging(ls, j, i, null, count)
      ensures Chain(plist, nodes) && Values(nodes) == Aged(ls) && count == |nodes| % 0x100
    {
      hide Aged, Values, Chain;
      assert ls[..j] == ls && ls[j..] == [];
    }

    /** One turn of the ageing loop: the decrement, and the removal when it reaches zero. */
    method AgeOne(pnode: Node, count: u8, ghost ls: seq<Lease>, ghost j: nat, ghost i: nat)
      returns (next: Node?, count': u8, ghost i': nat)
      requires Aging(ls, j, i, pnode, count)
      modifies this`plist, this`nodes, nodes`next, nodes`timer
      ensures j < |ls| && Aging(ls, j + 1, i', next, count')
      ensures forall i :: 0 <= i < |nodes| ==> nodes[i] in old(nodes)
    {
      hide Values, Chain, RemoveAt, Aged, PartAged, Dec32;
      AtNode(plist, nodes, i);
      AgeStep(ls, j, i);
      var t := Dec32(pnode.timer);
      SetTimer(pnode, i, t);
      AtNode(plist, nodes, i);
      next, count', i' := pnode.next, count, i;
      if t == 0 {
        RemovedNext(nodes, i);
        Unlink(pnode, i);
      } else {
        count' := if count == 255 then 0 else count + 1;
        i' := i + 1;
      }
    }

    /** `dhcps_tmr` while the server is started. */
    method Tmr()
      requires Valid()
      modifies this`plist, this`nodes, nodes`next, nodes`timer
      ensures Valid()
      ensures State() == Step(old(Cfg()), old(State()), Tick)
      ensures forall i :: 0 <= i < |nodes| ==> nodes[i] in old(nodes)
    {
      hide Values, Chain, Aged, Oldest;
      var count := AgeAll();
      ValuesLength(nodes);
      if count > MAX_STATION {
        KillOldest();
      }
    }

    /** Messages and ticks, one after the other: the server does the specified run. */
    method Serve(es: seq<Event>)
      requires Valid()
      modifies this`client, this`plus, this`renew, this`declined, this`hostname, this`plist, this`nodes
      modifies nodes`next, nodes`timer, nodes`hostname
      ensures Valid() && Cfg() == old(Cfg())
      ensures State() == Run(old(Cfg()), old(State()), es)
    {
      ghost var c, s := Cfg(), State();
      hide Valid, Handle, Ticked;
      for k := 0 to |es|
        invariant Valid() && Cfg() == c && State() == Run(c, s, es[..k])
        invariant forall i :: 0 <= i < |nodes| ==> nodes[i] in old(nodes) || fresh(nodes[i])
      {
        assert es[..k + 1][..k] == es[..k];
        match es[k]
        case Arrives(m) =>
          var reply := HandleDhcp(m);
        case Tick =>
          Tmr();
      }
      assert es[..|es|] == es;
    }
  }

  /** A server made, started and given events: its state is that of the specified run from the start. */
  method Session(unit: nat, table: array<Reservation>, server: Ip, k: nat, socket: bool, es: seq<Event>)
    returns (d: Dhcps, ok: bool)
    requires table.Length == MAX_RESERVATIONS && k <= 32
    ensures fresh(d) && d.table == table && d.Valid()
    ensures ok <==> socket && server != ANY && Startable(Number(server), k)
    ensures ok ==> d.State() == Run(d.Cfg(), Started(d.Cfg()), es)
  {
    d := new Dhcps(unit, table);
    ok := d.StartServer(server, k, socket);
    if ok {
      hide Number, PollSet, BlockStart, Kept;
      d.Serve(es);
    }
  }

  /** One node of a chain changed. */
  lemma Replaced(ls: seq<Lease>, ns: seq<Node>, k: nat)
    requires k < |ns| == |ls| && forall i :: 0 <= i < |ns| && i != k ==> ns[i].Value() == ls[i]
    ensures Values(ns) == ls[k := ns[k].Value()]
  {
    hide Values;
  }

  function ReplyOf(r: State, client: Ip): Reply {
    match r
    case Offer => OfferReply(client)
    case Ack => AckReply(client)
    case Nak => NakReply(client)
    case _ => NoReply
  }

  lemma OldestOne(ls: seq<Lease>)
    requires ls != []
    ensures Oldest(ls[..1]) == 0
  {
  }

  lemma OldestStep(ls: seq<Lease>, i: nat)
    requires 0 < i < |ls|
    ensures var r := Oldest(ls[..i]);
      Oldest(ls[..i + 1]) == if ls[i].timer < ls[r].timer then i else r
  {
    assert ls[..i + 1][..i] == ls[..i];
  }

  lemma HandleIs(c: Config, s: Server, m: Message)
    requires m.cookie
    ensures Handle(c, s, m) == Settle(c, MakeClaim(c, s, m), m, s.hostname)
  {
  }

  lemma EmptyChain(head: Node?, ns: seq<Node>)
    requires Chain(head, ns)
    ensures head == null <==> ns == []
  {
  }

  lemma HeadOf(head: Node?, ns: seq<Node>)
    requires Chain(head, ns)
    ensures head == if |ns| == 0 then null else ns[0]
  {
  }

  lemma AtNode(head: Node?, ns: seq<Node>, k: nat)
    requires Chain(head, ns) && k < |ns|
    ensures ns[k].next == if k + 1 < |ns| then ns[k + 1] else null
    ensures Values(ns)[k] == ns[k].Value()
  {
    assert ns[k].next == NextIn(ns, k);
  }

  lemma InsertMembers(ns: seq<Node>, at: nat, x: Node)
    requires at <= |ns|
    ensures var ms := InsertAt(ns, at, x);
      at < |ms| && ms[at] == x && forall i :: 0 <= i < |ms| ==> ms[i] in ns || ms[i] == x
  {
  }

  lemma ValuesLength(ns: seq<Node>)
    ensures |Values(ns)| == |ns|
  {
  }

  lemma ValueAt(ns: seq<Node>, k: nat)
    requires k < |ns|
    ensures Values(ns)[k] == ns[k].Value()
  {
  }

  lemma {:induction false} ValuesConcat(a: seq<Node>, b: seq<Node>)
    ensures Values(a + b) == Values(a) + Values(b)
  {
    if a == [] {
      assert a + b == b;
    } else {
      assert (a + b)[1..] == a[1..] + b;
      ValuesConcat(a[1..], b);
    }
  }

  lemma InsertedValues(ns: seq<Node>, at: nat, x: Node, ls: seq<Lease>)
    requires at <= |ns| && ls == Values(ns)
    ensures Values(InsertAt(ns, at, x)) == InsertAt(ls, at, x.Value())
  {
    var a, b := ns[..at], ns[at..];
    assert ns == a + b;
    assert Values([x]) == [x.Value()];
    hide Values;
    ValuesConcat(a, b);
    ValuesConcat(a + [x], b);
    ValuesConcat(a, [x]);
    assert ls[..at] == Values(a) && ls[at..] == Values(b);
  }

  lemma RemovedValues(ns: seq<Node>, at: nat, ls: seq<Lease>)
    requires at < |ns| && ls == Values(ns)
    ensures Values(RemoveAt(ns, at)) == RemoveAt(ls, at)
    ensures |RemoveAt(ns, at)| == |ns| - 1
    ensures forall i :: 0 <= i < |ns| - 1 ==> RemoveAt(ns, at)[i] in ns
  {
    var a, x, b := ns[..at], ns[at], ns[at + 1..];
    assert ns == a + [x] + b;
    assert Values([x]) == [x.Value()];
    hide Values;
    ValuesConcat(a + [x], b);
    ValuesConcat(a, [x]);
    ValuesConcat(a, b);
    assert ls[..at] == Values(a) && ls[at + 1..] == Values(b);
  }

  lemma AgedNothing(ls: seq<Lease>)
    ensures Aged(ls[..0]) + ls[0..] == ls && |Aged(ls[..0])| == 0
  {
  }

  /** The first `j` leases aged, the others not yet. */
  ghost function PartAged(ls: seq<Lease>, j: nat): seq<Lease>
    requires j <= |ls|
  {
    Aged(ls[..j]) + ls[j..]
  }

  /** One more lease aged: what the set timer and the removal leave of the list. */
  lemma AgeStep(ls: seq<Lease>, j: nat, i: nat)
    requires j < |ls| && i == |Aged(ls[..j])|
    ensures var v := PartAged(ls, j);
      i < |v| &&
      var t := Dec32(ls[j].timer);
      var w := v[i := v[i].(timer := t)];
      && v[i] == ls[j]
      && |Aged(ls[..j + 1])| == (if t == 0 then i else i + 1)
      && (if t == 0 then RemoveAt(w, i) else w) == PartAged(ls, j + 1)
  {
    assert ls[..j + 1][..j] == ls[..j];
    var a := Aged(ls[..j]);
    hide Aged;
    var v := a + ls[j..];
    var t := Dec32(ls[j].timer);
    var l := ls[j].(timer := t);
    assert v[i := l] == a + [l] + ls[j + 1..];
    assert RemoveAt(v[i := l], i) == a + ls[j + 1..];
  }

  lemma RemovedNext(ns: seq<Node>, i: nat)
    requires i < |ns|
    ensures var ms := RemoveAt(ns, i);
      (if i < |ms| then ms[i] else null) == if i + 1 < |ns| then ns[i + 1] else null
  {
  }
}
