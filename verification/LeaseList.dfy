/**
 The singly linked lease list of the DHCP server, relinked in place. Each method is
 specified by what it does to the sequence of nodes the chain visits.
 */
module LeaseList {
  import opened Words
  import opened DhcpAddress
  import opened DhcpSpec

  /** A `list_node` together with the `dhcps_pool` it points to. */
  class Node {
    var ip: Ip
    var mac: Mac
    var timer: u32
    var hostname: seq<u8>
    var next: Node?

    constructor (l: Lease)
      ensures Value() == l && next == null
    {
      ip, mac, timer, hostname := l.ip, l.mac, l.timer, l.hostname;
      next := null;
    }

    function Value(): Lease
      reads this`ip, this`mac, this`timer, this`hostname
    {
      Lease(ip, mac, timer, hostname)
    }
  }

  /** Following `next` from `head` visits exactly the nodes of `ns`, in that order, each once. */
  ghost predicate Chain(head: Node?, ns: seq<Node>)
    reads ns`next
  {
    && (forall i, j :: 0 <= i < j < |ns| ==> ns[i] != ns[j])
    && head == (if |ns| == 0 then null else ns[0])
    && forall i :: 0 <= i < |ns| ==> ns[i].next == NextIn(ns, i)
  }

  /** What follows the `j`-th node. */
  ghost function NextIn(ns: seq<Node>, j: nat): Node? {
    if j + 1 < |ns| then ns[j + 1] else null
  }

  /** The leases along the chain. */
  ghost function Values(ns: seq<Node>): (r: seq<Lease>)
    reads ns`ip, ns`mac, ns`timer, ns`hostname
    ensures |r| == |ns|
    ensures forall i :: 0 <= i < |ns| ==> r[i] == ns[i].Value()
  {
    if ns == [] then [] else [ns[0].Value()] + Values(ns[1..])
  }

  lemma PosIs(ls: seq<Lease>, ip: Ip, k: nat)
    requires k <= |ls|
    requires forall j :: 0 <= j < k ==> AtMost(ls[j].ip, ip)
    requires k < |ls| ==> Less(ip, ls[k].ip)
    ensures InsertPos(ls, ip) == k
  {
  }

  lemma Inserted(ns: seq<Node>, k: nat, x: Node)
    requires k <= |ns| && x !in ns && forall i, j :: 0 <= i < j < |ns| ==> ns[i] != ns[j]
    ensures var ms := InsertAt(ns, k, x);
      && |ms| == |ns| + 1 && ms[k] == x
      && (forall i :: 0 <= i < k ==> ms[i] == ns[i])
      && (forall i :: k < i < |ms| ==> ms[i] == ns[i - 1])
      && (forall i, j :: 0 <= i < j < |ms| ==> ms[i] != ms[j])
  {
  }

  /** The two assignments that link a node in behind `prev`, or in front of the chain. */
  method LinkAt(head: Node?, ghost ns: seq<Node>, ghost k: nat, prev: Node?, pinsert: Node)
    returns (h: Node?)
    requires Chain(head, ns) && pinsert !in ns && pinsert.next == null
    requires k <= |ns| && prev == if k == 0 then null else ns[k - 1]
    modifies ns`next, pinsert`next
    ensures Chain(h, InsertAt(ns, k, pinsert))
  {
    assert forall j :: 0 <= j < |ns| ==> ns[j].next == NextIn(ns, j);
    if prev == null {
      pinsert.next := head;
      h := pinsert;
    } else {
      assert prev == ns[k - 1];
      pinsert.next := prev.next;
      prev.next := pinsert;
      h := head;
    }
    Inserted(ns, k, pinsert);
    hide InsertAt;
    ghost var ms := InsertAt(ns, k, pinsert);
    forall i | 0 <= i < |ms| ensures ms[i].next == NextIn(ms, i) {
      if i < k - 1 {
        assert ms[i] == ns[i] && ns[i].next == NextIn(ns, i) && ms[i + 1] == ns[i + 1];
      } else if i > k {
        assert ms[i] == ns[i - 1] && ns[i - 1].next == NextIn(ns, i - 1);
      }
    }
  }

  /** The two assignments that unlink the node behind `prev`, or the first one. */
  method UnlinkAt(head: Node?, ghost ns: seq<Node>, ghost k: nat, prev: Node?, pdelete: Node)
    returns (h: Node?)
    requires Chain(head, ns)
    requires k < |ns| && pdelete == ns[k] && prev == if k == 0 then null else ns[k - 1]
    modifies ns`next
    ensures Chain(h, RemoveAt(ns, k)) && pdelete.next == null
  {
    assert forall j :: 0 <= j < |ns| ==> ns[j].next == NextIn(ns, j);
    if prev == null {
      h := pdelete.next;
    } else {
      prev.next := pdelete.next;
      h := head;
    }
    pdelete.next := null;
    ghost var ms := RemoveAt(ns, k);
    assert |ms| > 0 ==> ms[0] == if k > 0 then ns[0] else ns[1];
    forall i | 0 <= i < |ms| ensures ms[i].next == NextIn(ms, i) {
      if i < k - 1 {
        assert ms[i] == ns[i] && ns[i].next == NextIn(ns, i) && ms[i + 1] == ns[i + 1];
      } else if i >= k {
        assert ms[i] == ns[i + 1] && ns[i + 1].next == NextIn(ns, i + 1);
      }
    }
  }

  /** The walk of `node_insert_to_list`: the node to link behind, null for the front. */
  method FindPlace(head: Node?, ghost ns: seq<Node>, ip: Ip) returns (prev: Node?, ghost k: nat)
    requires Chain(head, ns)
    ensures k == InsertPos(Values(ns), ip)
    ensures k <= |ns| && prev == if k == 0 then null else ns[k - 1]
  {
    hide InsertPos, Less;
    k := 0;
    prev := null;
    if head != null && !Less(ip, head.ip) {
      var plist: Node := head;
      k := 1;
      while plist.next != null
        invariant 0 < k <= |ns| && plist == ns[k - 1]
        invariant forall j :: 0 <= j < k ==> AtMost(ns[j].ip, ip)
        decreases |ns| - k
      {
        assert plist.next == NextIn(ns, k - 1);
        var nx: Node := plist.next;
        if Less(ip, nx.ip) {
          break;
        }
        plist := nx;
        k := k + 1;
      }
      assert plist.next == NextIn(ns, k - 1);
      prev := plist;
    }
    PosIs(Values(ns), ip, k);
  }

  /** `node_insert_to_list`: before the first node with a greater address. */
  method Insert(head: Node?, ghost ns: seq<Node>, pinsert: Node) returns (h: Node?, ghost ms: seq<Node>)
    requires Chain(head, ns) && pinsert !in ns && pinsert.next == null
    modifies ns`next, pinsert`next
    ensures ms == old(InsertAt(ns, InsertPos(Values(ns), pinsert.ip), pinsert))
    ensures Chain(h, ms)
  {
    hide InsertAt, InsertPos, Values, Chain;
    var prev, k := FindPlace(head, ns, pinsert.ip);
    ms := InsertAt(ns, k, pinsert);
    h := LinkAt(head, ns, k, prev, pinsert);
  }

  lemma Removed(ns: seq<Node>, k: nat)
    requires k < |ns| && forall i, j :: 0 <= i < j < |ns| ==> ns[i] != ns[j]
    ensures var ms := RemoveAt(ns, k);
      && |ms| == |ns| - 1
      && (forall i :: 0 <= i < k ==> ms[i] == ns[i])
      && (forall i :: 0 <= i < |ms| ==> ms[i] != ns[k])
  {
  }

  /** `node_remove_from_list`: the walk goes on to the end after unlinking. */
  method Remove(head: Node?, ghost ns: seq<Node>, pdelete: Node, ghost k: nat)
    returns (h: Node?, ghost ms: seq<Node>)
    requires Chain(head, ns) && k < |ns| && ns[k] == pdelete
    modifies ns`next
    ensures ms == RemoveAt(ns, k)
    ensures Chain(h, ms) && pdelete.next == null
  {
    Removed(ns, k);
    hide RemoveAt;
    var plist := head;
    ms := RemoveAt(ns, k);
    if plist == pdelete {
      assert k == 0;
      h := UnlinkAt(head, ns, 0, null, pdelete);
    } else {
      h := head;
      ghost var i, gone := 0, false;
      while plist != null
        invariant !gone ==> Chain(head, ns) && i < k && plist == ns[i]
        invariant gone ==> Chain(head, ms) && pdelete.next == null
        invariant gone ==> i <= |ms| && plist == if i < |ms| then ms[i] else null
        decreases !gone, |ns| - i
      {
        assert plist.next == NextIn(if gone then ms else ns, i);
        if plist.next == pdelete {
          assert !gone && ns[i + 1] == ns[k];
          var _ := UnlinkAt(head, ns, k, plist, pdelete);
          gone := true;
          assert plist.next == NextIn(ms, i);
        }
        plist := plist.next;
        i := i + 1;
      }
    }
  }
}
