/**
 The reservation table of `dhcp_manager.c`, changed in place. As long as it is changed only
 through these operations it is a finite map from MAC to address, which is what the server
 looks up.
 */
module DhcpManager {
  import opened DhcpAddress
  import opened DhcpSpec

  /** No MAC is reserved twice. */
  ghost predicate Unique(t: seq<Reservation>) {
    forall i, j :: 0 <= i < j < |t| && t[i].valid && t[j].valid ==> t[i].mac != t[j].mac
  }

  /** The first slot that holds the MAC, or the length. */
  function Find(t: seq<Reservation>, mac: Mac, i: nat): (r: nat)
    requires i <= |t|
    ensures i <= r <= |t|
    ensures r < |t| ==> t[r].valid && t[r].mac == mac
    ensures forall j :: i <= j < r ==> !(t[j].valid && t[j].mac == mac)
    decreases |t| - i
  {
    if i == |t| || (t[i].valid && t[i].mac == mac) then i else Find(t, mac, i + 1)
  }

  function FreeSlot(t: seq<Reservation>, i: nat): (r: nat)
    requires i <= |t|
    ensures i <= r <= |t|
    ensures r < |t| ==> !t[r].valid
    ensures forall j :: i <= j < r ==> t[j].valid
    decreases |t| - i
  {
    if i == |t| || !t[i].valid then i else FreeSlot(t, i + 1)
  }

  /** Where a reservation for the MAC goes: its own slot, else the first free one. */
  function SlotFor(t: seq<Reservation>, mac: Mac): (r: nat)
    ensures r <= |t|
  {
    if Find(t, mac, 0) < |t| then Find(t, mac, 0) else FreeSlot(t, 0)
  }

  function Added(t: seq<Reservation>, mac: Mac, ip: Ip): seq<Reservation> {
    var k := SlotFor(t, mac);
    if k < |t| then t[k := Reservation(true, mac, ip)] else t
  }

  function Deleted(t: seq<Reservation>, mac: Mac): seq<Reservation> {
    var k := Find(t, mac, 0);
    if k < |t| then t[k := t[k].(valid := false)] else t
  }

  /** What the table says of a MAC. */
  datatype Answer = Nothing | Address(ip: Ip)

  function Lookup(t: seq<Reservation>, mac: Mac): Answer {
    var k := Find(t, mac, 0);
    if k < |t| then Address(t[k].ip) else Nothing
  }

  lemma FindThe(t: seq<Reservation>, mac: Mac, j: nat)
    requires Unique(t) && j < |t| && t[j].valid && t[j].mac == mac
    ensures Find(t, mac, 0) == j
  {
  }

  lemma FindNone(t: seq<Reservation>, mac: Mac)
    requires forall j :: 0 <= j < |t| ==> !(t[j].valid && t[j].mac == mac)
    ensures Find(t, mac, 0) == |t|
  {
  }

  /** The server's lookup is the table's, with 0.0.0.0 for none. */
  lemma {:induction false} ReservedIsLookup(t: seq<Reservation>, mac: Mac, i: nat)
    requires i <= |t|
    ensures Reserved(t[i..], mac) == if Find(t, mac, i) < |t| then t[Find(t, mac, i)].ip else ANY
    decreases |t| - i
  {
    if i < |t| {
      assert t[i..][1..] == t[i + 1..] && t[i..][0] == t[i];
      if !(t[i].valid && t[i].mac == mac) {
        ReservedIsLookup(t, mac, i + 1);
      }
    }
  }

  /** One slot changed: every MAC but the old and the new one of that slot looks up as before. */
  lemma OtherMac(t: seq<Reservation>, k: nat, r: Reservation, q: Mac)
    requires k < |t| && Unique(t) && Unique(t[k := r])
    requires !(t[k].valid && t[k].mac == q) && !(r.valid && r.mac == q)
    ensures Lookup(t[k := r], q) == Lookup(t, q)
  {
    var j := Find(t, q, 0);
    if j < |t| {
      FindThe(t[k := r], q, j);
    } else {
      FindNone(t[k := r], q);
    }
  }

  /** Adding is one map update; it fails only for a new MAC and a full table. */
  lemma AddLaw(t: seq<Reservation>, mac: Mac, ip: Ip, q: Mac)
    requires Unique(t)
    ensures Unique(Added(t, mac, ip))
    ensures SlotFor(t, mac) < |t| ==>
      Lookup(Added(t, mac, ip), q) == if q == mac then Address(ip) else Lookup(t, q)
    ensures SlotFor(t, mac) == |t| <==> Lookup(t, mac) == Nothing && forall i :: 0 <= i < |t| ==> t[i].valid
  {
    var k := SlotFor(t, mac);
    var f := Find(t, mac, 0);
    assert f == |t| ==> forall j :: 0 <= j < |t| ==> !(t[j].valid && t[j].mac == mac);
    if k < |t| {
      var r := Reservation(true, mac, ip);
      var t' := t[k := r];
      assert Unique(t');
      if q == mac {
        FindThe(t', mac, k);
      } else {
        OtherMac(t, k, r, q);
      }
    }
  }

  /** Deleting removes the MAC and nothing else. */
  lemma DeleteLaw(t: seq<Reservation>, mac: Mac, q: Mac)
    requires Unique(t)
    ensures Unique(Deleted(t, mac))
    ensures Lookup(Deleted(t, mac), q) == if q == mac then Nothing else Lookup(t, q)
  {
    var k := Find(t, mac, 0);
    if k < |t| {
      var t' := Deleted(t, mac);
      if q == mac {
        FindNone(t', mac);
      } else {
        OtherMac(t, k, t'[k], q);
      }
    }
  }

  /** Changes made one after the other from an empty table. */
  datatype Change = Add(mac: Mac, ip: Ip) | Delete(mac: Mac) | Clear

  function After(t: seq<Reservation>, c: Change): seq<Reservation> {
    match c
    case Add(mac, ip) => Added(t, mac, ip)
    case Delete(mac) => Deleted(t, mac)
    case Clear => seq(|t|, i requires 0 <= i < |t| => t[i].(valid := false))
  }

  /** Clearing forgets every MAC. */
  lemma ClearLaw(t: seq<Reservation>, q: Mac)
    ensures Lookup(After(t, Clear), q) == Nothing && |After(t, Clear)| == |t|
  {
    FindNone(After(t, Clear), q);
  }

  lemma ChangeKeepsUnique(t: seq<Reservation>, c: Change)
    requires Unique(t)
    ensures Unique(After(t, c))
  {
    match c
    case Add(mac, ip) => AddLaw(t, mac, ip, mac);
    case Delete(mac) => DeleteLaw(t, mac, mac);
    case Clear =>
  }

  function AfterAll(t: seq<Reservation>, cs: seq<Change>): seq<Reservation> {
    if cs == [] then t else After(AfterAll(t, cs[..|cs| - 1]), cs[|cs| - 1])
  }

  /** In every run of changes no MAC comes to be reserved twice. */
  lemma {:induction false} RunUnique(t: seq<Reservation>, cs: seq<Change>)
    requires Unique(t)
    ensures Unique(AfterAll(t, cs))
  {
    if cs != [] {
      RunUnique(t, cs[..|cs| - 1]);
      ChangeKeepsUnique(AfterAll(t, cs[..|cs| - 1]), cs[|cs| - 1]);
    }
  }

  /** The address is somebody else's exactly when another MAC's lookup gives it. */
  lemma ForeignIsOthersLookup(t: seq<Reservation>, mac: Mac, ip: Ip)
    requires Unique(t) && ip != ANY
    ensures ip in Foreign(t, mac) <==> exists q: Mac :: q != mac && Lookup(t, q) == Address(ip)
  {
    if ip in Foreign(t, mac) {
      var i :| 0 <= i < |t| && t[i].valid && t[i].mac != mac && t[i].ip == ip;
      FindThe(t, t[i].mac, i);
      assert Lookup(t, t[i].mac) == Address(ip);
    }
    if q: Mac :| q != mac && Lookup(t, q) == Address(ip) {
      assert t[Find(t, q, 0)].ip == ip;
    }
  }

  // ----- the operations -----

  /** `add_dhcp_reservation`, up to the saving of the table. */
  method AddReservation(table: array<Reservation>, mac: Mac, ip: Ip) returns (ok: bool)
    modifies table
    ensures table[..] == Added(old(table[..]), mac, ip)
    ensures ok <==> SlotFor(old(table[..]), mac) < table.Length
  {
    ghost var t := table[..];
    for i := 0 to table.Length
      invariant table[..] == t && Find(t, mac, i) == Find(t, mac, 0)
    {
      if table[i].valid && table[i].mac == mac {
        table[i] := table[i].(ip := ip);
        return true;
      }
    }
    for i := 0 to table.Length
      invariant table[..] == t && FreeSlot(t, i) == FreeSlot(t, 0)
    {
      if !table[i].valid {
        table[i] := Reservation(true, mac, ip);
        return true;
      }
    }
    return false;
  }

  /** `del_dhcp_reservation`. */
  method DeleteReservation(table: array<Reservation>, mac: Mac)
    modifies table
    ensures table[..] == Deleted(old(table[..]), mac)
  {
    ghost var t := table[..];
    for i := 0 to table.Length
      invariant table[..] == t && Find(t, mac, i) == Find(t, mac, 0)
    {
      if table[i].valid && table[i].mac == mac {
        table[i] := table[i].(valid := false);
        return;
      }
    }
  }

  /** `clear_all_dhcp_reservations`. */
  method ClearReservations(table: array<Reservation>)
    modifies table
    ensures table[..] == After(old(table[..]), Clear)
  {
    for i := 0 to table.Length
      invariant forall j :: 0 <= j < i ==> table[j] == old(table[j]).(valid := false)
      invariant forall j :: i <= j < table.Length ==> table[j] == old(table[j])
    {
      table[i] := table[i].(valid := false);
    }
  }
}
