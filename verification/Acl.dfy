/**
 `acl.c`: the four rule tables and their counters, changed in place. Every operation does to
 its table what `AclSpec` says and leaves the other tables alone.
 */
module Acl {
  import opened Words
  import opened AclSpec

  class Lists {
    const rules: array2<Entry>
    const stats: array<Stats>

    ghost predicate Valid() {
      rules.Length0 == LISTS && rules.Length1 == SLOTS && stats.Length == LISTS
    }

    /** One table. */
    ghost function Row(no: nat): (r: seq<Entry>)
      requires Valid() && no < LISTS
      reads rules
      ensures |r| == SLOTS
    {
      seq(SLOTS, i requires 0 <= i < SLOTS && Valid() reads rules => rules[no, i])
    }

    /** Nothing but one table may have changed. */
    twostate predicate OnlyTable(no: nat)
      requires Valid()
      reads rules
    {
      forall n: nat, i :: n < LISTS && n != no && 0 <= i < SLOTS ==> rules[n, i] == old(rules[n, i])
    }

    /** `acl_init`. */
    constructor ()
      ensures Valid() && fresh(rules) && fresh(stats)
      ensures forall no: nat :: no < LISTS ==> Row(no) == Table([]) && stats[no] == Stats(0, 0, 0)
    {
      rules := new Entry[LISTS, SLOTS]((_, _) => Zero);
      stats := new Stats[LISTS](_ => Stats(0, 0, 0));
    }

    /** `acl_is_empty`. */
    method IsEmpty(no: u8) returns (empty: bool)
      requires Valid()
      ensures empty <==> (no < LISTS ==> Empty(Row(no)))
    {
      if no >= LISTS {
        return true;
      }
      for i := 0 to SLOTS
        invariant forall j :: 0 <= j < i ==> !Row(no)[j].valid
      {
        if rules[no, i].valid {
          assert Row(no)[i].valid;
          return false;
        }
      }
      return true;
    }

    /** `acl_get_count`. */
    method GetCount(no: u8) returns (count: nat)
      requires Valid()
      ensures count == if no < LISTS then Count(Row(no)) else 0
    {
      count := 0;
      if no >= LISTS {
        return;
      }
      ghost var row := Row(no);
      for i := 0 to SLOTS
        invariant count == Count(row[..i])
      {
        assert row[..i + 1][..i] == row[..i] && row[i] == rules[no, i];
        if rules[no, i].valid {
          count := count + 1;
        }
      }
      assert row[..SLOTS] == row;
    }

    /** `acl_clear`. */
    method Clear(no: u8)
      requires Valid()
      modifies rules
      ensures OnlyTable(no)
      ensures no < LISTS ==> Row(no) == OnTable(old(Row(no)), ClearRules)
    {
      if no >= LISTS {
        return;
      }
      for i := 0 to SLOTS
        invariant OnlyTable(no)
        invariant forall j :: 0 <= j < i ==> rules[no, j] == Zero
      {
        rules[no, i] := Zero;
      }
    }

    /** `acl_clear_stats`. */
    method ClearStats(no: u8)
      requires Valid()
      modifies rules, stats
      ensures OnlyTable(no)
      ensures no < LISTS ==> Row(no) == OnTable(old(Row(no)), ClearHits)
      ensures stats[..] == if no < LISTS then old(stats[..])[no := Stats(0, 0, 0)] else old(stats[..])
    {
      if no >= LISTS {
        return;
      }
      stats[no] := Stats(0, 0, 0);
      for i := 0 to SLOTS
        invariant OnlyTable(no)
        invariant stats[..] == old(stats[..])[no := Stats(0, 0, 0)]
        invariant forall j :: 0 <= j < i ==> rules[no, j] == old(rules[no, j]).(hits := 0)
        invariant forall j :: i <= j < SLOTS ==> rules[no, j] == old(rules[no, j])
      {
        rules[no, i] := rules[no, i].(hits := 0);
      }
    }

    /** `acl_add`. */
    method Add(no: u8, src: bv32, sMask: bv32, dest: bv32, dMask: bv32, proto: u8, sPort: u16, dPort: u16, allow: bv8)
      returns (ok: bool)
      requires Valid()
      modifies rules
      ensures OnlyTable(no)
      ensures no < LISTS ==>
        Row(no) == OnTable(old(Row(no)), AddRule(Stored(src, sMask, dest, dMask, proto, sPort, dPort, allow)))
      ensures ok <==> no < LISTS && FreeSlot(old(Row(no)), 0) < SLOTS
    {
      if no >= LISTS {
        return false;
      }
      hide Stored;
      ghost var row := Row(no);
      var i := 0;
      while i < SLOTS && rules[no, i].valid
        invariant i <= SLOTS && FreeSlot(row, i) == FreeSlot(row, 0)
      {
        i := i + 1;
      }
      if i == SLOTS {
        return false;
      }
      assert FreeSlot(row, 0) == i;
      rules[no, i] := Stored(src, sMask, dest, dMask, proto, sPort, dPort, allow);
      assert Row(no) == row[i := rules[no, i]];
      return true;
    }

    /** `acl_delete`. */
    method Delete(no: u8, k: u8) returns (ok: bool)
      requires Valid()
      modifies rules
      ensures OnlyTable(no)
      ensures no < LISTS ==> Row(no) == OnTable(old(Row(no)), DeleteRule(k))
      ensures ok <==> no < LISTS && k < SLOTS && old(Row(no))[k].valid
    {
      if no >= LISTS || k >= SLOTS {
        return false;
      }
      ghost var row := Row(no);
      if !rules[no, k].valid {
        return false;
      }
      rules[no, k] := Zero;
      assert Row(no) == row[k := Zero];
      var i: nat := k;
      while i < SLOTS - 1 && rules[no, i + 1].valid
        invariant k <= i < SLOTS && OnlyTable(no)
        invariant Compact(Row(no), i) == Compact(row[k := Zero], k)
      {
        ghost var was := Row(no);
        rules[no, i] := rules[no, i + 1];
        rules[no, i + 1] := Zero;
        assert Row(no) == was[i := was[i + 1]][i + 1 := Zero];
        i := i + 1;
      }
      assert Compact(Row(no), i) == Row(no);
      return true;
    }

    /** The rule loop of `acl_check_packet`, for a packet that reaches it. */
    method CheckRules(no: u8, p: Packet) returns (o: Outcome)
      requires Valid() && no < LISTS
      modifies rules, stats
      ensures OnlyTable(no)
      ensures Row(no) == OnTable(old(Row(no)), Check(p))
      ensures o == Verdict(old(Row(no)), p)
      ensures stats[..] == old(stats[..])[no := Counted(old(stats[no]), o)]
    {
      ghost var row := Row(no);
      o := NoMatch;
      var i := 0;
      var found := false;
      while i < SLOTS && !found
        invariant i <= SLOTS && (found ==> i < SLOTS && Matches(row[i], p))
        invariant FirstMatch(row, p, i) == FirstMatch(row, p, 0)
        invariant OnlyTable(no) && Row(no) == row && stats[..] == old(stats[..])
        decreases SLOTS - i, !found
      {
        var hit := RuleMatches(rules[no, i], p);
        assert row[i] == rules[no, i];
        if hit {
          found := true;
        } else {
          i := i + 1;
        }
      }
      if found {
        rules[no, i] := rules[no, i].(hits := Inc32(rules[no, i].hits));
        assert Row(no) == row[i := rules[no, i]];
        var action := rules[no, i].allow & 1;
        var monitor := rules[no, i].allow & 2;
        o := Matched(action | monitor);
        Bits(rules[no, i].allow);
        if action == 1 {
          stats[no] := stats[no].(allowed := Inc32(stats[no].allowed));
        } else {
          stats[no] := stats[no].(denied := Inc32(stats[no].denied));
        }
      } else {
        stats[no] := stats[no].(nomatch := Inc32(stats[no].nomatch));
      }
    }

    /** One rule's tests, in the order of the loop. */
    method RuleMatches(e: Entry, p: Packet) returns (hit: bool)
      ensures hit <==> Matches(e, p)
    {
      hide Net;
      if !e.valid {
        return false;
      }
      if e.proto != 0 && e.proto != p.proto {
        return false;
      }
      if Net(p.src, e.sMask) != e.src {
        return false;
      }
      if Net(p.dest, e.dMask) != e.dest {
        return false;
      }
      if e.sPort != 0 || e.dPort != 0 {
        if p.proto != TCP && p.proto != UDP {
          return false;
        }
        if e.sPort != 0 && e.sPort != p.sPort {
          return false;
        }
        if e.dPort != 0 && e.dPort != p.dPort {
          return false;
        }
      }
      return true;
    }
  }
}
