/** The firewall's fixed tables with their separately kept counts and their copy in flash, proved against rule lists. */
module AclFirewall {
  import opened Words
  import opened Sequences
  import opened Wrappers
  import opened AclRules

  const LISTS: nat := 4
  const ENTRIES: nat := 16

  datatype Entry = Entry(rule: Rule, valid: bool)

  const EMPTY: Entry := Entry(Rule(0, 0, 0, 0, 0, 0, 0, 0, 0), false)

  /** The entries hold the rules `rs` as a prefix and nothing behind it. */
  predicate Holds(row: seq<Entry>, rs: seq<Rule>)
  {
    && |rs| <= |row| == ENTRIES
    && (forall i :: 0 <= i < ENTRIES ==> (row[i].valid <==> i < |rs|))
    && (forall i :: 0 <= i < |rs| ==> row[i].rule == rs[i])
  }

  datatype Stats = Stats(allowed: nat, denied: nat, noMatch: nat)
  {
  }

  /** One more packet with this verdict: none (255), or one with the action bit set or clear. */
  predicate OneMore(s: Stats, s': Stats, verdict: byte)
  {
    s' == if verdict == 255 then Stats(s.allowed, s.denied, s.noMatch + 1)
          else if verdict % 2 == 1 then Stats(s.allowed + 1, s.denied, s.noMatch)
          else Stats(s.allowed, s.denied + 1, s.noMatch)
  }

  /** So every checked packet is counted once: as allowed exactly when its rule's action bit is set. */
  lemma CountedOnce(s: Stats, s': Stats, verdict: byte)
    requires OneMore(s, s', verdict)
    ensures s'.allowed + s'.denied + s'.noMatch == s.allowed + s.denied + s.noMatch + 1
    ensures s'.allowed == s.allowed + 1 <==> verdict != 255 && verdict % 2 == 1
    ensures s'.noMatch == s.noMatch + 1 <==> verdict == 255
  {
  }

  /** One list: its row of the rule table, its count and its statistics. */
  class RuleList {
    const slots: array<Entry>
    var count: nat
    var stats: Stats
    ghost var rules: seq<Rule>

    ghost predicate Valid()
      reads this, slots
    {
      Holds(slots[..], rules) && count == |rules|
    }

    constructor ()
      ensures Valid() && fresh(slots) && rules == [] && stats == Stats(0, 0, 0)
    {
      slots := new Entry[ENTRIES](_ => EMPTY);
      count, stats, rules := 0, Stats(0, 0, 0), [];
    }

    /** `acl_is_empty`, the lock-free gate. */
    method IsEmpty() returns (empty: bool)
      requires Valid()
      ensures empty == (rules == [])
    {
      empty := count == 0;
    }

    /** `acl_recount`: whatever the count was. */
    method Recount()
      requires Holds(slots[..], rules)
      modifies this`count
      ensures Valid()
    {
      var n := 0;
      for i := 0 to ENTRIES
        invariant n == if i < |rules| then i else |rules|
      {
        if slots[..][i].valid {
          n := n + 1;
        }
      }
      count := n;
    }

    /** `acl_clear`. */
    method Clear()
      requires slots.Length == ENTRIES
      modifies this`count, this`rules, slots
      ensures Valid() && rules == []
    {
      forall i | 0 <= i < slots.Length { slots[i] := EMPTY; }
      count, rules := 0, [];
    }

    /** The list's part of `acl_init`. */
    method Init()
      requires slots.Length == ENTRIES
      modifies this, slots
      ensures Valid() && rules == [] && stats == Stats(0, 0, 0)
    {
      Clear();
      stats := Stats(0, 0, 0);
    }

    /** `acl_add`. */
    method Add(src: u32, srcMask: u32, dest: u32, destMask: u32, proto: byte, srcPort: u16, destPort: u16, allow: byte)
      returns (ok: bool)
      requires Valid()
      modifies this`count, this`rules, slots
      ensures Valid() && ok == (|old(rules)| < 16)
      ensures rules == if ok then old(rules) + [NewRule(src, srcMask, dest, destMask, proto, srcPort, destPort, allow)]
                       else old(rules)
    {
      hide AclRules.NewRule;
      var slot := 0;
      while slot < ENTRIES && slots[slot].valid
        invariant slot <= |rules|
      {
        assert slots[..][slot].valid;
        slot := slot + 1;
      }
      assert slot < ENTRIES ==> !slots[..][slot].valid;
      if slot == ENTRIES { return false; }
      slots[slot] := Entry(NewRule(src, srcMask, dest, destMask, proto, srcPort, destPort, allow), true);
      count := count + 1;
      rules := rules + [NewRule(src, srcMask, dest, destMask, proto, srcPort, destPort, allow)];
      ok := true;
    }

    /** `acl_delete`: clear the entry, then move the ones behind it up until the first gap. */
    method Delete(index: nat) returns (ok: bool)
      requires Valid()
      modifies this`count, this`rules, slots
      ensures Valid() && ok == (index < |old(rules)|)
      ensures rules == if ok then RemoveAt(old(rules), index) else old(rules)
    {
      if index >= ENTRIES { return false; }
      assert slots[..][index] == slots[index];
      if !slots[index].valid { return false; }
      CompactFrom(index);
      if count > 0 {
        count := count - 1;
      }
      rules := RemoveAt(rules, index);
      ok := true;
    }

    method CompactFrom(index: nat)
      requires Holds(slots[..], rules) && index < |rules|
      modifies slots
      ensures Holds(slots[..], RemoveAt(rules, index))
    {
      ghost var before := slots[..];
      slots[index] := EMPTY;
      var i := index;
      while i < ENTRIES - 1
        invariant index <= i < |rules|
        invariant forall j :: 0 <= j < index ==> slots[j] == before[j]
        invariant forall j :: index <= j < i ==> slots[j] == before[j + 1]
        invariant slots[i] == EMPTY
        invariant forall j :: i < j < ENTRIES ==> slots[j] == before[j]
      {
        assert slots[i + 1] == before[i + 1];
        if !slots[i + 1].valid { break; }
        slots[i] := slots[i + 1];
        slots[i + 1] := EMPTY;
        i := i + 1;
      }
      assert i == |rules| - 1;
    }

    /** The match loop of `acl_check_packet`: entries in order, invalid ones passed over. */
    method Match(p: Packet) returns (verdict: byte)
      requires Valid()
      modifies this`rules, this`stats, slots
      ensures Valid()
      ensures verdict == Verdict(old(rules), p) && rules == Counted(old(rules), p)
      ensures OneMore(old(stats), stats, verdict)
    {
      var k := Find(p);
      if k == ENTRIES {
        verdict := NO_MATCH;
        stats := stats.(noMatch := stats.noMatch + 1);
        return;
      }
      assert slots[..][k] == slots[k];
      var hit := slots[k].rule.(hits := (slots[k].rule.hits + 1) % 0x1_0000_0000);
      slots[k] := slots[k].(rule := hit);
      rules := rules[k := hit];
      verdict := ActionOf(hit);
      if hit.allow % 2 == ACTION_ALLOW {
        stats := stats.(allowed := stats.allowed + 1);
      } else {
        stats := stats.(denied := stats.denied + 1);
      }
    }

    method Find(p: Packet) returns (k: nat)
      requires Valid()
      ensures k == if FirstMatch(rules, p) < |rules| then FirstMatch(rules, p) else ENTRIES
    {
      hide Matches;
      k := 0;
      while k < ENTRIES
        invariant k <= ENTRIES
        invariant forall i :: 0 <= i < k && i < |rules| ==> !Matches(rules[i], p)
      {
        assert slots[..][k] == slots[k];
        if slots[k].valid && Matches(slots[k].rule, p) {
          FirstMatchIs(rules, p, k);
          return;
        }
        k := k + 1;
      }
      FirstMatchIs(rules, p, |rules|);
    }

    /** `acl_check_packet` behind the gate of the hooks: the count decides whether the table is looked at. */
    method CheckFrame(frame: seq<byte>) returns (verdict: byte)
      requires Valid()
      modifies this`rules, this`stats, slots
      ensures Valid()
      ensures verdict == FrameVerdict(old(rules), frame)
      ensures rules == match ParsePacket(frame) case None => old(rules) case Some(p) => Counted(old(rules), p)
      ensures ParsePacket(frame) == None || old(rules) == [] ==> stats == old(stats)
      ensures ParsePacket(frame) != None && old(rules) != [] ==> OneMore(old(stats), stats, verdict)
    {
      hide ParsePacket;
      var empty := IsEmpty();
      if empty { return NO_MATCH; }
      match ParsePacket(frame)
      case None => verdict := NO_MATCH;
      case Some(p) => verdict := Match(p);
    }

    /** What `load_acl_rules` does with a blob found in flash: copy it and reset its hit counters. */
    method CopyFrom(blob: seq<Entry>, ghost rs: seq<Rule>)
      requires slots.Length == ENTRIES && Holds(blob, rs)
      modifies this`rules, slots
      ensures Holds(slots[..], rules) && rules == Forgotten(rs)
    {
      forall i | 0 <= i < ENTRIES { slots[i] := blob[i]; }
      var j := 0;
      while j < ENTRIES
        invariant 0 <= j <= ENTRIES
        invariant forall i :: 0 <= i < ENTRIES ==>
          slots[i] == if i < j && blob[i].valid then blob[i].(rule := blob[i].rule.(hits := 0)) else blob[i]
      {
        if slots[j].valid {
          slots[j] := slots[j].(rule := slots[j].rule.(hits := 0));
        }
        j := j + 1;
      }
      rules := Forgotten(rs);
    }
  }

  /** The verdict without any gate: frames the check cannot read pass. */
  function FrameVerdict(rs: seq<Rule>, frame: seq<byte>): byte
  {
    match ParsePacket(frame)
    case None => NO_MATCH
    case Some(p) => Verdict(rs, p)
  }

  /** The four lists and their copy in flash; a list number out of range touches nothing. */
  class Firewall {
    const lists: seq<RuleList>
    var flash: map<nat, seq<Entry>>
    ghost var saved: map<nat, seq<Rule>>

    ghost predicate Distinct()
    {
      |lists| == LISTS
      && forall i, j :: 0 <= i < j < LISTS ==> lists[i] != lists[j] && lists[i].slots != lists[j].slots
    }

    ghost function Parts(): set<object>
      reads this
      requires Distinct()
    {
      (set k | 0 <= k < LISTS :: lists[k] as object) + (set k | 0 <= k < LISTS :: lists[k].slots as object)
    }

    ghost predicate FlashOk()
      reads this
    {
      saved.Keys == flash.Keys && forall k :: k in flash ==> Holds(flash[k], saved[k])
    }

    ghost predicate Valid()
      reads this, if Distinct() then Parts() else {}
    {
      Distinct() && FlashOk() && forall k :: 0 <= k < LISTS ==> lists[k].Valid()
    }

    constructor (a: RuleList, b: RuleList, c: RuleList, d: RuleList)
      requires a.Valid() && b.Valid() && c.Valid() && d.Valid()
      requires a != b && a != c && a != d && b != c && b != d && c != d
      requires a.slots != b.slots && a.slots != c.slots && a.slots != d.slots
      requires b.slots != c.slots && b.slots != d.slots && c.slots != d.slots
      ensures Valid() && lists == [a, b, c, d] && saved == map[]
    {
      lists := [a, b, c, d];
      flash, saved := map[], map[];
    }

    method Add(list: nat, src: u32, srcMask: u32, dest: u32, destMask: u32, proto: byte, srcPort: u16, destPort: u16,
        allow: byte)
      returns (ok: bool)
      requires Valid()
      modifies if list < LISTS then {lists[list] as object, lists[list].slots} else {}
      ensures Valid() && ok == (list < 4 && |old(lists[list].rules)| < 16)
      ensures ok ==> lists[list].rules == old(lists[list].rules) +
                       [NewRule(src, srcMask, dest, destMask, proto, srcPort, destPort, allow)]
      ensures !ok && list < LISTS ==> lists[list].rules == old(lists[list].rules)
      ensures list < LISTS ==> lists[list].stats == old(lists[list].stats)
    {
      if list >= LISTS { return false; }
      ok := lists[list].Add(src, srcMask, dest, destMask, proto, srcPort, destPort, allow);
    }

    method Delete(list: nat, index: nat) returns (ok: bool)
      requires Valid()
      modifies if list < LISTS then {lists[list] as object, lists[list].slots} else {}
      ensures Valid() && ok == (list < 4 && index < |old(lists[list].rules)|)
      ensures ok ==> lists[list].rules == RemoveAt(old(lists[list].rules), index)
      ensures !ok && list < LISTS ==> lists[list].rules == old(lists[list].rules)
      ensures list < LISTS ==> lists[list].stats == old(lists[list].stats)
    {
      if list >= LISTS { return false; }
      ok := lists[list].Delete(index);
    }

    /** `save_acl_rules`. */
    method Save()
      requires Valid()
      modifies this`flash, this`saved
      ensures Valid()
      ensures saved == map k: nat | 0 <= k < LISTS :: lists[k].rules
    {
      hide Holds;
      flash := map k: nat | 0 <= k < LISTS :: lists[k].slots[..];
      saved := map k: nat | 0 <= k < LISTS :: lists[k].rules;
    }

    /** `load_acl_rules`: every list is emptied, then filled from flash when flash can be opened and has it. */
    method Load(canOpen: bool)
      requires Valid()
      modifies Parts()
      ensures Valid()
      ensures forall k :: 0 <= k < LISTS ==>
        lists[k].rules == (if canOpen && k in saved then Forgotten(saved[k]) else [])
            && lists[k].stats == Stats(0, 0, 0)
    {
      var i := 0;
      while i < LISTS
        invariant 0 <= i <= LISTS && Valid()
        invariant forall k :: 0 <= k < i ==>
          lists[k].rules == (if canOpen && k in saved then Forgotten(saved[k]) else [])
              && lists[k].stats == Stats(0, 0, 0)
      {
        LoadList(i, canOpen);
        i := i + 1;
      }
    }

    /** A save and a reload leave every list deciding every packet as before, with its hits forgotten. */
    method SaveAndReload()
      requires Valid()
      modifies this`flash, this`saved, Parts()
      ensures Valid()
      ensures forall k :: 0 <= k < LISTS ==> lists[k].rules == Forgotten(old(lists[k].rules))
      ensures forall k, p :: 0 <= k < LISTS ==> Verdict(lists[k].rules, p) == Verdict(old(lists[k].rules), p)
    {
      hide Verdict, Forgotten, Holds;
      Save();
      Load(true);
      forall k, p | 0 <= k < LISTS
        ensures Verdict(lists[k].rules, p) == Verdict(old(lists[k].rules), p)
      {
        ForgettingIsHarmless(old(lists[k].rules), p);
      }
    }

    method LoadList(k: nat, canOpen: bool)
      requires Valid() && k < LISTS
      modifies lists[k], lists[k].slots
      ensures Valid() && lists[k].rules == (if canOpen && k in saved then Forgotten(saved[k]) else [])
      ensures lists[k].stats == Stats(0, 0, 0)
    {
      hide Forgotten;
      lists[k].Init();
      if canOpen && k in flash {
        lists[k].CopyFrom(flash[k], saved[k]);
        lists[k].Recount();
      }
    }
  }
}
