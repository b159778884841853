/** The compiler of cluster-policy rules: every entry carries all rules of the CIDRs around it. */
module ClusterCompiler {
  import opened Basics
  import opened Cidrs
  import opened PolicyTypes
  import opened TrieEncoding
  import NamespacedPolicy
  import opened Deduplication
  import Sorting

  datatype ClusterRule = ClusterRule(cidr: Cidr, ports: seq<Port>, action: Action, priority: int)

  function PrefixLength(r: ClusterRule): int {
    |r.cidr.bits|
  }

  predicate Skipped(node: Address, r: ClusterRule) {
    NamespacedPolicy.Skipped(node, r.cidr)
  }

  function Kept(node: Address, rules: set<ClusterRule>): set<ClusterRule> {
    set r | r in rules && !Skipped(node, r)
  }

  function RuleCidrs(rules: set<ClusterRule>): set<Cidr> {
    set r | r in rules :: r.cidr
  }

  const ANY_PORTS := Port(None, None, None)

  /** One L4 rule per port; a rule without ports matches everything. */
  function L4RulesOf(r: ClusterRule): (l4: seq<L4Rule>)
    ensures l4 != []
  {
    if r.ports == [] then [L4Rule(ANY_PORTS, r.action, r.priority)]
    else seq(|r.ports|, i requires 0 <= i < |r.ports| => L4Rule(r.ports[i], r.action, r.priority))
  }

  /** The L4 rules of every rule whose CIDR contains `c`. */
  function Around(rules: set<ClusterRule>, c: Cidr): set<L4Rule> {
    set r, l | r in rules && Contains(r.cidr, c) && l in L4RulesOf(r) :: l
  }

  // ----- the rule loop

  ghost predicate IsEntry(rules: set<ClusterRule>, c: Cidr, entry: seq<L4Rule>) {
    entry != [] && Elements(entry) == Around(rules, c)
  }

  ghost predicate Tracks(rules: set<ClusterRule>, l4Rules: map<Cidr, seq<L4Rule>>, processed: seq<Cidr>) {
    && l4Rules.Keys == RuleCidrs(rules) == Elements(processed)
    && (forall c | c in l4Rules :: IsEntry(rules, c, l4Rules[c]))
    && (forall i, j | 0 <= i < j < |processed| :: |processed[i].bits| <= |processed[j].bits|)
  }

  /** The last processed CIDR around the current one's network address; being sorted, the longest. */
  method FindMostSpecificOverlap(current: Cidr, processed: seq<Cidr>) returns (overlap: Option<Cidr>)
    requires forall i, j | 0 <= i < j < |processed| :: |processed[i].bits| <= |processed[j].bits|
    ensures overlap.None? ==> forall d | d in processed :: !Contains(d, NetworkAddress(current))
    ensures overlap.Some? ==> overlap.value in processed && Contains(overlap.value, NetworkAddress(current))
    ensures overlap.Some? ==>
              forall d | d in processed && Contains(d, NetworkAddress(current)) :: |d.bits| <= |overlap.value.bits|
  {
    var i := |processed|;
    while i > 0
      invariant 0 <= i <= |processed|
      invariant forall j | i <= j < |processed| :: !Contains(processed[j], NetworkAddress(current))
    {
      i := i - 1;
      if Contains(processed[i], NetworkAddress(current)) {
        return Some(processed[i]);
      }
    }
    return None;
  }

  /** A broader-or-equal CIDR around the network address contains the whole CIDR. */
  lemma AroundNetwork(d: Cidr, c: Cidr)
    requires |d.bits| <= |c.bits|
    ensures Contains(d, NetworkAddress(c)) <==> Contains(d, c)
  {
    if Contains(d, NetworkAddress(c)) {
      PrefixesNest(d, c, NetworkAddress(c));
    } else if Contains(d, c) {
      ContainsTransitive(d, c, NetworkAddress(c));
      assert false;
    }
  }

  /** The most specific overlap already carries everything around the current CIDR. */
  lemma OverlapCarriesAll(rules: set<ClusterRule>, c: Cidr, overlap: Option<Cidr>)
    requires forall d | d in RuleCidrs(rules) :: |d.bits| <= |c.bits|
    requires overlap.None? ==> forall d | d in RuleCidrs(rules) :: !Contains(d, NetworkAddress(c))
    requires overlap.Some? ==> overlap.value in RuleCidrs(rules) && Contains(overlap.value, NetworkAddress(c))
    requires overlap.Some? ==>
               forall d | d in RuleCidrs(rules) && Contains(d, NetworkAddress(c)) :: |d.bits| <= |overlap.value.bits|
    ensures Around(rules, c) == if overlap.Some? then Around(rules, overlap.value) else {}
    ensures c in RuleCidrs(rules) ==> overlap == Some(c)
  {
    forall r | r in rules
      ensures Contains(r.cidr, c) <==> overlap.Some? && Contains(r.cidr, overlap.value)
    {
      assert r.cidr in RuleCidrs(rules);
      AroundNetwork(r.cidr, c);
      if overlap.Some? {
        AroundNetwork(overlap.value, c);
        if Contains(r.cidr, c) {
          PrefixesNest(r.cidr, overlap.value, NetworkAddress(c));
        } else if Contains(r.cidr, overlap.value) {
          ContainsTransitive(r.cidr, overlap.value, c);
          assert false;
        }
      }
    }
    if c in RuleCidrs(rules) {
      AroundNetwork(c, c);
      PrefixesNest(overlap.value, c, NetworkAddress(c));
    }
  }

  lemma AroundOneMore(rules: set<ClusterRule>, r: ClusterRule, c: Cidr)
    requires |c.bits| <= |r.cidr.bits|
    ensures Around(rules + {r}, c) == Around(rules, c) + if c == r.cidr then Elements(L4RulesOf(r)) else {}
  {
    if Contains(r.cidr, c) {
      PrefixesNest(r.cidr, c, c);
    }
  }

  lemma StillSorted(processed: seq<Cidr>, c: Cidr)
    requires forall i, j | 0 <= i < j < |processed| :: |processed[i].bits| <= |processed[j].bits|
    requires forall d | d in Elements(processed) :: |d.bits| <= |c.bits|
    ensures forall i, j | 0 <= i < j < |processed + [c]| :: |(processed + [c])[i].bits| <= |(processed + [c])[j].bits|
    ensures Elements(processed + [c]) == Elements(processed) + {c}
  {
    assert forall i | 0 <= i < |processed| :: processed[i] in Elements(processed);
  }

  lemma TracksOneMore(rules: set<ClusterRule>, r: ClusterRule, l4Rules: map<Cidr, seq<L4Rule>>, processed: seq<Cidr>,
                      entry: seq<L4Rule>)
    requires Tracks(rules, l4Rules, processed)
    requires forall d | d in l4Rules :: |d.bits| <= |r.cidr.bits|
    requires entry != [] && Elements(entry) == Around(rules, r.cidr) + Elements(L4RulesOf(r))
    ensures Tracks(rules + {r}, l4Rules[r.cidr := entry], processed + [r.cidr])
  {
    assert RuleCidrs(rules + {r}) == RuleCidrs(rules) + {r.cidr};
    StillSorted(processed, r.cidr);
    var more := l4Rules[r.cidr := entry];
    forall c | c in more
      ensures IsEntry(rules + {r}, c, more[c])
    {
      AroundOneMore(rules, r, c);
      assert c != r.cidr ==> IsEntry(rules, c, l4Rules[c]);
    }
  }

  method AddRule(rule: ClusterRule, l4Rules: map<Cidr, seq<L4Rule>>, processed: seq<Cidr>, ghost rules: set<ClusterRule>)
    returns (more: map<Cidr, seq<L4Rule>>)
    requires Tracks(rules, l4Rules, processed)
    requires forall d | d in l4Rules :: |d.bits| <= |rule.cidr.bits|
    ensures Tracks(rules + {rule}, more, processed + [rule.cidr])
  {
    var c := rule.cidr;
    var overlap := FindMostSpecificOverlap(c, processed);
    assert forall d | d in RuleCidrs(rules) :: d in Elements(processed);
    OverlapCarriesAll(rules, c, overlap);
    var entry := if c in l4Rules then l4Rules[c] else [];
    if overlap.Some? {
      // A repeated CIDR overlaps itself, and its list is appended to itself.
      entry := entry + l4Rules[overlap.value];
    }
    entry := entry + L4RulesOf(rule);
    TracksOneMore(rules, rule, l4Rules, processed, entry);
    more := l4Rules[c := entry];
  }

  method CollectRules(node: Address, rules: seq<ClusterRule>) returns (l4Rules: map<Cidr, seq<L4Rule>>)
    ensures l4Rules.Keys == RuleCidrs(Kept(node, Elements(rules)))
    ensures forall c | c in l4Rules :: l4Rules[c] != [] && Elements(l4Rules[c]) == Around(Kept(node, Elements(rules)), c)
  {
    l4Rules := map[];
    var processed: seq<Cidr> := [];
    var sorted := Sorting.StableSort(PrefixLength, rules);
    ghost var kept: set<ClusterRule> := {};
    for i := 0 to |sorted|
      invariant kept == Kept(node, Elements(sorted[..i]))
      invariant Tracks(kept, l4Rules, processed)
    {
      KeptOneMore(node, sorted, i);
      if !Skipped(node, sorted[i]) {
        SeenAreNoLonger(node, sorted, i);
        l4Rules := AddRule(sorted[i], l4Rules, processed, kept);
        processed := processed + [sorted[i].cidr];
        kept := kept + {sorted[i]};
      }
    }
    assert sorted[..|sorted|] == sorted;
    assert Elements(sorted) == Elements(rules);
  }

  lemma KeptOneMore(node: Address, rules: seq<ClusterRule>, i: nat)
    requires i < |rules|
    ensures Kept(node, Elements(rules[..i + 1]))
         == Kept(node, Elements(rules[..i])) + if Skipped(node, rules[i]) then {} else {rules[i]}
  {
    assert rules[..i + 1] == rules[..i] + [rules[i]];
  }

  lemma SeenAreNoLonger(node: Address, rules: seq<ClusterRule>, i: nat)
    requires i < |rules| && Sorting.SortedBy(PrefixLength, rules)
    ensures forall d | d in RuleCidrs(Kept(node, Elements(rules[..i]))) :: |d.bits| <= |rules[i].cidr.bits|
  {
    forall d | d in RuleCidrs(Kept(node, Elements(rules[..i])))
      ensures |d.bits| <= |rules[i].cidr.bits|
    {
      var r :| r in rules[..i] && r.cidr == d;
      assert PrefixLength(r) <= PrefixLength(rules[i]);
    }
  }

  // ----- de-duplication and encoding

  /** The de-duplication key formats the protocol pointer, not the protocol; a missing one counts as TCP. */
  datatype L4Key = L4Key(protocol: Option<nat>, port: int, endPort: int, priority: int, action: Action)

  function KeyOf(l: L4Rule): L4Key {
    L4Key(if l.port.protocol.Some? then Some(l.port.protocol.value.address) else None,
          Number(l.port.port), Number(l.port.endPort), l.priority, l.action)
  }

  function L4Keys(rules: set<L4Rule>): set<L4Key> {
    set l | l in rules :: KeyOf(l)
  }

  method RemoveDuplicateL4Rules(rules: seq<L4Rule>) returns (result: seq<L4Rule>)
    ensures Elements(result) <= Elements(rules) && L4Keys(Elements(result)) == L4Keys(Elements(rules))
    ensures |result| == |L4Keys(Elements(rules))|
  {
    result := FirstPerKey(KeyOf, rules);
    KeysAreL4Keys(Elements(rules));
    KeysAreL4Keys(Elements(result));
  }

  lemma KeysAreL4Keys(rules: set<L4Rule>)
    ensures L4Keys(rules) == Keys(KeyOf, rules)
  {
  }

  predicate ValidL4Rule(l: L4Rule) {
    && (l.port.port.Some? ==> 1 <= l.port.port.value <= 65535)
    && (l.port.endPort.Some? ==> 1 <= l.port.endPort.value <= 65535)
    && 0 <= l.priority < 65536
  }

  /** Equal addresses hold equal protocols, as in any one heap. */
  predicate OneHeap(rules: set<L4Rule>) {
    forall l, m | l in rules && m in rules && l.port.protocol.Some? && m.port.protocol.Some?
                  && l.port.protocol.value.address == m.port.protocol.value.address ::
      l.port.protocol == m.port.protocol
  }

  function SlotSet(rules: set<L4Rule>): set<RankedSlot> {
    set l | l in rules :: RankedSlotOf(l)
  }

  lemma SameKeysSameSlots(a: set<L4Rule>, b: set<L4Rule>)
    requires L4Keys(a) == L4Keys(b) && OneHeap(a + b) && forall l | l in a + b :: ValidL4Rule(l)
    ensures SlotSet(a) <= SlotSet(b)
  {
    forall l | l in a
      ensures RankedSlotOf(l) in SlotSet(b)
    {
      assert KeyOf(l) in L4Keys(b);
      var m :| m in b && KeyOf(m) == KeyOf(l);
      assert l in a + b && m in a + b && l.port == m.port;
    }
  }

  /** Decoded, the value holds one slot per rule, if they fit; the others are zero. */
  ghost predicate Represents(slots: seq<RankedSlot>, rules: set<L4Rule>) {
    && Elements(slots) <= SlotSet(rules) + {NO_RANKED_SLOT}
    && (|L4Keys(rules)| <= MAX_SLOTS ==> SlotSet(rules) <= Elements(slots))
  }

  lemma PaddedSlots(rules: seq<L4Rule>)
    ensures Elements(PaddedRanked(rules)) <= SlotSet(Elements(rules)) + {NO_RANKED_SLOT}
    ensures |rules| <= MAX_SLOTS ==> SlotSet(Elements(rules)) <= Elements(PaddedRanked(rules))
  {
    var slots := PaddedRanked(rules);
    assert forall i | 0 <= i < |rules| && i < MAX_SLOTS :: slots[i] == RankedSlotOf(rules[i]);
  }

  predicate ValidL4(rules: set<L4Rule>) {
    OneHeap(rules) && forall l | l in rules :: ValidL4Rule(l)
  }

  method EncodeEntry(rules: seq<L4Rule>) returns (v: seq<Byte>)
    ensures |v| == ADMIN_TRIE_VALUE_LENGTH
    ensures ValidL4(Elements(rules)) ==> Represents(RankedSlots(v), Elements(rules))
  {
    var unique := RemoveDuplicateL4Rules(rules);
    PaddedSlots(unique);
    if ValidL4(Elements(rules)) {
      assert Elements(unique) + Elements(rules) == Elements(rules) + Elements(unique) == Elements(rules);
      SameKeysSameSlots(Elements(unique), Elements(rules));
      SameKeysSameSlots(Elements(rules), Elements(unique));
    }
    v := ComputeTrieValueForCPE(unique);
  }

  const NODE_RULE := L4Rule(ANY_PORTS, Accept, 0)

  ghost predicate Holds(table: map<seq<Byte>, seq<Byte>>, c: Cidr, rules: set<L4Rule>) {
    && TrieKey(c) in table && |table[TrieKey(c)]| == ADMIN_TRIE_VALUE_LENGTH
    && (ValidL4(rules) ==> Represents(RankedSlots(table[TrieKey(c)]), rules))
  }

  /** One entry for the node and one per kept rule CIDR, with every rule around it. */
  ghost predicate Compiled(table: map<seq<Byte>, seq<Byte>>, node: Address, kept: set<ClusterRule>) {
    && (forall c: Cidr :: TrieKey(c) in table <==> c == node || c in RuleCidrs(kept))
    && (forall c | c in RuleCidrs(kept) :: Holds(table, c, Around(kept, c)))
    && (node !in RuleCidrs(kept) ==> Holds(table, node, {NODE_RULE}))
  }

  /** The value stands for the rules. */
  ghost predicate Encodes(v: seq<Byte>, rules: seq<L4Rule>) {
    |v| == ADMIN_TRIE_VALUE_LENGTH && (ValidL4(Elements(rules)) ==> Represents(RankedSlots(v), Elements(rules)))
  }

  method EncodeAll(initial: map<seq<Byte>, seq<Byte>>, entries: map<Cidr, seq<L4Rule>>)
    returns (table: map<seq<Byte>, seq<Byte>>, ghost values: map<Cidr, seq<Byte>>)
    ensures Written(table, initial, values) && values.Keys == entries.Keys
    ensures forall c | c in entries :: Encodes(values[c], entries[c])
  {
    table, values := initial, map[];
    assert forall c: Cidr :: WrittenAt(table, initial, values, c);
    var rest := entries.Keys;
    while rest != {}
      invariant Written(table, initial, values) && rest <= entries.Keys && values.Keys == entries.Keys - rest
      invariant forall c | c in values :: Encodes(values[c], entries[c])
      decreases rest
    {
      var k :| k in rest;
      var v := EncodeEntry(entries[k]);
      WriteOne(table, initial, values, k, v);
      table, values := table[TrieKey(k) := v], values[k := v];
      rest := rest - {k};
    }
  }

  /** The whole compiler: for every rule list the table is exactly the one `Compiled` describes. */
  method ComputeClusterMapEntries(node: Address, rules: seq<ClusterRule>) returns (table: map<seq<Byte>, seq<Byte>>)
    ensures Compiled(table, node, Kept(node, Elements(rules)))
  {
    ghost var kept := Kept(node, Elements(rules));
    var nodeValue := ComputeTrieValueForCPE([NODE_RULE]);
    PaddedSlots([NODE_RULE]);
    assert Elements([NODE_RULE]) == {NODE_RULE};
    var l4Rules := CollectRules(node, rules);
    ghost var initial := map[TrieKey(node) := nodeValue];
    ghost var values;
    table, values := EncodeAll(map[TrieKey(node) := nodeValue], l4Rules);
    forall c: Cidr
      ensures TrieKey(c) in table <==> c == node || c in RuleCidrs(kept)
      ensures c in RuleCidrs(kept) ==> Holds(table, c, Around(kept, c))
      ensures c == node && c !in RuleCidrs(kept) ==> Holds(table, c, {NODE_RULE})
    {
      assert WrittenAt(table, initial, values, c);
      if TrieKey(c) == TrieKey(node) {
        TrieKeyInjective(c, node);
      }
      if c in l4Rules {
        assert IsEntry(kept, c, l4Rules[c]);
      }
    }
    assert L4Keys({NODE_RULE}) == {KeyOf(NODE_RULE)};
  }
}
