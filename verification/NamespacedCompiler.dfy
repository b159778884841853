/** The compiler of namespaced rules: sort, inherit through the trie, add Except entries, encode. */
module NamespacedCompiler {
  import opened Basics
  import opened Cidrs
  import opened CidrTries
  import opened PolicyTypes
  import opened NamespacedPolicy
  import opened TrieEncoding
  import opened Deduplication
  import Sorting

  function PrefixLength(r: Rule): int {
    |r.cidr.bits|
  }

  // ----- de-duplication of ports

  datatype PortKey = PortKey(protocol: Option<Protocol>, port: int, endPort: int)

  function KeyOf(p: Port): PortKey {
    PortKey(if p.protocol.Some? then Some(p.protocol.value.value) else None, Number(p.port), Number(p.endPort))
  }

  function PortKeys(ports: set<Port>): set<PortKey> {
    set p | p in ports :: KeyOf(p)
  }

  lemma SameKeySameSlot(p: Port, q: Port)
    requires KeyOf(p) == KeyOf(q)
    ensures SlotOf(p) == SlotOf(q)
  {
  }

  method MergeDuplicateL4Info(ports: seq<Port>) returns (result: seq<Port>)
    ensures Elements(result) <= Elements(ports) && PortKeys(Elements(result)) == PortKeys(Elements(ports))
    ensures |result| == |PortKeys(Elements(ports))|
  {
    result := FirstPerKey(KeyOf, ports);
    KeysArePortKeys(Elements(ports));
    KeysArePortKeys(Elements(result));
  }

  lemma KeysArePortKeys(ports: set<Port>)
    ensures PortKeys(ports) == Keys(KeyOf, ports)
  {
  }

  // ----- inheritance through the trie

  ghost predicate SamePrefixes(trie: CidrTrie, nonHost: map<Cidr, Rule>)
    reads trie, trie.repr
  {
    trie.Valid() && trie.keys == nonHost.Keys
  }

  /** What a linear scan of all broader rules with their Excepts would collect. */
  function LinearScan(nonHost: map<Cidr, Rule>, a: Address): set<Port> {
    set d, p | d in nonHost && Scanned(nonHost, d, a) && p in nonHost[d].ports :: p
  }

  /** The trie finds exactly what the linear scan would. */
  method DeriveL4Info(c: Cidr, trie: CidrTrie, nonHost: map<Cidr, Rule>) returns (derived: seq<Port>)
    requires SamePrefixes(trie, nonHost)
    ensures Elements(derived) == LinearScan(nonHost, NetworkAddress(c))
  {
    derived := [];
    var a := NetworkAddress(c);
    var containing := trie.FindContainingKeys(a);
    for i := 0 to |containing|
      invariant forall p :: p in derived <==>
                  exists d :: d in containing[..i] && Scanned(nonHost, d, a) && p in nonHost[d].ports
    {
      var info := nonHost[containing[i]];
      var inExcept := IsExcepted(info.except, a);
      assert containing[..i + 1] == containing[..i] + [containing[i]];
      if !inExcept {
        derived := derived + info.ports;
      }
    }
    assert containing[..|containing|] == containing;
  }

  method IsExcepted(except: seq<Cidr>, a: Address) returns (found: bool)
    ensures found == Excluded(Elements(except), a)
  {
    for i := 0 to |except|
      invariant forall j | 0 <= j < i :: !Contains(except[j], a)
    {
      if Contains(except[i], a) {
        assert except[i] in Elements(except);
        return true;
      }
    }
    return false;
  }

  // ----- the rule loop

  ghost predicate IsEntry(rules: set<Rule>, c: Cidr, entry: Rule) {
    && entry.ports != []
    && Elements(entry.ports) == EntryPorts(rules, c)
    && Elements(entry.except) == ExceptsOf(rules, c)
  }

  /** `cidrs` holds, for the rules seen so far, exactly the ports and Excepts of their entries. */
  ghost predicate Tracks(rules: set<Rule>, cidrs: map<Cidr, Rule>) {
    && cidrs.Keys == RuleCidrs(rules)
    && forall c | c in cidrs :: IsEntry(rules, c, cidrs[c])
  }

  function NonHostPart(cidrs: map<Cidr, Rule>): map<Cidr, Rule> {
    map c | c in cidrs && IsNonHost(c) :: cidrs[c]
  }

  lemma NonHostKeys(cidrs: map<Cidr, Rule>, c: Cidr, entry: Rule)
    ensures NonHostPart(cidrs[c := entry]).Keys == NonHostPart(cidrs).Keys + (if IsNonHost(c) then {c} else {})
  {
  }

  predicate Scanned(nonHost: map<Cidr, Rule>, d: Cidr, a: Address) {
    d in nonHost && Contains(d, a) && !Excluded(Elements(nonHost[d].except), a)
  }

  lemma ScannedIsLink(rules: set<Rule>, cidrs: map<Cidr, Rule>, c: Cidr, d: Cidr)
    requires Tracks(rules, cidrs) && c !in cidrs && d in cidrs && |d.bits| <= |c.bits|
    ensures Scanned(NonHostPart(cidrs), d, NetworkAddress(c)) <==> Link(rules, d, c)
  {
    assert IsEntry(rules, d, cidrs[d]);
    if Contains(d, NetworkAddress(c)) {
      PrefixesNest(d, c, NetworkAddress(c));
    } else if StrictlyContains(d, c) {
      ContainsTransitive(d, c, NetworkAddress(c));
      assert false;
    }
  }

  /** For a CIDR not seen yet and no shorter than any seen, the scan collects exactly the inherited ports. */
  lemma ScanIsInheritance(rules: set<Rule>, cidrs: map<Cidr, Rule>, c: Cidr)
    requires Tracks(rules, cidrs) && c !in cidrs
    requires forall d | d in cidrs :: |d.bits| <= |c.bits|
    ensures LinearScan(NonHostPart(cidrs), NetworkAddress(c)) == EntryPorts(rules, c)
  {
    assert OwnPorts(rules, c) == {};
    forall p | p in LinearScan(NonHostPart(cidrs), NetworkAddress(c))
      ensures p in InheritedPorts(rules, c)
    {
      var d :| d in cidrs && Scanned(NonHostPart(cidrs), d, NetworkAddress(c)) && p in cidrs[d].ports;
      assert |d.bits| <= |c.bits|;
      ScannedIsLink(rules, cidrs, c, d);
      assert IsEntry(rules, d, cidrs[d]) && p in Elements(cidrs[d].ports);
    }
    forall p | p in InheritedPorts(rules, c)
      ensures p in LinearScan(NonHostPart(cidrs), NetworkAddress(c))
    {
      InheritedIsScanned(rules, cidrs, c, p);
    }
  }

  lemma InheritedIsScanned(rules: set<Rule>, cidrs: map<Cidr, Rule>, c: Cidr, p: Port)
    requires Tracks(rules, cidrs) && c !in cidrs && p in InheritedPorts(rules, c)
    requires forall d | d in cidrs :: |d.bits| <= |c.bits|
    ensures p in LinearScan(NonHostPart(cidrs), NetworkAddress(c))
  {
    var d :| d in RuleCidrs(rules) && Link(rules, d, c) && p in EntryPorts(rules, d);
    ScannedIsLink(rules, cidrs, c, d);
    assert IsEntry(rules, d, cidrs[d]) && p in Elements(cidrs[d].ports);
  }

  lemma TracksOneMore(rules: set<Rule>, r: Rule, cidrs: map<Cidr, Rule>, entry: Rule)
    requires Tracks(rules, cidrs)
    requires forall d | d in cidrs :: |d.bits| <= |r.cidr.bits|
    requires entry.ports != []
    requires Elements(entry.ports) == EntryPorts(rules, r.cidr) + Elements(PortsOf(r))
    requires Elements(entry.except) == ExceptsOf(rules, r.cidr) + Elements(r.except)
    ensures Tracks(rules + {r}, cidrs[r.cidr := entry])
  {
    var more := cidrs[r.cidr := entry];
    assert RuleCidrs(rules + {r}) == RuleCidrs(rules) + {r.cidr};
    forall c | c in more
      ensures IsEntry(rules + {r}, c, more[c])
    {
      if c == r.cidr {
        EntryPortsExtended(rules, r);
      } else {
        assert IsEntry(rules, c, cidrs[c]);
        EntryPortsStable(rules, r, c);
      }
    }
  }

  /** The rule's entry: merged with the one held for its CIDR, or else with what broader CIDRs grant. */
  method MergedEntry(rule: Rule, cidrs: map<Cidr, Rule>, trie: CidrTrie, ghost rules: set<Rule>)
    returns (entry: Rule)
    requires Tracks(rules, cidrs) && SamePrefixes(trie, NonHostPart(cidrs))
    requires forall d | d in cidrs :: |d.bits| <= |rule.cidr.bits|
    ensures entry.ports != []
    ensures Elements(entry.ports) == EntryPorts(rules, rule.cidr) + Elements(PortsOf(rule))
    ensures Elements(entry.except) == ExceptsOf(rules, rule.cidr) + Elements(rule.except)
  {
    entry := rule.(ports := PortsOf(rule));
    if rule.cidr in cidrs {
      assert IsEntry(rules, rule.cidr, cidrs[rule.cidr]);
      entry := entry.(ports := entry.ports + cidrs[rule.cidr].ports,
                      except := entry.except + cidrs[rule.cidr].except);
    } else {
      var derived := DeriveL4Info(rule.cidr, trie, NonHostPart(cidrs));
      ScanIsInheritance(rules, cidrs, rule.cidr);
      assert ExceptsOf(rules, rule.cidr) == {};
      entry := entry.(ports := entry.ports + derived);
    }
  }

  /** One turn of the rule loop. */
  method AddRule(rule: Rule, cidrs: map<Cidr, Rule>, trie: CidrTrie, ghost rules: set<Rule>)
    returns (more: map<Cidr, Rule>)
    requires Tracks(rules, cidrs) && SamePrefixes(trie, NonHostPart(cidrs))
    requires forall d | d in cidrs :: |d.bits| <= |rule.cidr.bits|
    modifies trie, trie.repr
    ensures Tracks(rules + {rule}, more) && more.Keys == cidrs.Keys + {rule.cidr}
    ensures SamePrefixes(trie, NonHostPart(more)) && forall o | o in trie.repr && o !in old(trie.repr) :: fresh(o)
  {
    var entry := MergedEntry(rule, cidrs, trie, rules);
    TracksOneMore(rules, rule, cidrs, entry);
    more := cidrs[rule.cidr := entry];
    AddPrefix(rule.cidr, cidrs, entry, trie);
  }

  /** The trie follows the map of prefixes that are not hosts. */
  method AddPrefix(c: Cidr, cidrs: map<Cidr, Rule>, entry: Rule, trie: CidrTrie)
    requires SamePrefixes(trie, NonHostPart(cidrs))
    modifies trie, trie.repr
    ensures SamePrefixes(trie, NonHostPart(cidrs[c := entry]))
    ensures forall o | o in trie.repr && o !in old(trie.repr) :: fresh(o)
  {
    NonHostKeys(cidrs, c, entry);
    if IsNonHost(c) && c !in cidrs {
      trie.Insert(c);
    }
  }

  lemma KeptOneMore(node: Address, rules: seq<Rule>, i: nat)
    requires i < |rules|
    ensures Kept(node, Elements(rules[..i + 1]))
         == Kept(node, Elements(rules[..i])) + if Skipped(node, rules[i].cidr) then {} else {rules[i]}
  {
    assert rules[..i + 1] == rules[..i] + [rules[i]];
  }

  lemma AllExceptsOneMore(rules: set<Rule>, r: Rule)
    ensures AllExcepts(rules + {r}) == AllExcepts(rules) + Elements(r.except)
  {
  }

  lemma SeenAreNoLonger(node: Address, rules: seq<Rule>, i: nat)
    requires i < |rules| && Sorting.SortedBy(PrefixLength, rules)
    ensures forall d | d in RuleCidrs(Kept(node, Elements(rules[..i]))) :: |d.bits| <= |rules[i].cidr.bits|
  {
    forall d | d in RuleCidrs(Kept(node, Elements(rules[..i])))
      ensures |d.bits| <= |rules[i].cidr.bits|
    {
      var r :| r in rules[..i] && r.cidr == d;
      assert PrefixLength(r) <= PrefixLength(rules[i]);
    }
  }

  /** One rule of the sorted list, unless it is skipped. */
  method Turn(node: Address, rule: Rule, cidrs: map<Cidr, Rule>, excepts: set<Cidr>, trie: CidrTrie, ghost kept: set<Rule>)
    returns (more: map<Cidr, Rule>, moreExcepts: set<Cidr>)
    requires Tracks(kept, cidrs) && SamePrefixes(trie, NonHostPart(cidrs)) && excepts == AllExcepts(kept)
    requires forall d | d in RuleCidrs(kept) :: |d.bits| <= |rule.cidr.bits|
    modifies trie, trie.repr
    ensures var after := kept + if Skipped(node, rule.cidr) then {} else {rule};
            Tracks(after, more) && moreExcepts == AllExcepts(after)
    ensures SamePrefixes(trie, NonHostPart(more)) && forall o | o in trie.repr && o !in old(trie.repr) :: fresh(o)
  {
    more, moreExcepts := cidrs, excepts;
    if Skipped(node, rule.cidr) {
      assert kept + {} == kept;
      return;
    }
    AllExceptsOneMore(kept, rule);
    moreExcepts := excepts + Elements(rule.except);
    more := AddRule(rule, cidrs, trie, kept);
  }

  method CollectRules(node: Address, rules: seq<Rule>) returns (cidrs: map<Cidr, Rule>, excepts: set<Cidr>)
    ensures Tracks(Kept(node, Elements(rules)), cidrs)
    ensures excepts == AllExcepts(Kept(node, Elements(rules)))
  {
    cidrs, excepts := map[], {};
    var trie := new CidrTrie();
    var sorted := Sorting.StableSort(PrefixLength, rules);
    ghost var kept: set<Rule> := {};
    for i := 0 to |sorted|
      invariant kept == Kept(node, Elements(sorted[..i]))
      invariant fresh(trie) && forall o | o in trie.repr :: fresh(o)
      invariant Tracks(kept, cidrs) && SamePrefixes(trie, NonHostPart(cidrs))
      invariant excepts == AllExcepts(kept)
    {
      KeptOneMore(node, sorted, i);
      SeenAreNoLonger(node, sorted, i);
      cidrs, excepts := Turn(node, sorted[i], cidrs, excepts, trie, kept);
      kept := Kept(node, Elements(sorted[..i + 1]));
    }
    assert sorted[..|sorted|] == sorted;
    assert Elements(sorted) == Elements(rules);
  }

  // ----- encoding

  function SlotSet(ports: set<Port>): set<Slot> {
    set p | p in ports :: SlotOf(p)
  }

  /** Every slot comes from one of the ports, and every port has a slot if they fit. */
  ghost predicate Represents(slots: seq<Slot>, ports: set<Port>) {
    && Elements(slots) <= SlotSet(ports) + {NO_SLOT}
    && (|PortKeys(ports)| <= MAX_SLOTS ==> SlotSet(ports) <= Elements(slots))
  }

  lemma SameKeysSameSlots(a: set<Port>, b: set<Port>)
    requires PortKeys(a) == PortKeys(b)
    ensures SlotSet(a) <= SlotSet(b)
  {
    forall p | p in a
      ensures SlotOf(p) in SlotSet(b)
    {
      assert KeyOf(p) in PortKeys(b);
      var q :| q in b && KeyOf(q) == KeyOf(p);
      SameKeySameSlot(p, q);
    }
  }

  lemma PaddedSlots(ports: seq<Port>)
    requires ports != []
    ensures Elements(Padded(WantedSlots(ports, false, false))) <= SlotSet(Elements(ports)) + {NO_SLOT}
    ensures |ports| <= MAX_SLOTS ==> SlotSet(Elements(ports)) <= Elements(Padded(WantedSlots(ports, false, false)))
  {
    var slots := Padded(WantedSlots(ports, false, false));
    assert forall i | 0 <= i < |ports| && i < MAX_SLOTS :: slots[i] == SlotOf(ports[i]);
  }

  method EncodeEntry(ports: seq<Port>) returns (v: seq<Byte>)
    requires ports != []
    ensures |v| == TRIE_VALUE_LENGTH && Represents(Slots(v), Elements(ports))
  {
    var merged := MergeDuplicateL4Info(ports);
    assert KeyOf(ports[0]) in PortKeys(Elements(ports));
    PaddedSlots(merged);
    SameKeysSameSlots(Elements(merged), Elements(ports));
    SameKeysSameSlots(Elements(ports), Elements(merged));
    v := ComputeTrieValue(merged, false, false);
  }

  /** The ports an entry of the compiled table stands for. */
  function TablePorts(node: Address, kept: set<Rule>, c: Cidr): set<Port> {
    if c in RuleCidrs(kept) then EntryPorts(kept, c)
    else if c in AllExcepts(kept) then {DENY_ALL}
    else {CATCH_ALL}
  }

  function TableCidrs(node: Address, kept: set<Rule>): set<Cidr> {
    {node} + RuleCidrs(kept) + AllExcepts(kept)
  }

  ghost predicate Holds(table: map<seq<Byte>, seq<Byte>>, c: Cidr, ports: set<Port>) {
    && TrieKey(c) in table && |table[TrieKey(c)]| == TRIE_VALUE_LENGTH
    && Represents(Slots(table[TrieKey(c)]), ports)
  }

  /** One entry for the node, one per kept rule CIDR, one per other Except CIDR, and nothing else. */
  ghost predicate Compiled(table: map<seq<Byte>, seq<Byte>>, node: Address, kept: set<Rule>) {
    && (forall c: Cidr :: TrieKey(c) in table <==> c in TableCidrs(node, kept))
    && (forall c: Cidr | c in TableCidrs(node, kept) :: Holds(table, c, TablePorts(node, kept, c)))
  }

  /** The value stands for the ports. */
  ghost predicate Encodes(v: seq<Byte>, ports: seq<Port>) {
    |v| == TRIE_VALUE_LENGTH && Represents(Slots(v), Elements(ports))
  }

  /** Writes every entry; distinct CIDRs have distinct keys, so the order of the walk does not matter. */
  method EncodeAll(initial: map<seq<Byte>, seq<Byte>>, entries: map<Cidr, seq<Port>>)
    returns (table: map<seq<Byte>, seq<Byte>>, ghost values: map<Cidr, seq<Byte>>)
    requires forall c | c in entries :: entries[c] != []
    ensures Written(table, initial, values) && values.Keys == entries.Keys
    ensures forall c | c in entries :: Encodes(values[c], entries[c])
  {
    table, values := initial, map[];
    assert forall c: Cidr :: WrittenAt(table, initial, values, c);
    var rest := entries.Keys;
    while rest != {}
      invariant Written(table, initial, values) && rest <= entries.Keys && values.Keys == entries.Keys - rest
      invariant forall c | c in values :: Encodes(values[c], entries[c])
      decreases rest
    {
      var k :| k in rest;
      var v := EncodeEntry(entries[k]);
      WriteOne(table, initial, values, k, v);
      table, values := table[TrieKey(k) := v], values[k := v];
      rest := rest - {k};
    }
  }

  lemma NodeEntryAllows()
    ensures Represents(Padded(WantedSlots([], true, false)), {CATCH_ALL})
  {
    var slots := Padded(WantedSlots([], true, false));
    assert slots[0] == SlotOf(CATCH_ALL);
  }

  function WithExcepts(cidrs: map<Cidr, Rule>, excepts: set<Cidr>): map<Cidr, seq<Port>> {
    map c | c in cidrs.Keys + excepts :: if c in cidrs then cidrs[c].ports else [DENY_ALL]
  }

  lemma WithOneMoreExcept(cidrs: map<Cidr, Rule>, excepts: set<Cidr>, e: Cidr)
    ensures WithExcepts(cidrs, excepts + {e})
         == if e in WithExcepts(cidrs, excepts) then WithExcepts(cidrs, excepts)
            else WithExcepts(cidrs, excepts)[e := [DENY_ALL]]
  {
  }

  lemma EntriesMatchTable(node: Address, kept: set<Rule>, cidrs: map<Cidr, Rule>, c: Cidr)
    requires Tracks(kept, cidrs) && c in WithExcepts(cidrs, AllExcepts(kept))
    ensures WithExcepts(cidrs, AllExcepts(kept))[c] != []
    ensures Elements(WithExcepts(cidrs, AllExcepts(kept))[c]) == TablePorts(node, kept, c)
  {
    if c in cidrs {
      assert IsEntry(kept, c, cidrs[c]);
    }
  }

  /** Except CIDRs that no rule names get a deny-all entry. */
  method AddExcepts(cidrs: map<Cidr, Rule>, excepts: set<Cidr>) returns (entries: map<Cidr, seq<Port>>)
    ensures entries == WithExcepts(cidrs, excepts)
  {
    entries := map c | c in cidrs :: cidrs[c].ports;
    var others := excepts;
    while others != {}
      invariant others <= excepts
      invariant entries == WithExcepts(cidrs, excepts - others)
      decreases others
    {
      var e :| e in others;
      WithOneMoreExcept(cidrs, excepts - others, e);
      if e !in entries {
        entries := entries[e := [DENY_ALL]];
      }
      assert excepts - (others - {e}) == (excepts - others) + {e};
      others := others - {e};
    }
    assert excepts - others == excepts;
  }

  /** The whole compiler: for every rule list the table is exactly the one `Compiled` describes. */
  method ComputeMapEntries(node: Address, rules: seq<Rule>) returns (table: map<seq<Byte>, seq<Byte>>)
    ensures Compiled(table, node, Kept(node, Elements(rules)))
  {
    ghost var kept := Kept(node, Elements(rules));
    var nodeValue := ComputeTrieValue([], true, false);
    var cidrs, excepts := CollectRules(node, rules);
    var entries := AddExcepts(cidrs, excepts);
    forall c | c in entries
      ensures entries[c] != [] && Elements(entries[c]) == TablePorts(node, kept, c)
    {
      EntriesMatchTable(node, kept, cidrs, c);
    }
    ghost var values;
    table, values := EncodeAll(map[TrieKey(node) := nodeValue], entries);
    assert entries.Keys == RuleCidrs(kept) + AllExcepts(kept);
    TableOfEntries(table, node, nodeValue, kept, entries, values);
  }

  lemma TableOfEntries(table: map<seq<Byte>, seq<Byte>>, node: Address, nodeValue: seq<Byte>, kept: set<Rule>,
                       entries: map<Cidr, seq<Port>>, values: map<Cidr, seq<Byte>>)
    requires entries.Keys == values.Keys == RuleCidrs(kept) + AllExcepts(kept)
    requires |nodeValue| == TRIE_VALUE_LENGTH && Slots(nodeValue) == Padded(WantedSlots([], true, false))
    requires forall c | c in entries :: Elements(entries[c]) == TablePorts(node, kept, c) && Encodes(values[c], entries[c])
    requires Written(table, map[TrieKey(node) := nodeValue], values)
    ensures Compiled(table, node, kept)
  {
    var initial := map[TrieKey(node) := nodeValue];
    forall c: Cidr
      ensures TrieKey(c) in table <==> c in TableCidrs(node, kept)
      ensures c in TableCidrs(node, kept) ==> Holds(table, c, TablePorts(node, kept, c))
    {
      assert WrittenAt(table, initial, values, c);
      if TrieKey(c) == TrieKey(node) {
        TrieKeyInjective(c, node);
        NodeEntryAllows();
      }
    }
  }
}
