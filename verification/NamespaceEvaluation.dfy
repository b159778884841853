/** The datapath's look at the namespaced map, and what its verdict means for the rules. */
module NamespaceEvaluation {
  import opened Basics
  import opened Cidrs
  import opened PolicyTypes
  import opened TrieEncoding
  import opened NamespacedPolicy
  import opened NamespacedCompiler

  const ANY_PORT := 0

  predicate SlotMatches(s: Slot, pkt: Packet) {
    && (s.protocol == ANY_IP_PROTOCOL || s.protocol == pkt.protocol)
    && (s.startPort == ANY_PORT || pkt.destPort == s.startPort || s.startPort < pkt.destPort <= s.endPort)
  }

  /** Some slot matches, and no reserved slot comes first. */
  ghost predicate ScanAllows(slots: seq<Slot>, pkt: Packet) {
    exists i | 0 <= i < |slots| ::
      SlotMatches(slots[i], pkt) && forall j | 0 <= j <= i :: slots[j].protocol != RESERVED_IP_PROTOCOL
  }

  /** `evaluateNamespacePolicyByLookUp`, on the entry the map lookup returned. */
  method EvaluateNamespacePolicy(entry: Option<seq<Byte>>, pkt: Packet, podState: int) returns (action: int)
    requires entry.Some? ==> |entry.value| == TRIE_VALUE_LENGTH
    ensures entry.None? ==> action == if podState != POLICIES_APPLIED then ACTION_PASS else ACTION_DENY
    ensures entry.Some? ==> action == if ScanAllows(Slots(entry.value), pkt) then ACTION_ALLOW else ACTION_DENY
  {
    if entry.None? {
      return if podState != POLICIES_APPLIED then ACTION_PASS else ACTION_DENY;
    }
    ghost var slots := Slots(entry.value);
    for i := 0 to MAX_SLOTS
      invariant forall j | 0 <= j < i :: !SlotMatches(slots[j], pkt) && slots[j].protocol != RESERVED_IP_PROTOCOL
    {
      var slot := ReadSlot(entry.value, i);
      assert slot == slots[i];
      if slot.protocol == RESERVED_IP_PROTOCOL {
        return ACTION_DENY;
      }
      if SlotMatches(slot, pkt) {
        return ACTION_ALLOW;
      }
    }
    return ACTION_DENY;
  }

  // ----- the plain reading of the rules

  /** What a port entry means: a protocol, and no port, one port or a range. */
  predicate PortGrants(p: Port, pkt: Packet) {
    && (p.protocol.None? || match p.protocol.value.value
        case TCP => pkt.protocol == 6
        case UDP => pkt.protocol == 17
        case SCTP => pkt.protocol == 132
        case DenyAll => false
        case CatchAll => true
        case Other(_) => true)
    && (p.port.None? || pkt.destPort == p.port.value
        || (p.endPort.Some? && p.port.value <= pkt.destPort <= p.endPort.value))
  }

  predicate Matches(r: Rule, a: Address, pkt: Packet) {
    Contains(r.cidr, a) && exists p | p in PortsOf(r) :: PortGrants(p, pkt)
  }

  /** Some rule contains the address, outside its Excepts, and grants the port. */
  predicate Allows(rules: set<Rule>, a: Address, pkt: Packet) {
    exists r | r in rules :: Matches(r, a, pkt) && !Excluded(Elements(r.except), a)
  }

  predicate ValidPort(p: Port) {
    && (p.protocol.Some? ==> p.protocol.value.value != DenyAll)
    && (p.port.Some? ==> 1 <= p.port.value <= 65535)
    && (p.endPort.Some? ==> 1 <= p.endPort.value <= 65535)
  }

  predicate ValidPorts(rules: set<Rule>) {
    forall r, p | r in rules && p in r.ports :: ValidPort(p)
  }

  lemma SlotMeansPort(p: Port, pkt: Packet)
    requires ValidPort(p)
    ensures SlotOf(p).protocol != RESERVED_IP_PROTOCOL
    ensures SlotMatches(SlotOf(p), pkt) <==> PortGrants(p, pkt)
  {
  }

  /** Scanning an entry that stands for `ports` allows what one of the ports grants. */
  lemma ScanMeansPorts(slots: seq<Slot>, ports: set<Port>, pkt: Packet)
    requires Represents(slots, ports) && pkt.protocol != 0
    requires forall p | p in ports :: ValidPort(p)
    ensures ScanAllows(slots, pkt) ==> exists p | p in ports :: PortGrants(p, pkt)
    ensures |PortKeys(ports)| <= MAX_SLOTS && (exists p | p in ports :: PortGrants(p, pkt)) ==> ScanAllows(slots, pkt)
  {
    if ScanAllows(slots, pkt) {
      var i :| 0 <= i < |slots| && SlotMatches(slots[i], pkt);
      assert slots[i] in Elements(slots) && slots[i] in SlotSet(ports);
      var p :| p in ports && SlotOf(p) == slots[i];
      SlotMeansPort(p, pkt);
    }
    if p :| p in ports && PortGrants(p, pkt) && |PortKeys(ports)| <= MAX_SLOTS {
      SlotMeansPort(p, pkt);
      assert SlotOf(p) in SlotSet(ports) && SlotOf(p) in Elements(slots);
      var i :| 0 <= i < |slots| && slots[i] == SlotOf(p);
      forall j | 0 <= j <= i
        ensures slots[j].protocol != RESERVED_IP_PROTOCOL
      {
        assert slots[j] in Elements(slots);
        if slots[j] != NO_SLOT {
          var q :| q in ports && SlotOf(q) == slots[j];
          SlotMeansPort(q, pkt);
        }
      }
    }
  }

  /**
   * What the bytes of one entry decide: nothing when the deny flag is set, everything when the allow flag is set or there are
   * no ports, and otherwise what one of the first 24 ports grants.
   */
  lemma ValueDecides(bytes: seq<Byte>, l4Info: seq<Port>, allowAll: bool, denyAll: bool, pkt: Packet)
    requires |bytes| == 288 && Slots(bytes) == Padded(WantedSlots(l4Info, allowAll, denyAll))
    requires pkt.protocol != 0 && forall p | p in l4Info :: ValidPort(p)
    ensures ScanAllows(Slots(bytes), pkt) <==>
              !denyAll && (allowAll || l4Info == [] || exists i | 0 <= i < |l4Info| && i < 24 :: PortGrants(l4Info[i], pkt))
  {
    var slots, wanted := Slots(bytes), WantedSlots(l4Info, allowAll, denyAll);
    if denyAll {
      assert slots[0].protocol == RESERVED_IP_PROTOCOL;
    } else if allowAll || l4Info == [] {
      assert slots[0] == Slot(ANY_IP_PROTOCOL, 0, 0) && SlotMatches(slots[0], pkt);
    } else {
      forall i: nat | i < |l4Info| && i < MAX_SLOTS
        ensures slots[i] == SlotOf(l4Info[i]) && slots[i].protocol != RESERVED_IP_PROTOCOL
        ensures SlotMatches(slots[i], pkt) <==> PortGrants(l4Info[i], pkt)
      {
        SlotMeansPort(l4Info[i], pkt);
      }
      if i :| 0 <= i < |l4Info| && i < 24 && PortGrants(l4Info[i], pkt) {
        assert SlotMatches(slots[i], pkt);
      }
    }
  }

  lemma DenyEntryDenies(slots: seq<Slot>, pkt: Packet)
    requires Represents(slots, {DENY_ALL}) && pkt.protocol != 0
    ensures !ScanAllows(slots, pkt)
  {
    forall i | 0 <= i < |slots|
      ensures !SlotMatches(slots[i], pkt) || slots[i].protocol == RESERVED_IP_PROTOCOL
    {
      assert slots[i] in Elements(slots);
      assert SlotSet({DENY_ALL}) == {SlotOf(DENY_ALL)};
    }
  }

  lemma EveryEntryPortIsOwned(rules: set<Rule>, c: Cidr, p: Port)
    requires p in EntryPorts(rules, c)
    ensures exists r | r in rules :: Contains(r.cidr, c) && p in PortsOf(r)
    decreases |c.bits|
  {
    if p in OwnPorts(rules, c) {
      var r :| r in rules && r.cidr == c && p in PortsOf(r);
    } else {
      var d :| d in RuleCidrs(rules) && Link(rules, d, c) && p in EntryPorts(rules, d);
      EveryEntryPortIsOwned(rules, d, p);
      var r :| r in rules && Contains(r.cidr, d) && p in PortsOf(r);
      ContainsTransitive(r.cidr, d, c);
    }
  }

  lemma EntryPortsValid(rules: set<Rule>, c: Cidr)
    requires ValidPorts(rules)
    ensures forall p | p in EntryPorts(rules, c) :: ValidPort(p)
  {
    forall p | p in EntryPorts(rules, c)
      ensures ValidPort(p)
    {
      EveryEntryPortIsOwned(rules, c, p);
    }
  }

  /** What the datapath decides about `a`, from the compiled table alone. */
  ghost predicate TableAllows(table: map<seq<Byte>, seq<Byte>>, a: Address, pkt: Packet) {
    var entry := LongestMatch(table, a);
    entry.Some? && |entry.value| == TRIE_VALUE_LENGTH && ScanAllows(Slots(entry.value), pkt)
  }

  lemma TableLookup(table: map<seq<Byte>, seq<Byte>>, node: Address, kept: set<Rule>, a: Address)
    requires Compiled(table, node, kept)
    ensures LongestMatch(table, a).None? ==> forall d: Cidr | d in TableCidrs(node, kept) :: !Contains(d, a)
    ensures LongestMatch(table, a).Some? ==>
              exists c: Cidr :: IsEntryFor(table, node, kept, a, c)
  {
    LongestMatchIsLongest(table, a);
    if LongestMatch(table, a).Some? {
      var c: Cidr :| IsLongestMatch(table, a, c) && LongestMatch(table, a).value == table[TrieKey(c)];
      assert IsEntryFor(table, node, kept, a, c);
    } else {
      forall d: Cidr | d in TableCidrs(node, kept)
        ensures !Contains(d, a)
      {
        assert TrieKey(d) in table;
      }
    }
  }

  /** `c` is the longest CIDR of the table around `a`, and its entry is what the lookup returns. */
  ghost predicate IsEntryFor(table: map<seq<Byte>, seq<Byte>>, node: Address, kept: set<Rule>, a: Address, c: Cidr) {
    && c in TableCidrs(node, kept) && Contains(c, a)
    && (forall d: Cidr | d in TableCidrs(node, kept) && Contains(d, a) :: |d.bits| <= |c.bits|)
    && TrieKey(c) in table && LongestMatch(table, a) == Some(table[TrieKey(c)])
    && Holds(table, c, TablePorts(node, kept, c))
  }

  // ----- no invented permission

  /** Whatever the Excepts, and even when slots were cut off, an allowed packet has a rule that matches it. */
  lemma NoInventedPermission(table: map<seq<Byte>, seq<Byte>>, node: Address, rules: set<Rule>, a: Address, pkt: Packet)
    requires Compiled(table, node, Kept(node, rules)) && ValidPorts(rules)
    requires a != node && pkt.protocol != 0
    ensures TableAllows(table, a, pkt) ==> exists r | r in rules :: Matches(r, a, pkt)
  {
    var kept := Kept(node, rules);
    TableLookup(table, node, kept, a);
    if TableAllows(table, a, pkt) {
      var c: Cidr :| IsEntryFor(table, node, kept, a, c);
      HostContainsItself(c, a);
      EntryIsSound(Slots(table[TrieKey(c)]), node, kept, a, c, pkt);
    }
  }

  lemma EntryIsSound(slots: seq<Slot>, node: Address, kept: set<Rule>, a: Address, c: Cidr, pkt: Packet)
    requires c in TableCidrs(node, kept) && c != node && Contains(c, a) && ValidPorts(kept)
    requires Represents(slots, TablePorts(node, kept, c)) && pkt.protocol != 0
    requires ScanAllows(slots, pkt)
    ensures exists r | r in kept :: Matches(r, a, pkt)
  {
    if c in RuleCidrs(kept) {
      EntryPortsValid(kept, c);
      ScanMeansPorts(slots, EntryPorts(kept, c), pkt);
      var p :| p in EntryPorts(kept, c) && PortGrants(p, pkt);
      EveryEntryPortIsOwned(kept, c, p);
      var r :| r in kept && Contains(r.cidr, c) && p in PortsOf(r);
      ContainsTransitive(r.cidr, c, a);
      assert Matches(r, a, pkt);
    } else {
      DenyEntryDenies(slots, pkt);
    }
  }

  lemma HostContainsItself(c: Cidr, a: Address)
    requires Contains(c, a)
    ensures |c.bits| == Width(c.family) ==> c == a
  {
    if |c.bits| == |a.bits| {
      PrefixesNest(c, a, a);
    }
  }
}
