/** When the compiled namespaced table decides exactly what the rules say. */
module NamespaceExactness {
  import opened Basics
  import opened Cidrs
  import opened PolicyTypes
  import opened TrieEncoding
  import opened NamespacedPolicy
  import opened NamespacedCompiler
  import opened NamespaceEvaluation

  // ----- the conditions

  /** Every Except lies strictly inside its rule's CIDR. */
  predicate ExceptsInside(rules: set<Rule>) {
    forall r, e | r in rules && e in r.except :: StrictlyContains(r.cidr, e)
  }

  /** Rules for one CIDR exclude the same prefixes. */
  predicate ExceptsShared(rules: set<Rule>) {
    forall r, s | r in rules && s in rules && r.cidr == s.cidr :: Elements(r.except) == Elements(s.except)
  }

  /** Any other rule CIDR that meets an Except lies inside it. */
  predicate ExceptsSeparate(rules: set<Rule>) {
    forall r, s, e | r in rules && s in rules && e in r.except && s.cidr != r.cidr ::
      Overlap(s.cidr, e) ==> Contains(e, s.cidr)
  }

  predicate DisciplinedExcepts(rules: set<Rule>) {
    ExceptsInside(rules) && ExceptsShared(rules) && ExceptsSeparate(rules)
  }

  /** No rule broader than a host is dropped because the node has its network address. */
  predicate NodeIsNoNetwork(node: Address, rules: set<Rule>) {
    forall r | r in rules && NetworkAddress(r.cidr) == node :: |r.cidr.bits| == Width(r.cidr.family)
  }

  /** The host test looks for 32 in IPv6 prefixes too. */
  predicate NoV6Slash32(rules: set<Rule>) {
    forall r | r in rules && r.cidr.family.V6? :: |r.cidr.bits| != 32
  }

  predicate SlotsSuffice(kept: set<Rule>) {
    forall c | c in RuleCidrs(kept) :: |PortKeys(EntryPorts(kept, c))| <= MAX_SLOTS
  }

  // ----- the verdict for any rules at all

  /** `k` is the longest CIDR of the table around the address. */
  ghost predicate IsLongestEntry(node: Address, kept: set<Rule>, a: Address, k: Cidr) {
    && k in TableCidrs(node, kept) && Contains(k, a)
    && forall d: Cidr | d in TableCidrs(node, kept) && Contains(d, a) :: |d.bits| <= |k.bits|
  }

  /** The longest entry is a rule's, and a chain of links brings it a port that grants the packet. */
  ghost predicate ChainAllows(node: Address, kept: set<Rule>, a: Address, pkt: Packet) {
    exists k: Cidr, p :: IsLongestEntry(node, kept, a, k) && k in RuleCidrs(kept) && Inherits(kept, p, k) && PortGrants(p, pkt)
  }

  /** However the Excepts overlap, the compiled table allows a packet exactly when a chain does. */
  lemma VerdictIsChain(table: map<seq<Byte>, seq<Byte>>, node: Address, rules: set<Rule>, a: Address, pkt: Packet)
    requires Compiled(table, node, Kept(node, rules)) && ValidPorts(rules) && SlotsSuffice(Kept(node, rules))
    requires a != node && pkt.protocol != 0
    ensures TableAllows(table, a, pkt) <==> ChainAllows(node, Kept(node, rules), a, pkt)
  {
    var kept := Kept(node, rules);
    TableLookup(table, node, kept, a);
    if LongestMatch(table, a).Some? {
      var k: Cidr :| IsEntryFor(table, node, kept, a, k);
      HostContainsItself(k, a);
      assert IsLongestEntry(node, kept, a, k);
      EntryIsChain(Slots(table[TrieKey(k)]), node, kept, a, k, pkt);
    }
  }

  lemma EntryIsChain(slots: seq<Slot>, node: Address, kept: set<Rule>, a: Address, k: Cidr, pkt: Packet)
    requires ValidPorts(kept) && SlotsSuffice(kept) && k != node && pkt.protocol != 0
    requires IsLongestEntry(node, kept, a, k) && Represents(slots, TablePorts(node, kept, k))
    ensures ScanAllows(slots, pkt) <==> ChainAllows(node, kept, a, pkt)
  {
    forall j: Cidr | IsLongestEntry(node, kept, a, j)
      ensures j == k
    {
      PrefixesNest(j, k, a);
    }
    if k in RuleCidrs(kept) {
      EntryPortsValid(kept, k);
      ScanMeansPorts(slots, EntryPorts(kept, k), pkt);
      forall p
        ensures p in EntryPorts(kept, k) <==> Inherits(kept, p, k)
      {
        EntryPortsAreChains(kept, k, p);
      }
    } else {
      DenyEntryDenies(slots, pkt);
    }
  }

  // ----- the exact condition

  /** The longest entry around the address is a rule's, and a chain from the rule's CIDR leads to it. */
  ghost predicate Delivers(node: Address, kept: set<Rule>, a: Address, r: Rule) {
    exists k: Cidr :: IsLongestEntry(node, kept, a, k) && k in RuleCidrs(kept) && Leads(kept, r.cidr, k)
  }

  ghost predicate Leads(rules: set<Rule>, c: Cidr, k: Cidr) {
    exists chain: seq<Cidr> :: Chain(rules, chain) && chain[0] == c && chain[|chain| - 1] == k
  }

  predicate GrantsPort(r: Rule, pkt: Packet) {
    exists p | p in PortsOf(r) :: PortGrants(p, pkt)
  }

  lemma ChainNests(rules: set<Rule>, chain: seq<Cidr>, i: nat)
    requires Chain(rules, chain) && i < |chain|
    ensures Contains(chain[0], chain[i])
  {
    if i > 0 {
      ChainNests(rules, chain, i - 1);
      assert Link(rules, chain[i - 1], chain[i - 1 + 1]);
      ContainsTransitive(chain[0], chain[i - 1], chain[i]);
    }
  }

  lemma LeadsNests(rules: set<Rule>, c: Cidr, k: Cidr)
    requires Leads(rules, c, k)
    ensures Contains(c, k)
  {
    var chain :| Chain(rules, chain) && chain[0] == c && chain[|chain| - 1] == k;
    ChainNests(rules, chain, |chain| - 1);
  }

  lemma InheritsFromRule(rules: set<Rule>, p: Port, k: Cidr)
    ensures Inherits(rules, p, k) <==> exists r | r in rules :: Leads(rules, r.cidr, k) && p in PortsOf(r)
  {
    if Inherits(rules, p, k) {
      var chain :| Chain(rules, chain) && chain[|chain| - 1] == k && p in OwnPorts(rules, chain[0]);
      var r :| r in rules && r.cidr == chain[0] && p in PortsOf(r);
      assert Leads(rules, r.cidr, k);
    }
    if r :| r in rules && Leads(rules, r.cidr, k) && p in PortsOf(r) {
      var chain :| Chain(rules, chain) && chain[0] == r.cidr && chain[|chain| - 1] == k;
      assert p in OwnPorts(rules, chain[0]);
    }
  }

  /** For every rule list: the table allows what some rule grants whose CIDR reaches the longest entry. */
  lemma VerdictIsDelivery(table: map<seq<Byte>, seq<Byte>>, node: Address, rules: set<Rule>, a: Address, pkt: Packet)
    requires Compiled(table, node, Kept(node, rules)) && ValidPorts(rules) && SlotsSuffice(Kept(node, rules))
    requires a != node && pkt.protocol != 0
    ensures TableAllows(table, a, pkt) <==>
              exists r | r in Kept(node, rules) :: Delivers(node, Kept(node, rules), a, r) && GrantsPort(r, pkt)
  {
    VerdictIsChain(table, node, rules, a, pkt);
    ChainIsDelivery(node, Kept(node, rules), a, pkt);
  }

  lemma ChainIsDelivery(node: Address, kept: set<Rule>, a: Address, pkt: Packet)
    ensures ChainAllows(node, kept, a, pkt) <==> exists r | r in kept :: Delivers(node, kept, a, r) && GrantsPort(r, pkt)
  {
    if ChainAllows(node, kept, a, pkt) {
      var k: Cidr, p :| IsLongestEntry(node, kept, a, k) && k in RuleCidrs(kept) && Inherits(kept, p, k) && PortGrants(p, pkt);
      InheritsFromRule(kept, p, k);
      var r :| r in kept && Leads(kept, r.cidr, k) && p in PortsOf(r);
      assert Delivers(node, kept, a, r) && GrantsPort(r, pkt);
    }
    if r :| r in kept && Delivers(node, kept, a, r) && GrantsPort(r, pkt) {
      var k: Cidr :| IsLongestEntry(node, kept, a, k) && k in RuleCidrs(kept) && Leads(kept, r.cidr, k);
      var p :| p in PortsOf(r) && PortGrants(p, pkt);
      InheritsFromRule(kept, p, k);
    }
  }

  /** A rule around the address is delivered exactly when it does not exclude the address. */
  ghost predicate IsFaithful(node: Address, kept: set<Rule>, a: Address, r: Rule) {
    Contains(r.cidr, a) ==> (Delivers(node, kept, a, r) <==> !Excluded(Elements(r.except), a))
  }

  ghost predicate FaithfulAt(node: Address, kept: set<Rule>, a: Address) {
    forall r | r in kept :: IsFaithful(node, kept, a, r)
  }

  lemma DeliversMeansAround(node: Address, kept: set<Rule>, a: Address, r: Rule)
    requires Delivers(node, kept, a, r)
    ensures Contains(r.cidr, a)
  {
    var k: Cidr :| IsLongestEntry(node, kept, a, k) && k in RuleCidrs(kept) && Leads(kept, r.cidr, k);
    LeadsNests(kept, r.cidr, k);
    ContainsTransitive(r.cidr, k, a);
  }

  /** Where every rule is delivered as it should be, the table says what the kept rules say. */
  lemma FaithfulIsExact(table: map<seq<Byte>, seq<Byte>>, node: Address, rules: set<Rule>, a: Address, pkt: Packet)
    requires Compiled(table, node, Kept(node, rules)) && ValidPorts(rules) && SlotsSuffice(Kept(node, rules))
    requires a != node && pkt.protocol != 0 && FaithfulAt(node, Kept(node, rules), a)
    ensures TableAllows(table, a, pkt) <==> Allows(Kept(node, rules), a, pkt)
  {
    var kept := Kept(node, rules);
    VerdictIsDelivery(table, node, rules, a, pkt);
    if r :| r in kept && Delivers(node, kept, a, r) && GrantsPort(r, pkt) {
      DeliversMeansAround(node, kept, a, r);
      assert IsFaithful(node, kept, a, r) && Matches(r, a, pkt);
    }
    if Allows(kept, a, pkt) {
      var r :| r in kept && Matches(r, a, pkt) && !Excluded(Elements(r.except), a);
      assert IsFaithful(node, kept, a, r) && GrantsPort(r, pkt);
    }
  }

  /** A packet that, of the rules around the address, this one alone grants. */
  ghost predicate IsMark(kept: set<Rule>, a: Address, r: Rule, pkt: Packet) {
    pkt.protocol != 0 && forall s | s in kept && Contains(s.cidr, a) :: GrantsPort(s, pkt) <==> s == r
  }

  /** Every rule around the address grants some packet that no other does. */
  ghost predicate RulesAreMarked(kept: set<Rule>, a: Address) {
    forall r | r in kept && Contains(r.cidr, a) :: exists pkt :: IsMark(kept, a, r, pkt)
  }

  ghost predicate ExactAt(table: map<seq<Byte>, seq<Byte>>, kept: set<Rule>, a: Address) {
    forall pkt: Packet | pkt.protocol != 0 :: TableAllows(table, a, pkt) <==> Allows(kept, a, pkt)
  }

  /** Among rules that no others can stand in for, the compiler is exact at an address iff it delivers them faithfully. */
  lemma ExactIffFaithful(table: map<seq<Byte>, seq<Byte>>, node: Address, rules: set<Rule>, a: Address)
    requires Compiled(table, node, Kept(node, rules)) && ValidPorts(rules) && SlotsSuffice(Kept(node, rules))
    requires a != node && RulesAreMarked(Kept(node, rules), a)
    ensures ExactAt(table, Kept(node, rules), a) <==> FaithfulAt(node, Kept(node, rules), a)
  {
    var kept := Kept(node, rules);
    if FaithfulAt(node, kept, a) {
      forall pkt: Packet | pkt.protocol != 0
        ensures TableAllows(table, a, pkt) <==> Allows(kept, a, pkt)
      {
        FaithfulIsExact(table, node, rules, a, pkt);
      }
    }
    if ExactAt(table, kept, a) {
      forall r | r in kept && Contains(r.cidr, a)
        ensures IsFaithful(node, kept, a, r)
      {
        var pkt :| IsMark(kept, a, r, pkt);
        MarkDecides(table, node, rules, a, r, pkt);
      }
    }
  }

  lemma MarkDecides(table: map<seq<Byte>, seq<Byte>>, node: Address, rules: set<Rule>, a: Address, r: Rule, pkt: Packet)
    requires Compiled(table, node, Kept(node, rules)) && ValidPorts(rules) && SlotsSuffice(Kept(node, rules))
    requires a != node && r in Kept(node, rules) && Contains(r.cidr, a) && IsMark(Kept(node, rules), a, r, pkt)
    ensures TableAllows(table, a, pkt) <==> Delivers(node, Kept(node, rules), a, r)
    ensures Allows(Kept(node, rules), a, pkt) <==> !Excluded(Elements(r.except), a)
  {
    VerdictIsDelivery(table, node, rules, a, pkt);
    MarkedDelivery(node, Kept(node, rules), a, r, pkt);
    MarkedReading(Kept(node, rules), a, r, pkt);
  }

  lemma MarkedDelivery(node: Address, kept: set<Rule>, a: Address, r: Rule, pkt: Packet)
    requires r in kept && Contains(r.cidr, a) && IsMark(kept, a, r, pkt)
    ensures (exists s | s in kept :: Delivers(node, kept, a, s) && GrantsPort(s, pkt)) <==> Delivers(node, kept, a, r)
  {
    assert GrantsPort(r, pkt);
    if s :| s in kept && Delivers(node, kept, a, s) && GrantsPort(s, pkt) {
      DeliversMeansAround(node, kept, a, s);
      assert s == r;
    }
  }

  lemma MarkedReading(kept: set<Rule>, a: Address, r: Rule, pkt: Packet)
    requires r in kept && Contains(r.cidr, a) && IsMark(kept, a, r, pkt)
    ensures Allows(kept, a, pkt) <==> !Excluded(Elements(r.except), a)
  {
    assert GrantsPort(r, pkt) && Matches(r, a, pkt);
    if Allows(kept, a, pkt) {
      var s :| s in kept && Matches(s, a, pkt) && !Excluded(Elements(s.except), a);
      assert GrantsPort(s, pkt) && s == r;
    }
  }

  // ----- disciplined Excepts are faithful

  lemma ExceptOwner(rules: set<Rule>, d: Cidr, e: Cidr)
    requires e in ExceptsOf(rules, d)
    ensures exists r | r in rules :: r.cidr == d && e in r.except
  {
  }

  /** An Except around the network address of another rule CIDR contains the whole CIDR. */
  lemma ExceptCoversCidr(rules: set<Rule>, d: Cidr, e: Cidr, k: Cidr)
    requires ExceptsSeparate(rules) && e in ExceptsOf(rules, d)
    requires k in RuleCidrs(rules) && k != d && Contains(e, NetworkAddress(k))
    ensures Contains(e, k)
  {
    ExceptOwner(rules, d, e);
    if |e.bits| <= |k.bits| {
      PrefixesNest(e, k, NetworkAddress(k));
    } else {
      PrefixesNest(k, e, NetworkAddress(k));
      assert Overlap(k, e);
    }
  }

  /** `d` grants its own ports to the addresses of `k` that no longer entry covers. */
  predicate Grants(rules: set<Rule>, d: Cidr, k: Cidr) {
    d in RuleCidrs(rules) && Contains(d, k) && (d == k || !Excluded(ExceptsOf(rules, d), NetworkAddress(k)))
  }

  lemma GrantsTransitive(rules: set<Rule>, d: Cidr, m: Cidr, k: Cidr)
    requires ExceptsSeparate(rules) && k in RuleCidrs(rules)
    requires Grants(rules, d, m) && Link(rules, m, k)
    ensures Grants(rules, d, k)
  {
    ContainsTransitive(d, m, k);
    if d != m && Excluded(ExceptsOf(rules, d), NetworkAddress(k)) {
      var e :| e in ExceptsOf(rules, d) && Contains(e, NetworkAddress(k));
      ExceptCoversBetween(rules, d, e, m, k);
    }
  }

  /** An Except of `d` that covers `k` covers every other rule CIDR between the two. */
  lemma ExceptCoversBetween(rules: set<Rule>, d: Cidr, e: Cidr, m: Cidr, k: Cidr)
    requires ExceptsSeparate(rules) && e in ExceptsOf(rules, d) && Contains(e, NetworkAddress(k))
    requires m in RuleCidrs(rules) && k in RuleCidrs(rules) && m != d && k != d && Contains(m, k)
    ensures Excluded(ExceptsOf(rules, d), NetworkAddress(m))
  {
    ExceptCoversCidr(rules, d, e, k);
    ExceptOwner(rules, d, e);
    if |e.bits| <= |m.bits| {
      PrefixesNest(e, m, k);
    } else {
      PrefixesNest(m, e, k);
    }
    assert Overlap(m, e);
    ContainsTransitive(e, m, NetworkAddress(m));
  }

  /** Chains shorten: what leads to a CIDR does not exclude it. */
  lemma {:induction false} ChainGrants(rules: set<Rule>, chain: seq<Cidr>, i: nat)
    requires ExceptsSeparate(rules) && Chain(rules, chain) && chain[0] in RuleCidrs(rules)
    requires i < |chain| && chain[|chain| - 1] in RuleCidrs(rules)
    ensures Grants(rules, chain[0], chain[i])
  {
    if i > 0 {
      ChainGrants(rules, chain, i - 1);
      assert Link(rules, chain[i - 1], chain[i - 1 + 1]);
      assert i < |chain| - 1 ==> Link(rules, chain[i], chain[i + 1]);
      GrantsTransitive(rules, chain[0], chain[i - 1], chain[i]);
    }
  }

  lemma GrantedLeads(rules: set<Rule>, d: Cidr, k: Cidr)
    requires Grants(rules, d, k) && NoV6Slash32(rules)
    ensures Leads(rules, d, k)
  {
    if d == k {
      assert Chain(rules, [d]);
    } else {
      assert |d.bits| < |k.bits| by {
        if |d.bits| == |k.bits| {
          PrefixesNest(d, k, k);
        }
      }
      var r :| r in rules && r.cidr == d;
      assert Link(rules, d, k) && Chain(rules, [d, k]);
    }
  }

  /** An Except around the address covers all of the longest entry. */
  lemma ExceptAroundEntry(kept: set<Rule>, node: Address, k: Cidr, a: Address, e: Cidr)
    requires e in AllExcepts(kept) && Contains(e, a) && Contains(k, a)
    requires forall d: Cidr | d in TableCidrs(node, kept) && Contains(d, a) :: |d.bits| <= |k.bits|
    ensures Contains(e, k) && Contains(e, NetworkAddress(k))
  {
    assert e in TableCidrs(node, kept);
    PrefixesNest(e, k, a);
    ContainsTransitive(e, k, NetworkAddress(k));
  }

  /** Where the longest entry is a rule's, the rules that reach it are those that do not exclude the address. */
  lemma RuleEntryIsFaithful(kept: set<Rule>, node: Address, k: Cidr, a: Address, r: Rule)
    requires DisciplinedExcepts(kept) && NoV6Slash32(kept) && r in kept && Contains(r.cidr, a)
    requires IsLongestEntry(node, kept, a, k) && k in RuleCidrs(kept)
    ensures Leads(kept, r.cidr, k) <==> !Excluded(Elements(r.except), a)
  {
    var d := r.cidr;
    assert d in RuleCidrs(kept);
    if Leads(kept, d, k) {
      var chain :| Chain(kept, chain) && chain[0] == d && chain[|chain| - 1] == k;
      ChainGrants(kept, chain, |chain| - 1);
      forall e | e in r.except && Contains(e, a)
        ensures false
      {
        assert StrictlyContains(d, e) && e in ExceptsOf(kept, d);
        ExceptAroundEntry(kept, node, k, a, e);
      }
    }
    if !Excluded(Elements(r.except), a) {
      PrefixesNest(d, k, a);
      if d != k && Excluded(ExceptsOf(kept, d), NetworkAddress(k)) {
        var e :| e in ExceptsOf(kept, d) && Contains(e, NetworkAddress(k));
        var s :| s in kept && s.cidr == d && e in s.except;
        assert Elements(s.except) == Elements(r.except) && e in Elements(r.except);
        ExceptCoversCidr(kept, d, e, k);
        ContainsTransitive(e, k, a);
      }
      GrantedLeads(kept, d, k);
    }
  }

  /** An address whose longest entry is an Except is excluded by every rule around it. */
  lemma ExceptEntryIsFaithful(kept: set<Rule>, node: Address, k: Cidr, a: Address, r: Rule)
    requires DisciplinedExcepts(kept) && r in kept && Contains(r.cidr, a)
    requires IsLongestEntry(node, kept, a, k) && k in AllExcepts(kept) && k !in RuleCidrs(kept)
    ensures Excluded(Elements(r.except), a)
  {
    var owner :| owner in kept && k in owner.except;
    assert r.cidr in RuleCidrs(kept);
    PrefixesNest(r.cidr, k, a);
    assert Overlap(r.cidr, k);
    assert r.cidr == owner.cidr;
    assert k in Elements(r.except);
  }

  lemma LongestEntryIsUnique(node: Address, kept: set<Rule>, a: Address, j: Cidr, k: Cidr)
    requires IsLongestEntry(node, kept, a, j) && IsLongestEntry(node, kept, a, k)
    ensures j == k
  {
    PrefixesNest(j, k, a);
  }

  lemma SomeEntryIsLongest(node: Address, kept: set<Rule>, a: Address, c: Cidr) returns (k: Cidr)
    requires c in TableCidrs(node, kept) && Contains(c, a)
    ensures IsLongestEntry(node, kept, a, k)
    decreases Width(a.family) - |c.bits|
  {
    k := c;
    if d: Cidr :| d in TableCidrs(node, kept) && Contains(d, a) && |d.bits| > |c.bits| {
      k := SomeEntryIsLongest(node, kept, a, d);
    }
  }

  lemma DisciplineIsFaithful(node: Address, kept: set<Rule>, a: Address)
    requires DisciplinedExcepts(kept) && NoV6Slash32(kept) && a != node
    ensures FaithfulAt(node, kept, a)
  {
    forall r | r in kept && Contains(r.cidr, a)
      ensures IsFaithful(node, kept, a, r)
    {
      assert r.cidr in RuleCidrs(kept);
      var k := SomeEntryIsLongest(node, kept, a, r.cidr);
      HostContainsItself(k, a);
      forall j: Cidr | IsLongestEntry(node, kept, a, j)
        ensures j == k
      {
        LongestEntryIsUnique(node, kept, a, j, k);
      }
      if k in RuleCidrs(kept) {
        RuleEntryIsFaithful(kept, node, k, a, r);
      } else {
        ExceptEntryIsFaithful(kept, node, k, a, r);
      }
    }
  }

  lemma KeptIsDisciplined(node: Address, rules: set<Rule>)
    requires DisciplinedExcepts(rules) && NoV6Slash32(rules) && ValidPorts(rules)
    ensures DisciplinedExcepts(Kept(node, rules)) && NoV6Slash32(Kept(node, rules)) && ValidPorts(Kept(node, rules))
  {
  }

  /** Dropped rules say nothing about addresses other than the node's. */
  lemma KeptDecidesTheRest(node: Address, rules: set<Rule>, a: Address, pkt: Packet)
    requires NodeIsNoNetwork(node, rules) && a != node && a.family == node.family
    ensures Allows(Kept(node, rules), a, pkt) <==> Allows(rules, a, pkt)
  {
    forall r | r in rules && Contains(r.cidr, a)
      ensures r in Kept(node, rules)
    {
      if NetworkAddress(r.cidr) == node {
        HostContainsItself(r.cidr, a);
        HostContainsItself(r.cidr, node);
        assert false;
      }
    }
  }

  /** Compile, encode, longest-prefix match and slot scan together decide exactly what the rules say. */
  lemma NamespacedCompileIsExact(table: map<seq<Byte>, seq<Byte>>, node: Address, rules: set<Rule>, a: Address, pkt: Packet)
    requires Compiled(table, node, Kept(node, rules))
    requires DisciplinedExcepts(rules) && NodeIsNoNetwork(node, rules) && NoV6Slash32(rules) && ValidPorts(rules)
    requires SlotsSuffice(Kept(node, rules))
    requires a != node && a.family == node.family && pkt.protocol != 0
    ensures TableAllows(table, a, pkt) <==> Allows(rules, a, pkt)
  {
    KeptIsDisciplined(node, rules);
    DisciplineIsFaithful(node, Kept(node, rules), a);
    FaithfulIsExact(table, node, rules, a, pkt);
    KeptDecidesTheRest(node, rules, a, pkt);
  }

  // ----- the node's own traffic

  /** Traffic from the node is let through unless some kept rule names the node's host CIDR as an Except. */
  lemma NodeTrafficAllowed(table: map<seq<Byte>, seq<Byte>>, node: Address, rules: set<Rule>, pkt: Packet)
    requires Compiled(table, node, Kept(node, rules)) && pkt.protocol != 0
    ensures TableAllows(table, node, pkt) <==> node !in AllExcepts(Kept(node, rules))
  {
    var kept := Kept(node, rules);
    TableLookup(table, node, kept, node);
    assert Contains(node, node) && node in TableCidrs(node, kept);
    var k: Cidr :| IsEntryFor(table, node, kept, node, k);
    HostContainsItself(k, node);
    HostNetwork(node);
    NodeEntryDecides(Slots(table[TrieKey(node)]), node, kept, pkt);
  }

  lemma NodeEntryDecides(slots: seq<Slot>, node: Address, kept: set<Rule>, pkt: Packet)
    requires node !in RuleCidrs(kept) && pkt.protocol != 0
    requires Represents(slots, TablePorts(node, kept, node))
    ensures ScanAllows(slots, pkt) <==> node !in AllExcepts(kept)
  {
    if node in AllExcepts(kept) {
      DenyEntryDenies(slots, pkt);
    } else {
      assert PortKeys({CATCH_ALL}) == {KeyOf(CATCH_ALL)};
      assert PortGrants(CATCH_ALL, pkt);
      ScanMeansPorts(slots, {CATCH_ALL}, pkt);
    }
  }

  lemma HostNetwork(a: Address)
    ensures NetworkAddress(a) == a
  {
  }

  /** 0.0.0.0/0 or ::/0, except the node itself. */
  function AllButNode(node: Address): set<Rule> {
    {Rule(RawCidr.Cidr(node.family, []), [node], [])}
  }

  /** An Except for the node's own host CIDR takes the node's traffic away. */
  lemma NodeCanBeDenied(table: map<seq<Byte>, seq<Byte>>, node: Address, pkt: Packet)
    requires NetworkAddress(RawCidr.Cidr(node.family, [])) != node
    requires Compiled(table, node, Kept(node, AllButNode(node))) && pkt.protocol != 0
    ensures !TableAllows(table, node, pkt)
  {
    var rule := Rule(RawCidr.Cidr(node.family, []), [node], []);
    assert rule in Kept(node, AllButNode(node)) && node in rule.except;
    assert node in AllExcepts(Kept(node, AllButNode(node)));
    NodeTrafficAllowed(table, node, AllButNode(node), pkt);
  }

  // ----- where the compiler is not exact

  /** The longest entry around an address decides, whatever broader rules say. */
  lemma ExceptShadows(table: map<seq<Byte>, seq<Byte>>, node: Address, kept: set<Rule>, a: Address, e: Cidr, pkt: Packet)
    requires Compiled(table, node, kept) && pkt.protocol != 0
    requires e in AllExcepts(kept) && e !in RuleCidrs(kept) && Contains(e, a)
    requires forall d: Cidr | d in TableCidrs(node, kept) && Contains(d, a) :: |d.bits| <= |e.bits|
    ensures !TableAllows(table, a, pkt)
  {
    TableLookup(table, node, kept, a);
    var k: Cidr :| IsEntryFor(table, node, kept, a, k);
    PrefixesNest(k, e, a);
    DenyEntryDenies(Slots(table[TrieKey(e)]), pkt);
  }

  function V4Prefix(bits: seq<bool>): Cidr
    requires |bits| <= 32
  {
    RawCidr.Cidr(V4, bits)
  }

  const BROAD := Rule(V4Prefix([]), [], [])
  const NARROW := Rule(V4Prefix([false]), [V4Prefix([false, false])], [])

  /** 0.0.0.0/0 without Excepts, beside 0.0.0.0/1 except 0.0.0.0/2. */
  function OverlappingRules(): set<Rule> {
    {BROAD, NARROW}
  }

  /** For any node outside 0.0.0.0/2 and any address in it, the broad rule allows the address and the table denies it. */
  lemma OverlapIsNotExact(table: map<seq<Byte>, seq<Byte>>, node: Address, a: Address, pkt: Packet)
    requires node.family.V4? && !Contains(V4Prefix([false, false]), node) && Contains(V4Prefix([false, false]), a)
    requires Compiled(table, node, Kept(node, OverlappingRules())) && pkt.protocol != 0
    ensures Allows(OverlappingRules(), a, pkt) && !TableAllows(table, a, pkt)
    ensures !ExceptsSeparate(OverlappingRules()) && !FaithfulAt(node, Kept(node, OverlappingRules()), a)
  {
    OverlappingTable(node);
    OverlapLongest(node, a);
    ExceptShadows(table, node, Kept(node, OverlappingRules()), a, V4Prefix([false, false]), pkt);
    BroadRuleAllows(a, pkt);
    OverlapIsUnfaithful(node, a);
  }

  lemma BroadRuleAllows(a: Address, pkt: Packet)
    requires a.family.V4?
    ensures Allows(OverlappingRules(), a, pkt) && !ExceptsSeparate(OverlappingRules())
  {
    var e := V4Prefix([false, false]);
    assert Contains(BROAD.cidr, a) && CATCH_ALL in PortsOf(BROAD) && PortGrants(CATCH_ALL, pkt);
    assert Matches(BROAD, a, pkt) && BROAD in OverlappingRules() && NARROW in OverlappingRules();
    assert Overlap(BROAD.cidr, e) && !Contains(e, BROAD.cidr) && e in NARROW.except;
  }

  lemma OverlapLongest(node: Address, a: Address)
    requires node.family.V4? && !Contains(V4Prefix([false, false]), node) && Contains(V4Prefix([false, false]), a)
    requires RuleCidrs(OverlappingRules()) == {V4Prefix([]), V4Prefix([false])}
    requires AllExcepts(OverlappingRules()) == {V4Prefix([false, false])}
    ensures a != node && IsLongestEntry(node, OverlappingRules(), a, V4Prefix([false, false]))
    ensures V4Prefix([false, false]) !in RuleCidrs(OverlappingRules())
  {
    assert |V4Prefix([false, false]).bits| == 2;
    forall d: Cidr | d in TableCidrs(node, OverlappingRules()) && Contains(d, a)
      ensures |d.bits| <= 2
    {
      HostContainsItself(d, a);
    }
  }

  lemma OverlapIsUnfaithful(node: Address, a: Address)
    requires a.family.V4? && IsLongestEntry(node, OverlappingRules(), a, V4Prefix([false, false]))
    requires V4Prefix([false, false]) !in RuleCidrs(OverlappingRules())
    ensures !FaithfulAt(node, OverlappingRules(), a)
  {
    forall k: Cidr | IsLongestEntry(node, OverlappingRules(), a, k)
      ensures k !in RuleCidrs(OverlappingRules())
    {
      LongestEntryIsUnique(node, OverlappingRules(), a, k, V4Prefix([false, false]));
    }
    assert BROAD in OverlappingRules() && !IsFaithful(node, OverlappingRules(), a, BROAD);
  }

  lemma OverlappingTable(node: Address)
    requires node.family.V4? && !Contains(V4Prefix([false, false]), node)
    ensures Kept(node, OverlappingRules()) == OverlappingRules()
    ensures RuleCidrs(OverlappingRules()) == {V4Prefix([]), V4Prefix([false])}
    ensures AllExcepts(OverlappingRules()) == {V4Prefix([false, false])}
  {
    assert Contains(V4Prefix([false, false]), NetworkAddress(V4Prefix([])));
    assert Contains(V4Prefix([false, false]), NetworkAddress(V4Prefix([false])));
    assert V4Prefix([false, false]) in NARROW.except;
  }

  const TCP_ONLY := Port(Some(ProtocolRef(0, TCP)), None, None)

  /** An IPv6 /32 open on every port, and a longer prefix in it open for TCP. */
  function Slash32Rules(wide: Cidr, narrow: Cidr): set<Rule> {
    {Rule(wide, [], []), Rule(narrow, [], [TCP_ONLY])}
  }

  /** The /32 passes for a host, so the longer prefix inherits nothing from it: other protocols are denied there. */
  lemma Slash32IsNotInherited(table: map<seq<Byte>, seq<Byte>>, node: Address, wide: Cidr, narrow: Cidr, a: Address, pkt: Packet)
    requires wide.family.V6? && node.family.V6? && |wide.bits| == 32 && StrictlyContains(wide, narrow) && Contains(narrow, a)
    requires a != node && NetworkAddress(wide) != node && NetworkAddress(narrow) != node
    requires Compiled(table, node, Kept(node, Slash32Rules(wide, narrow))) && pkt.protocol == UDP_NUMBER
    ensures Allows(Slash32Rules(wide, narrow), a, pkt) && !TableAllows(table, a, pkt)
  {
    Slash32Kept(node, wide, narrow);
    Slash32Reading(wide, narrow, a, pkt);
    Slash32Longest(node, Slash32Rules(wide, narrow), wide, narrow, a);
    Slash32Entry(Slash32Rules(wide, narrow), wide, narrow, pkt);
    UngrantedIsDenied(table, node, Slash32Rules(wide, narrow), a, narrow, pkt);
  }

  lemma Slash32Kept(node: Address, wide: Cidr, narrow: Cidr)
    requires wide.family == narrow.family == node.family && NetworkAddress(wide) != node && NetworkAddress(narrow) != node
    ensures Kept(node, Slash32Rules(wide, narrow)) == Slash32Rules(wide, narrow)
  {
  }

  predicate NoPortGrants(kept: set<Rule>, k: Cidr, pkt: Packet) {
    forall p | p in EntryPorts(kept, k) :: ValidPort(p) && !PortGrants(p, pkt)
  }

  /** Where no port of the longest entry grants the packet, it is denied. */
  lemma UngrantedIsDenied(table: map<seq<Byte>, seq<Byte>>, node: Address, kept: set<Rule>, a: Address, k: Cidr, pkt: Packet)
    requires Compiled(table, node, kept) && IsLongestEntry(node, kept, a, k) && k in RuleCidrs(kept) && pkt.protocol != 0
    requires NoPortGrants(kept, k, pkt)
    ensures !TableAllows(table, a, pkt)
  {
    TableLookup(table, node, kept, a);
    if LongestMatch(table, a).Some? {
      var j: Cidr :| IsEntryFor(table, node, kept, a, j);
      LongestEntryIsUnique(node, kept, a, j, k);
      ScanMeansPorts(Slots(table[TrieKey(k)]), EntryPorts(kept, k), pkt);
    }
  }

  lemma Slash32Reading(wide: Cidr, narrow: Cidr, a: Address, pkt: Packet)
    requires Contains(wide, narrow) && Contains(narrow, a)
    ensures Allows(Slash32Rules(wide, narrow), a, pkt)
  {
    var open := Rule(wide, [], []);
    ContainsTransitive(wide, narrow, a);
    assert CATCH_ALL in PortsOf(open) && PortGrants(CATCH_ALL, pkt) && Matches(open, a, pkt);
    assert open in Slash32Rules(wide, narrow);
  }

  lemma Slash32Longest(node: Address, rules: set<Rule>, wide: Cidr, narrow: Cidr, a: Address)
    requires rules == Slash32Rules(wide, narrow)
    requires StrictlyContains(wide, narrow) && Contains(narrow, a) && a != node
    ensures IsLongestEntry(node, rules, a, narrow) && narrow in RuleCidrs(rules)
  {
    assert Rule(wide, [], []) in rules && Rule(narrow, [], [TCP_ONLY]) in rules;
    assert RuleCidrs(rules) == {wide, narrow} && AllExcepts(rules) == {};
    forall d: Cidr | d in TableCidrs(node, rules) && Contains(d, a)
      ensures |d.bits| <= |narrow.bits|
    {
      HostContainsItself(d, a);
    }
  }

  lemma Slash32Entry(rules: set<Rule>, wide: Cidr, narrow: Cidr, pkt: Packet)
    requires rules == Slash32Rules(wide, narrow) && |wide.bits| == 32 && StrictlyContains(wide, narrow)
    requires pkt.protocol == UDP_NUMBER
    ensures NoPortGrants(rules, narrow, pkt)
  {
    var open, tcp := Rule(wide, [], []), Rule(narrow, [], [TCP_ONLY]);
    assert open in rules && tcp in rules && PortsOf(tcp) == [TCP_ONLY] && TCP_ONLY in PortsOf(tcp);
    assert forall r | r in rules && r.cidr == narrow :: r == tcp;
    assert OwnPorts(rules, narrow) == {TCP_ONLY};
    assert forall d | d in RuleCidrs(rules) :: !Link(rules, d, narrow);
    assert InheritedPorts(rules, narrow) == {};
  }
}
