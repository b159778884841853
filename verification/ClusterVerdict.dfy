/** What converged cluster-policy maps decide, stated on the slices of the API server. */
module ClusterVerdict {
  import opened Basics
  import opened Cidrs
  import opened PolicyTypes
  import opened TrieEncoding
  import opened ClusterMaps
  import opened ClusterState
  import opened TieredVerdict
  import ClusterCompiler

  /** The rules that slices of one tier demand for an identifier, their CIDRs read. */
  function TierRules(store: map<CpeName, Cpe>, i: Identifier, d: Direction, tier: Tier, p: Processor)
    : set<ClusterCompiler.ClusterRule>
  {
    set n, e | n in WantedSlices(store, i) && store[n].tier == tier && e in EndpointsOf(store[n], d) :: RuleOf(store[n], e, p)
  }

  /** What an endpoint of a slice says. */
  function RuleOf(c: Cpe, e: Endpoint, p: Processor): ClusterCompiler.ClusterRule {
    ClusterCompiler.ClusterRule(p.parse(e.cidr), e.ports, e.action,
                                if c.tier.BaselineTier? then c.priority + 2000 else c.priority)
  }

  /** The endpoints of a direction; leaving traffic has rules for CIDRs only. */
  function EndpointsOf(c: Cpe, d: Direction): set<Endpoint> {
    match d
    case Ingress => set e | e in c.ingress
    case Egress => set e | e in c.egress && e.cidr != ""
  }

  function AllRules(store: map<CpeName, Cpe>, i: Identifier, d: Direction, p: Processor): set<ClusterCompiler.ClusterRule> {
    TierRules(store, i, d, AdminTier, p) + TierRules(store, i, d, BaselineTier, p)
  }

  /** The slices' priorities are in the range the API admits. */
  predicate PrioritiesAdmitted(store: map<CpeName, Cpe>) {
    forall n | n in store :: 0 <= store[n].priority <= 1000
  }

  /** The compiled rules are the slices' endpoints. */
  lemma ParsedAreAll(maps: KernelMaps, store: map<CpeName, Cpe>, i: Identifier, p: Processor)
    requires HoldsRulesOf(maps, WantedSlices(store, i), store)
    ensures Elements(ParsedRules(maps.ingress.rules, p)) == AllRules(store, i, Ingress, p)
    ensures Elements(ParsedRules(maps.egress.rules, p)) == AllRules(store, i, Egress, p)
  {
    RulesAreDemanded(RulesIn(maps), WantedSlices(store, i), store);
    DemandedAreAll(maps.ingress.rules, store, i, Ingress, p);
    DemandedAreAll(maps.egress.rules, store, i, Egress, p);
  }

  lemma DemandedAreAll(rules: seq<FirewallRule>, store: map<CpeName, Cpe>, i: Identifier, d: Direction, p: Processor)
    requires forall r :: r in rules <==> IsDemanded(WantedSlices(store, i), store, d, r)
    ensures Elements(ParsedRules(rules, p)) == AllRules(store, i, d, p)
  {
    forall c | c in Elements(ParsedRules(rules, p))
      ensures c in AllRules(store, i, d, p)
    {
      var k :| 0 <= k < |rules| && ParsedRules(rules, p)[k] == c;
      assert rules[k] in rules;
      DemandedIsRule(rules[k], store, i, d, p);
    }
    forall c | c in AllRules(store, i, d, p)
      ensures c in Elements(ParsedRules(rules, p))
    {
      var r := RuleIsDemanded(c, store, i, d, p);
      var k :| 0 <= k < |rules| && rules[k] == r;
      assert ParsedRules(rules, p)[k] == c;
    }
  }

  lemma DemandedIsRule(r: FirewallRule, store: map<CpeName, Cpe>, i: Identifier, d: Direction, p: Processor)
    requires IsDemanded(WantedSlices(store, i), store, d, r)
    ensures ParsedRule(r, p) in AllRules(store, i, d, p)
  {
    var n, e :| n in WantedSlices(store, i) && n in store && Demands(store[n], d, e, r);
    assert e in EndpointsOf(store[n], d) && RuleOf(store[n], e, p) == ParsedRule(r, p);
    assert store[n].tier == AdminTier || store[n].tier == BaselineTier;
  }

  lemma RuleIsDemanded(c: ClusterCompiler.ClusterRule, store: map<CpeName, Cpe>, i: Identifier, d: Direction, p: Processor)
    returns (r: FirewallRule)
    requires c in AllRules(store, i, d, p)
    ensures IsDemanded(WantedSlices(store, i), store, d, r) && ParsedRule(r, p) == c
  {
    var n, e :| n in WantedSlices(store, i) && e in EndpointsOf(store[n], d) && c == RuleOf(store[n], e, p);
    r := FirewallRule(c.priority, e.action, e.cidr, if d.Ingress? then "" else e.domain, e.ports);
    assert Demands(store[n], d, e, r);
  }

  /** Priorities spell the tiers: what a baseline slice demands, and nothing else, is in the baseline tier. */
  lemma TiersAreSlices(store: map<CpeName, Cpe>, i: Identifier, d: Direction, p: Processor, a: Address, pkt: Packet)
    requires PrioritiesAdmitted(store)
    ensures AppliedRules(AllRules(store, i, d, p), a, pkt, false) == AppliedAll(TierRules(store, i, d, AdminTier, p), a, pkt)
    ensures AppliedRules(AllRules(store, i, d, p), a, pkt, true) == AppliedAll(TierRules(store, i, d, BaselineTier, p), a, pkt)
  {
    forall r | r in TierRules(store, i, d, AdminTier, p)
      ensures r.priority <= 1000
    {
      assert exists n | n in store :: r.priority == store[n].priority;
    }
    forall r | r in TierRules(store, i, d, BaselineTier, p)
      ensures r.priority > 1000
    {
      assert exists n | n in store :: r.priority == store[n].priority + 2000;
    }
  }

  /** The rules can be compiled without loss, and the packet is one the rules are about. */
  ghost predicate IsCovered(rules: set<ClusterCompiler.ClusterRule>, p: Processor, a: Address, pkt: Packet) {
    && ValidRules(rules) && NodeIsNoNetwork(p.node, rules) && SlotsSuffice(ClusterCompiler.Kept(p.node, rules))
    && a != p.node && a.family == p.node.family && pkt.protocol != 0
  }

  /** The table says of a packet what the admin slices, and in the baseline tier what the baseline slices, say. */
  ghost predicate DecidesAt(table: MapContents, store: map<CpeName, Cpe>, i: Identifier, d: Direction, p: Processor, a: Address,
                            pkt: Packet)
  {
    IsCovered(AllRules(store, i, d, p), p, a, pkt) ==>
      && AdminAction(LongestMatch(table, a), pkt) == Outcome(AppliedAll(TierRules(store, i, d, AdminTier, p), a, pkt))
      && BaselineAction(LongestMatch(table, a), pkt) == Outcome(AppliedAll(TierRules(store, i, d, BaselineTier, p), a, pkt))
  }

  ghost predicate Decides(table: MapContents, store: map<CpeName, Cpe>, i: Identifier, d: Direction, p: Processor) {
    forall a, pkt :: DecidesAt(table, store, i, d, p, a, pkt)
  }

  /** Both tables of the identifier decide as the slices demand. */
  ghost predicate Enforces(s: State, i: Identifier, p: Processor) {
    && i in s.kernel
    && Decides(s.kernel[i].ingress.table, s.store, i, Ingress, p)
    && Decides(s.kernel[i].egress.table, s.store, i, Egress, p)
  }

  lemma CompiledDecides(table: MapContents, rules: seq<FirewallRule>, store: map<CpeName, Cpe>, i: Identifier, d: Direction,
                        p: Processor)
    requires IsTableOf(table, rules, p) && Elements(ParsedRules(rules, p)) == AllRules(store, i, d, p)
    requires PrioritiesAdmitted(store)
    ensures Decides(table, store, i, d, p)
  {
    forall a, pkt
      ensures DecidesAt(table, store, i, d, p, a, pkt)
    {
      if IsCovered(AllRules(store, i, d, p), p, a, pkt) {
        ClusterCompileIsExact(table, p.node, AllRules(store, i, d, p), a, pkt);
        TiersAreSlices(store, i, d, p, a, pkt);
      }
    }
  }

  /** Exact maps decide every packet as the slices of the identifier's parents say, each in its tier. */
  lemma ExactMeansEnforced(s: State, i: Identifier, p: Processor)
    requires Exact(s, i) && Compiles(s.kernel[i], p) && PrioritiesAdmitted(s.store)
    ensures Enforces(s, i, p)
  {
    var maps := s.kernel[i];
    ParsedAreAll(maps, s.store, i, p);
    CompiledDecides(maps.ingress.table, maps.ingress.rules, s.store, i, Ingress, p);
    CompiledDecides(maps.egress.table, maps.egress.rules, s.store, i, Egress, p);
  }
}
