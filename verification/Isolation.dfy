/** Deriving a pod's namespaced rules from its PolicyEndpoints, and what a direction without rules ends up doing. */
module Isolation {
  import opened Basics
  import opened Cidrs
  import opened PolicyTypes
  import opened TrieEncoding
  import opened NamespacedPolicy
  import opened NamespacedCompiler
  import opened NamespaceEvaluation
  import opened NamespaceExactness
  import opened TieredVerdict

  /** A peer of a PolicyEndpoint; an egress peer may name a domain instead of a CIDR. */
  datatype EndpointInfo = EndpointInfo(cidr: Option<Cidr>, except: seq<Cidr>, ports: seq<Port>)

  datatype PolicyEndpoint = PolicyEndpoint(ingress: seq<Rule>, egress: seq<EndpointInfo>, isolation: seq<Direction>)

  datatype Fetch = Fetched(endpoint: PolicyEndpoint) | NotFound | Failed

  /** A PolicyEndpoint the agent has on record for the pod: its parent policy, and what fetching it gives. */
  datatype Candidate = Candidate(parent: string, fetch: Fetch)

  // ----- what the fetched endpoints say, as a set

  /** In a delete flow the slices of the deleted policy are passed over. */
  predicate Considered(c: Candidate, deleted: Option<string>) {
    deleted != Some(c.parent)
  }

  function Endpoints(candidates: seq<Candidate>, deleted: Option<string>): set<PolicyEndpoint> {
    set c | c in candidates && Considered(c, deleted) && c.fetch.Fetched? :: c.fetch.endpoint
  }

  function EgressRules(infos: seq<EndpointInfo>): set<Rule> {
    set i | i in infos && i.cidr.Some? :: Rule(i.cidr.value, i.except, i.ports)
  }

  function RulesOf(endpoint: PolicyEndpoint, direction: Direction): set<Rule> {
    if direction.Ingress? then Elements(endpoint.ingress) else EgressRules(endpoint.egress)
  }

  function AllRules(endpoints: set<PolicyEndpoint>, direction: Direction): set<Rule> {
    set e, r | e in endpoints && r in RulesOf(e, direction) :: r
  }

  predicate Isolates(endpoints: set<PolicyEndpoint>, direction: Direction) {
    exists e | e in endpoints :: direction in e.isolation
  }

  lemma AllRulesOfUnion(a: set<PolicyEndpoint>, e: PolicyEndpoint, direction: Direction)
    ensures AllRules(a + {e}, direction) == AllRules(a, direction) + RulesOf(e, direction)
  {
  }

  // ----- the loops

  /** `deriveDefaultPodIsolation`. */
  method DeriveDefaultPodIsolation(endpoint: PolicyEndpoint, ingressCount: nat, egressCount: nat)
    returns (ingress: bool, egress: bool)
    ensures ingress <==> Ingress in endpoint.isolation && ingressCount == 0
    ensures egress <==> Egress in endpoint.isolation && egressCount == 0
  {
    ingress, egress := false, false;
    for n := 0 to |endpoint.isolation|
      invariant ingress <==> Ingress in endpoint.isolation[..n] && ingressCount == 0
      invariant egress <==> Egress in endpoint.isolation[..n] && egressCount == 0
    {
      assert endpoint.isolation[..n + 1] == endpoint.isolation[..n] + [endpoint.isolation[n]];
      if endpoint.isolation[n] == Ingress && ingressCount == 0 {
        ingress := true;
      }
      if endpoint.isolation[n] == Egress && egressCount == 0 {
        egress := true;
      }
    }
    assert endpoint.isolation[..|endpoint.isolation|] == endpoint.isolation;
  }

  lemma EgressOneMore(infos: seq<EndpointInfo>, i: EndpointInfo)
    ensures EgressRules(infos + [i])
         == EgressRules(infos) + if i.cidr.Some? then {Rule(i.cidr.value, i.except, i.ports)} else {}
  {
  }

  method AppendEgress(rules: seq<Rule>, infos: seq<EndpointInfo>) returns (all: seq<Rule>)
    ensures Elements(all) == Elements(rules) + EgressRules(infos)
  {
    all := rules;
    for n := 0 to |infos|
      invariant Elements(all) == Elements(rules) + EgressRules(infos[..n])
    {
      assert infos[..n + 1] == infos[..n] + [infos[n]];
      EgressOneMore(infos[..n], infos[n]);
      if infos[n].cidr.Some? {
        var rule := Rule(infos[n].cidr.value, infos[n].except, infos[n].ports);
        assert Elements(all + [rule]) == Elements(all) + {rule};
        all := all + [rule];
      }
    }
    assert infos[..|infos|] == infos;
  }

  predicate AnyFailed(candidates: seq<Candidate>, deleted: Option<string>) {
    exists c | c in candidates :: Considered(c, deleted) && c.fetch.Failed?
  }

  /** The state of the derivation after some candidates: rules so far, and isolation seen while there were none. */
  ghost predicate Derived(rules: seq<Rule>, isolated: bool, endpoints: set<PolicyEndpoint>, direction: Direction) {
    && Elements(rules) == AllRules(endpoints, direction)
    && (rules == [] ==> (isolated <==> Isolates(endpoints, direction)))
  }

  lemma DeriveOneMore(rules: seq<Rule>, isolated: bool, endpoints: set<PolicyEndpoint>, direction: Direction,
                      e: PolicyEndpoint, rules': seq<Rule>, found: bool)
    requires Derived(rules, isolated, endpoints, direction)
    requires Elements(rules') == Elements(rules) + RulesOf(e, direction)
    requires found <==> direction in e.isolation && |rules'| == 0
    ensures Derived(rules', isolated || found, endpoints + {e}, direction)
  {
    AllRulesOfUnion(endpoints, e, direction);
    NoElements(rules);
    NoElements(rules');
  }

  /** What remains of isolation once a rule was found. */
  ghost predicate Final(rules: seq<Rule>, isolated: bool, endpoints: set<PolicyEndpoint>, direction: Direction) {
    && Elements(rules) == AllRules(endpoints, direction)
    && (isolated <==> AllRules(endpoints, direction) == {} && Isolates(endpoints, direction))
  }

  lemma DerivedIsFinal(rules: seq<Rule>, isolated: bool, endpoints: set<PolicyEndpoint>, direction: Direction)
    requires Derived(rules, isolated, endpoints, direction)
    ensures Final(rules, isolated && |rules| == 0, endpoints, direction)
  {
    NoElements(rules);
  }

  lemma NoElements(rules: seq<Rule>)
    ensures rules == [] <==> Elements(rules) == {}
  {
    if rules != [] {
      assert rules[0] in Elements(rules);
    }
  }

  /**
   * `deriveIngressAndEgressFirewallRules`: the order of the candidates does not matter. A direction is
   * isolated exactly when no endpoint has a rule for it and some endpoint isolates it.
   */
  method DeriveFirewallRules(candidates: seq<Candidate>, deleted: Option<string>)
    returns (ingress: seq<Rule>, egress: seq<Rule>, ingressIsolated: bool, egressIsolated: bool, err: bool)
    ensures err == AnyFailed(candidates, deleted)
    ensures err ==> ingress == [] && egress == []
    ensures !err ==> Final(ingress, ingressIsolated, Endpoints(candidates, deleted), Ingress)
    ensures !err ==> Final(egress, egressIsolated, Endpoints(candidates, deleted), Egress)
  {
    ingress, egress, ingressIsolated, egressIsolated := [], [], false, false;
    for n := 0 to |candidates|
      invariant !AnyFailed(candidates[..n], deleted)
      invariant Derived(ingress, ingressIsolated, Endpoints(candidates[..n], deleted), Ingress)
      invariant Derived(egress, egressIsolated, Endpoints(candidates[..n], deleted), Egress)
    {
      var c := candidates[n];
      ghost var endpoints := Endpoints(candidates[..n], deleted);
      assert candidates[..n + 1] == candidates[..n] + [c];
      assert Endpoints(candidates[..n + 1], deleted)
          == endpoints + if Considered(c, deleted) && c.fetch.Fetched? then {c.fetch.endpoint} else {};
      if deleted == Some(c.parent) {
        continue;
      }
      match c.fetch
      case NotFound =>
      case Failed =>
        return [], [], ingressIsolated, egressIsolated, true;
      case Fetched(e) =>
        var allIngress := ingress + e.ingress;
        var allEgress := AppendEgress(egress, e.egress);
        var i, o := DeriveDefaultPodIsolation(e, |allIngress|, |allEgress|);
        DeriveOneMore(ingress, ingressIsolated, endpoints, Ingress, e, allIngress, i);
        DeriveOneMore(egress, egressIsolated, endpoints, Egress, e, allEgress, o);
        ingress, egress := allIngress, allEgress;
        ingressIsolated, egressIsolated := ingressIsolated || i, egressIsolated || o;
    }
    assert candidates[..|candidates|] == candidates;
    DerivedIsFinal(ingress, ingressIsolated, Endpoints(candidates, deleted), Ingress);
    DerivedIsFinal(egress, egressIsolated, Endpoints(candidates, deleted), Egress);
    if |ingress| > 0 {
      ingressIsolated := false;
    }
    if |egress| > 0 {
      egressIsolated := false;
    }
    err := false;
  }

  // ----- from endpoints to verdicts

  function CatchAllRule(family: Family): Rule {
    Rule(RawCidr.Cidr(family, []), [], [])
  }

  /** The rules programmed for a direction. */
  function ProgrammedRules(endpoints: set<PolicyEndpoint>, direction: Direction, family: Family): set<Rule> {
    if AllRules(endpoints, direction) == {} && !Isolates(endpoints, direction) then {CatchAllRule(family)}
    else AllRules(endpoints, direction)
  }

  /** The catch-all entry is added to a direction without rules and without isolation; then the map is compiled. */
  method ProgramDirection(rules: seq<Rule>, isolated: bool, node: Address, ghost endpoints: set<PolicyEndpoint>,
                          ghost direction: Direction)
    returns (table: map<seq<Byte>, seq<Byte>>)
    requires Final(rules, isolated, endpoints, direction)
    ensures Compiled(table, node, Kept(node, ProgrammedRules(endpoints, direction, node.family)))
  {
    var all := rules;
    if |rules| == 0 && !isolated {
      all := [CatchAllRule(node.family)];
    }
    assert Elements(all) == ProgrammedRules(endpoints, direction, node.family) by {
      NoElements(rules);
    }
    table := ComputeMapEntries(node, all);
  }

  /** The catch-all rule alone: one entry of one slot. */
  lemma CatchAllPorts(kept: set<Rule>, c: Cidr, family: Family)
    requires kept <= {CatchAllRule(family)} && c in RuleCidrs(kept)
    ensures PortKeys(EntryPorts(kept, c)) <= {KeyOf(CATCH_ALL)}
  {
    forall p | p in EntryPorts(kept, c)
      ensures p == CATCH_ALL
    {
      EveryEntryPortIsOwned(kept, c, p);
    }
  }

  /**
   * A direction without rules, with policies applied: everything but the node is denied if some endpoint
   * isolates the direction, and allowed otherwise, provided the catch-all's own network address is not the node's.
   */
  lemma NoRulesVerdict(endpoints: set<PolicyEndpoint>, direction: Direction, table: map<seq<Byte>, seq<Byte>>, node: Address,
                       a: Address, pkt: Packet)
    requires AllRules(endpoints, direction) == {}
    requires Compiled(table, node, Kept(node, ProgrammedRules(endpoints, direction, node.family)))
    requires a != node && a.family == node.family && pkt.protocol != 0
    ensures NamespaceAction(LongestMatch(table, a), pkt, POLICIES_APPLIED)
         == if Isolates(endpoints, direction) || NetworkAddress(CatchAllRule(node.family).cidr) == node then ACTION_DENY
            else ACTION_ALLOW
  {
    var all := CatchAllRule(node.family);
    var kept := Kept(node, ProgrammedRules(endpoints, direction, node.family));
    var rules := if Isolates(endpoints, direction) || NetworkAddress(all.cidr) == node then {} else {all};
    assert kept == Kept(node, rules);
    assert NamespaceExactness.SlotsSuffice(kept) by {
      forall c | c in RuleCidrs(kept)
        ensures |PortKeys(EntryPorts(kept, c))| <= MAX_SLOTS
      {
        CatchAllPorts(kept, c, node.family);
        OneElement(PortKeys(EntryPorts(kept, c)), KeyOf(CATCH_ALL));
      }
    }
    NamespacedCompileIsExact(table, node, rules, a, pkt);
    assert all in rules ==> Matches(all, a, pkt) by {
      assert CATCH_ALL in PortsOf(all) && PortGrants(CATCH_ALL, pkt);
    }
  }

  // ----- what the endpoints on record say, list by list

  /** A fetched endpoint of another policy than the deleted one. */
  predicate Counts(c: Candidate, deleted: Option<string>) {
    c.fetch.Fetched? && (deleted.None? || deleted.value != c.parent)
  }

  /** The peers an endpoint lists for a direction; those without a CIDR are no rules. */
  predicate Lists(e: PolicyEndpoint, direction: Direction, cidr: Cidr, except: seq<Cidr>, ports: seq<Port>) {
    match direction
    case Ingress => Rule(cidr, except, ports) in e.ingress
    case Egress => EndpointInfo(Some(cidr), except, ports) in e.egress
  }

  ghost predicate HasRules(candidates: seq<Candidate>, deleted: Option<string>, direction: Direction) {
    exists c, cidr: Cidr, except, ports | c in candidates ::
      Counts(c, deleted) && Lists(c.fetch.endpoint, direction, cidr, except, ports)
  }

  /** Some listed peer contains the address, outside its Excepts, and has no ports or one that grants the packet. */
  ghost predicate Permits(candidates: seq<Candidate>, deleted: Option<string>, direction: Direction, a: Address, pkt: Packet) {
    exists c, cidr: Cidr, except, ports | c in candidates ::
      && Counts(c, deleted) && Lists(c.fetch.endpoint, direction, cidr, except, ports)
      && Contains(cidr, a) && (forall e | e in except :: !Contains(e, a))
      && (ports == [] || exists p | p in ports :: PortGrants(p, pkt))
  }

  predicate IsIsolated(candidates: seq<Candidate>, deleted: Option<string>, direction: Direction) {
    exists c | c in candidates :: Counts(c, deleted) && direction in c.fetch.endpoint.isolation
  }

  /** The listed rules can be read plainly at the address. */
  ghost predicate Plain(candidates: seq<Candidate>, deleted: Option<string>, direction: Direction, node: Address, a: Address) {
    ReadsPlainly(node, AllRules(Endpoints(candidates, deleted), direction), a)
  }

  /**
   * With policies applied: a direction with rules allows what its rules permit and denies the rest; one without rules denies
   * everything if it is isolated, and allows everything otherwise, unless the node has the all-zero address.
   */
  ghost predicate EnforcesAt(table: map<seq<Byte>, seq<Byte>>, candidates: seq<Candidate>, deleted: Option<string>,
                             direction: Direction, node: Address, a: Address, pkt: Packet)
  {
    var action := NamespaceAction(LongestMatch(table, a), pkt, POLICIES_APPLIED);
    if HasRules(candidates, deleted, direction) then
      Plain(candidates, deleted, direction, node, a) ==>
        action == if Permits(candidates, deleted, direction, a, pkt) then ACTION_ALLOW else ACTION_DENY
    else
      action == if IsIsolated(candidates, deleted, direction) || (forall i | 0 <= i < |node.bits| :: !node.bits[i])
                then ACTION_DENY else ACTION_ALLOW
  }

  ghost predicate Enforces(table: map<seq<Byte>, seq<Byte>>, candidates: seq<Candidate>, deleted: Option<string>,
                           direction: Direction, node: Address)
  {
    forall a: Address, pkt: Packet | a != node && a.family == node.family && pkt.protocol != 0 ::
      EnforcesAt(table, candidates, deleted, direction, node, a, pkt)
  }

  lemma ListedIsRule(candidates: seq<Candidate>, deleted: Option<string>, direction: Direction, c: Candidate, cidr: Cidr,
                     except: seq<Cidr>, ports: seq<Port>)
    requires c in candidates && Counts(c, deleted) && Lists(c.fetch.endpoint, direction, cidr, except, ports)
    ensures Rule(cidr, except, ports) in AllRules(Endpoints(candidates, deleted), direction)
  {
    assert c.fetch.endpoint in Endpoints(candidates, deleted);
    assert Rule(cidr, except, ports) in RulesOf(c.fetch.endpoint, direction);
  }

  lemma RuleIsListed(candidates: seq<Candidate>, deleted: Option<string>, direction: Direction, r: Rule)
    requires r in AllRules(Endpoints(candidates, deleted), direction)
    ensures exists c | c in candidates ::
              Counts(c, deleted) && Lists(c.fetch.endpoint, direction, r.cidr, r.except, r.ports)
  {
    var e :| e in Endpoints(candidates, deleted) && r in RulesOf(e, direction);
    var c :| c in candidates && Considered(c, deleted) && c.fetch.Fetched? && c.fetch.endpoint == e;
    assert Counts(c, deleted) && Lists(e, direction, r.cidr, r.except, r.ports);
  }

  lemma HasRulesMeans(candidates: seq<Candidate>, deleted: Option<string>, direction: Direction)
    ensures HasRules(candidates, deleted, direction) <==> AllRules(Endpoints(candidates, deleted), direction) != {}
  {
    if HasRules(candidates, deleted, direction) {
      var c, cidr: Cidr, except, ports :| c in candidates
        && Counts(c, deleted) && Lists(c.fetch.endpoint, direction, cidr, except, ports);
      ListedIsRule(candidates, deleted, direction, c, cidr, except, ports);
    }
    if r :| r in AllRules(Endpoints(candidates, deleted), direction) {
      RuleIsListed(candidates, deleted, direction, r);
    }
  }

  lemma PermitsMeans(candidates: seq<Candidate>, deleted: Option<string>, direction: Direction, a: Address, pkt: Packet)
    ensures Permits(candidates, deleted, direction, a, pkt)
       <==> Allows(AllRules(Endpoints(candidates, deleted), direction), a, pkt)
  {
    var rules := AllRules(Endpoints(candidates, deleted), direction);
    if Permits(candidates, deleted, direction, a, pkt) {
      var c, cidr: Cidr, except, ports :| c in candidates
        && Counts(c, deleted) && Lists(c.fetch.endpoint, direction, cidr, except, ports)
        && Contains(cidr, a) && (forall e | e in except :: !Contains(e, a))
        && (ports == [] || exists p | p in ports :: PortGrants(p, pkt));
      ListedIsRule(candidates, deleted, direction, c, cidr, except, ports);
      RuleMatches(Rule(cidr, except, ports), a, pkt);
    }
    if r :| r in rules && Matches(r, a, pkt) && !Excluded(Elements(r.except), a) {
      RuleIsListed(candidates, deleted, direction, r);
      RuleMatches(r, a, pkt);
    }
  }

  lemma RuleMatches(r: Rule, a: Address, pkt: Packet)
    ensures Matches(r, a, pkt) <==> Contains(r.cidr, a) && (r.ports == [] || exists p | p in r.ports :: PortGrants(p, pkt))
    ensures Excluded(Elements(r.except), a) <==> exists e | e in r.except :: Contains(e, a)
  {
    assert CATCH_ALL in [CATCH_ALL] && PortGrants(CATCH_ALL, pkt);
  }

  lemma IsIsolatedMeans(candidates: seq<Candidate>, deleted: Option<string>, direction: Direction)
    ensures IsIsolated(candidates, deleted, direction) <==> Isolates(Endpoints(candidates, deleted), direction)
  {
    if c :| c in candidates && Counts(c, deleted) && direction in c.fetch.endpoint.isolation {
      assert c.fetch.endpoint in Endpoints(candidates, deleted);
    }
  }

  lemma ZeroAddress(node: Address)
    ensures NetworkAddress(CatchAllRule(node.family).cidr) == node <==> forall i | 0 <= i < |node.bits| :: !node.bits[i]
  {
  }

  /** A compiled direction enforces what the endpoints list. */
  lemma ProgrammedEnforces(table: map<seq<Byte>, seq<Byte>>, candidates: seq<Candidate>, deleted: Option<string>,
                           direction: Direction, node: Address)
    requires Compiled(table, node, Kept(node, ProgrammedRules(Endpoints(candidates, deleted), direction, node.family)))
    ensures Enforces(table, candidates, deleted, direction, node)
  {
    var endpoints := Endpoints(candidates, deleted);
    HasRulesMeans(candidates, deleted, direction);
    forall a: Address, pkt: Packet | a != node && a.family == node.family && pkt.protocol != 0
      ensures EnforcesAt(table, candidates, deleted, direction, node, a, pkt)
    {
      if !HasRules(candidates, deleted, direction) {
        NoRulesVerdict(endpoints, direction, table, node, a, pkt);
        IsIsolatedMeans(candidates, deleted, direction);
        ZeroAddress(node);
      } else if Plain(candidates, deleted, direction, node, a) {
        NamespaceTierIsExact(table, node, AllRules(endpoints, direction), a, pkt, POLICIES_APPLIED);
        PermitsMeans(candidates, deleted, direction, a, pkt);
      }
    }
  }

  /** From the endpoints on record to both maps, or an error when an endpoint could not be fetched. */
  method ProgramPod(candidates: seq<Candidate>, deleted: Option<string>, node: Address)
    returns (err: bool, ingressTable: map<seq<Byte>, seq<Byte>>, egressTable: map<seq<Byte>, seq<Byte>>)
    ensures err <==> exists c | c in candidates :: c.fetch.Failed? && (deleted.None? || deleted.value != c.parent)
    ensures !err ==> Enforces(ingressTable, candidates, deleted, Ingress, node)
    ensures !err ==> Enforces(egressTable, candidates, deleted, Egress, node)
    ensures !err ==>
              var endpoints := Endpoints(candidates, deleted);
              && Compiled(ingressTable, node, Kept(node, ProgrammedRules(endpoints, Ingress, node.family)))
              && Compiled(egressTable, node, Kept(node, ProgrammedRules(endpoints, Egress, node.family)))
  {
    var ingress, egress, ingressIsolated, egressIsolated;
    ingress, egress, ingressIsolated, egressIsolated, err := DeriveFirewallRules(candidates, deleted);
    ingressTable, egressTable := map[], map[];
    if !err {
      ingressTable := ProgramDirection(ingress, ingressIsolated, node, Endpoints(candidates, deleted), Ingress);
      egressTable := ProgramDirection(egress, egressIsolated, node, Endpoints(candidates, deleted), Egress);
      ProgrammedEnforces(ingressTable, candidates, deleted, Ingress, node);
      ProgrammedEnforces(egressTable, candidates, deleted, Egress, node);
    }
  }

  lemma OneElement<T>(s: set<T>, x: T)
    requires s <= {x}
    ensures |s| <= 1
  {
    assert s == {} || s == {x};
  }
}
