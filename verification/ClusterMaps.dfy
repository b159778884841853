/** The cluster-policy maps of one identifier: what they were last refreshed towards, and what the refresh left in them. */
module ClusterMaps {
  import opened Basics
  import opened Cidrs
  import opened PolicyTypes
  import opened TrieEncoding
  import ClusterCompiler
  import opened ShadowMap

  datatype FirewallRule = FirewallRule(priority: int, action: Action, cidr: string, domain: string, ports: seq<Port>)

  /** Ingress and egress rules. */
  type RulePair = (seq<FirewallRule>, seq<FirewallRule>)

  /** `FirewallRuleProcessor`: the node's address, and how the text of a CIDR is read. */
  datatype Processor = Processor(node: Address, parse: string -> Cidr)

  function ParsedRules(rules: seq<FirewallRule>, p: Processor): seq<ClusterCompiler.ClusterRule> {
    seq(|rules|, i requires 0 <= i < |rules| => ParsedRule(rules[i], p))
  }

  function ParsedRule(r: FirewallRule, p: Processor): ClusterCompiler.ClusterRule {
    ClusterCompiler.ClusterRule(p.parse(r.cidr), r.ports, r.action, r.priority)
  }

  /** The last refresh of one direction: the rules, their compiled table, the contents before, the calls, the contents after. */
  datatype Side = Side(rules: seq<FirewallRule>, target: MapContents, before: MapContents,
                       calls: seq<Call<seq<Byte>, seq<Byte>>>, table: MapContents)

  datatype KernelMaps = KernelMaps(ingress: Side, egress: Side, state: int)

  /** The refresh returned no error. */
  ghost predicate IsThrough(side: Side) {
    Refreshed(side.before, side.target, side.calls, false, side.table)
  }

  /** A delete call of the refresh failed; the refresh passes over it and returns no error. */
  ghost predicate HasFailedDelete(side: Side) {
    FailedRemoves(side.calls) != {}
  }

  predicate IsClean(side: Side) {
    side.table == side.target
  }

  /** A refresh without an error leaves exactly the compiled table if and only if no delete call failed. */
  lemma CleanIffDeleted(side: Side)
    requires IsThrough(side)
    ensures IsClean(side) <==> !HasFailedDelete(side)
  {
    CleanRefresh(side.before, side.target, side.calls, false, side.table);
    if !HasFailedDelete(side) {
      assert WithLeftovers(side.before, side.target, {}) == side.target;
    }
  }

  /** What a failed delete left behind, the next refresh without an error tries to delete, and it goes unless that fails too. */
  lemma NextRefreshRepairs(side: Side, next: Side, k: seq<Byte>)
    requires IsThrough(side) && IsThrough(next) && next.before == side.table && k in FailedRemoves(side.calls)
    ensures k in side.table && k !in side.target
    ensures k !in next.target ==> k in RemoveKeys(next.calls) && (k in next.table <==> k in FailedRemoves(next.calls))
    ensures !HasFailedDelete(next) ==> IsClean(next)
  {
    CleanIffDeleted(next);
    assert k in RemoveKeys(side.calls);
    FailedDeletesAreRetried(side.before, side.target, side.calls, false, side.table,
                            next.target, next.calls, false, next.table, k);
  }

  // ----- both directions

  function RulesIn(maps: KernelMaps): RulePair {
    (maps.ingress.rules, maps.egress.rules)
  }

  function StateFor(rules: RulePair): int {
    if rules.0 == [] && rules.1 == [] then DEFAULT_ALLOW else POLICIES_APPLIED
  }

  /** Both refreshes and the pod-state write returned no error. */
  ghost predicate IsWritten(maps: KernelMaps) {
    IsThrough(maps.ingress) && IsThrough(maps.egress) && maps.state == StateFor(RulesIn(maps))
  }

  predicate AreClean(maps: KernelMaps) {
    IsClean(maps.ingress) && IsClean(maps.egress)
  }

  ghost predicate HaveFailedDelete(maps: KernelMaps) {
    HasFailedDelete(maps.ingress) || HasFailedDelete(maps.egress)
  }

  lemma MapsCleanIffDeleted(maps: KernelMaps)
    requires IsWritten(maps)
    ensures AreClean(maps) <==> !HaveFailedDelete(maps)
  {
    CleanIffDeleted(maps.ingress);
    CleanIffDeleted(maps.egress);
  }

  /** The table refreshed towards is the cluster compiler's for the rules. */
  ghost predicate SideCompiles(side: Side, p: Processor) {
    IsTableOf(side.target, side.rules, p)
  }

  ghost predicate IsTableOf(table: MapContents, rules: seq<FirewallRule>, p: Processor) {
    ClusterCompiler.Compiled(table, p.node, ClusterCompiler.Kept(p.node, Elements(ParsedRules(rules, p))))
  }

  ghost predicate Compiles(maps: KernelMaps, p: Processor) {
    SideCompiles(maps.ingress, p) && SideCompiles(maps.egress, p)
  }

  /** The side after a refresh of the kernel map towards the rules. */
  ghost predicate IsAttempt(before: Side, rules: seq<FirewallRule>, p: Processor, err: bool, after: Side) {
    && after.rules == rules && SideCompiles(after, p) && after.before == before.table
    && Refreshed(after.before, after.target, after.calls, err, after.table)
  }

  /** One direction of `UpdateClusterPolicyEbpfMaps`: the cached or newly built shadow, and the refresh through it. */
  method WriteSide(side: Side, rules: seq<FirewallRule>, p: Processor, bpfMap: KernelMap<seq<Byte>, seq<Byte>>)
    returns (err: bool, next: Side)
    requires bpfMap.Valid() && bpfMap.entries == side.table
    modifies bpfMap
    ensures bpfMap.Valid() && bpfMap.entries == next.table
    ensures bpfMap.failedReads != old(bpfMap.failedReads) ==> err && next == side && bpfMap.calls == old(bpfMap.calls)
    ensures bpfMap.failedReads == old(bpfMap.failedReads) ==>
              IsAttempt(side, rules, p, err, next) && bpfMap.calls == old(bpfMap.calls) + next.calls
  {
    var shadow := new InMemoryBpfMap.Cached(bpfMap, side.table);
    var cached: bool := *;
    if !cached {
      var loaded := NewInMemoryBpfMap(bpfMap);
      if loaded.None? {
        return true, side;
      }
      shadow := loaded.value;
    }
    var target := ClusterCompiler.ComputeClusterMapEntries(p.node, ParsedRules(rules, p));
    var calls;
    err, calls := shadow.BulkRefresh(target);
    next := Side(rules, target, side.table, calls, bpfMap.entries);
  }

  /** A refresh was tried, or the map could not be read and stays. */
  ghost predicate IsTried(before: Side, rules: seq<FirewallRule>, p: Processor, err: bool, after: Side) {
    IsAttempt(before, rules, p, err, after) || (err && after == before)
  }

  /**
   * `updateClusterPolicyBPFMaps`: both directions are tried, then the pod states are written. Without an error the maps were
   * refreshed towards the compiled rules, which is not to say that every stale entry is gone.
   */
  method WriteMaps(maps: KernelMaps, rules: RulePair, p: Processor) returns (err: bool, next: KernelMaps)
    requires Compiles(maps, p)
    ensures Compiles(next, p)
    ensures exists ingressErr, egressErr ::
              && IsTried(maps.ingress, rules.0, p, ingressErr, next.ingress)
              && IsTried(maps.egress, rules.1, p, egressErr, next.egress)
              && (ingressErr || egressErr ==> err && next.state == maps.state)
    ensures next.state == maps.state || next.state == StateFor(rules)
    ensures !err ==> IsWritten(next) && RulesIn(next) == rules
    ensures !err ==> next.ingress.before == maps.ingress.table && next.egress.before == maps.egress.table
  {
    var ingressMap := new KernelMap(maps.ingress.table);
    var egressMap := new KernelMap(maps.egress.table);
    var ingressErr, ingress := WriteSide(maps.ingress, rules.0, p, ingressMap);
    var egressErr, egress := WriteSide(maps.egress, rules.1, p, egressMap);
    var state, stateErr: bool := maps.state, *;
    if !ingressErr && !egressErr {
      // The pod-state write and the seeding that follows it; a failure of the latter comes after the former.
      var wrote: bool := *;
      if wrote || !stateErr {
        state := StateFor(rules);
      }
    }
    err := ingressErr || egressErr || stateErr;
    next := KernelMaps(ingress, egress, state);
    assert IsTried(maps.ingress, rules.0, p, ingressErr, next.ingress);
    assert IsTried(maps.egress, rules.1, p, egressErr, next.egress);
  }
}
