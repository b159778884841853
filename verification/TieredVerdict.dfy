/** The datapath's tiered verdict, and the order of precedence it implements. */
module TieredVerdict {
  import opened Basics
  import opened Cidrs
  import opened PolicyTypes
  import opened TrieEncoding
  import opened ClusterCompiler
  import Ns = NamespacedPolicy
  import NsCompiler = NamespacedCompiler
  import opened NamespaceEvaluation
  import NamespaceExactness

  const ADMIN_TIER_PRIORITY_LIMIT := 1000
  const MAX_RULE_PRIORITY := 65536

  // ----- scanning a cluster-policy entry

  predicate RankedMatches(s: RankedSlot, pkt: Packet) {
    || s.protocol == ANY_IP_PROTOCOL
    || (s.protocol == pkt.protocol
        && (s.startPort == ANY_PORT || pkt.destPort == s.startPort
            || (s.endPort > 0 && s.startPort <= pkt.destPort <= s.endPort)))
  }

  function MatchingRanks(slots: seq<RankedSlot>, pkt: Packet): set<nat> {
    set s | s in slots && RankedMatches(s, pkt) :: s.rank
  }

  /** A rank whose priority is above the admin limit. */
  predicate IsBaseline(rank: nat) {
    rank >= (ADMIN_TIER_PRIORITY_LIMIT + 1) * 10
  }

  function BaselineRanks(ranks: set<nat>): set<nat> {
    set r | r in ranks && IsBaseline(r)
  }

  // What the scan starts from: no priority is worse, and the action is to pass.
  const NO_RANK: nat := MAX_RULE_PRIORITY * 10 + ACTION_PASS

  /** The least of the ranks that is below the starting one, or else the starting one. */
  predicate IsLeast(rank: nat, ranks: set<nat>) {
    (rank in ranks || rank == NO_RANK) && rank <= NO_RANK && forall r | r in ranks :: rank <= r
  }

  ghost function Least(ranks: set<nat>): (rank: nat)
    ensures IsLeast(rank, ranks)
  {
    if ranks == {} then NO_RANK
    else
      var r :| r in ranks;
      var rest := Least(ranks - {r});
      LeastOneMore(rest, ranks - {r}, r);
      assert ranks - {r} + {r} == ranks;
      if r < rest then r else rest
  }

  lemma LeastIsUnique(rank: nat, ranks: set<nat>)
    requires IsLeast(rank, ranks)
    ensures rank == Least(ranks)
  {
  }

  lemma LeastOneMore(rank: nat, ranks: set<nat>, r: nat)
    requires IsLeast(rank, ranks)
    ensures IsLeast(if r < rank then r else rank, ranks + {r})
  {
  }

  /** Comparing priorities and then actions is comparing ranks. */
  lemma RankOrder(r: nat, priority: nat, action: nat)
    requires action < 10
    ensures r / 10 < priority || (r / 10 == priority && r % 10 < action) <==> r < priority * 10 + action
    ensures r / 10 * 10 + r % 10 == r && (IsBaseline(r) <==> r / 10 > ADMIN_TIER_PRIORITY_LIMIT)
    ensures (priority * 10 + action) / 10 == priority && (priority * 10 + action) % 10 == action
  {
  }

  /** One comparison of the scan: a lower priority wins, and on equal priorities a lower action. */
  method Better(rank: nat, priority: nat, action: nat) returns (p: nat, a: nat)
    requires action < 10
    ensures a < 10 && p * 10 + a == if rank < priority * 10 + action then rank else priority * 10 + action
  {
    RankOrder(rank, priority, action);
    p, a := priority, action;
    if rank / 10 < priority || (rank / 10 == priority && rank % 10 < action) {
      p, a := rank / 10, rank % 10;
    }
  }

  /** `evaluateClusterPolicyByLookUp`: the best rank overall and the best baseline rank. */
  method EvaluateClusterPolicy(entry: Option<seq<Byte>>, pkt: Packet)
    returns (adminAction: nat, adminPriority: nat, baselineAction: nat)
    requires entry.Some? ==> |entry.value| == ADMIN_TRIE_VALUE_LENGTH
    ensures adminAction < 10 && baselineAction < 10
    ensures entry.None? ==> adminPriority == MAX_RULE_PRIORITY && adminAction == baselineAction == ACTION_PASS
    ensures entry.Some? ==> adminPriority * 10 + adminAction == Least(MatchingRanks(RankedSlots(entry.value), pkt))
    ensures entry.Some? ==> baselineAction == Least(BaselineRanks(MatchingRanks(RankedSlots(entry.value), pkt))) % 10
  {
    adminAction, baselineAction, adminPriority := ACTION_PASS, ACTION_PASS, MAX_RULE_PRIORITY;
    var baselinePriority: nat := MAX_RULE_PRIORITY;
    if entry.None? {
      return;
    }
    ghost var slots := RankedSlots(entry.value);
    for i := 0 to MAX_SLOTS
      invariant adminAction < 10 && baselineAction < 10
      invariant adminPriority * 10 + adminAction == BestOf(slots, pkt, i)
      invariant baselinePriority * 10 + baselineAction == BestBaselineOf(slots, pkt, i)
    {
      var slot := ReadRankedSlot(entry.value, i);
      assert slot == slots[i];
      adminPriority, adminAction, baselinePriority, baselineAction :=
        ScanSlot(slot, pkt, adminPriority, adminAction, baselinePriority, baselineAction);
    }
    BestIsLeast(slots, pkt);
    RankOrder(0, baselinePriority, baselineAction);
  }

  /** One slot of the scan: a matching one may improve the best rank and, if it is a baseline one, the best baseline rank. */
  method ScanSlot(slot: RankedSlot, pkt: Packet, adminPriority: nat, adminAction: nat, baselinePriority: nat, baselineAction: nat)
    returns (ap: nat, aa: nat, bp: nat, ba: nat)
    requires adminAction < 10 && baselineAction < 10
    ensures aa < 10 && ba < 10
    ensures var rank, matches := adminPriority * 10 + adminAction, RankedMatches(slot, pkt);
            ap * 10 + aa == if matches then Lower(slot.rank, rank) else rank
    ensures var rank, matches := baselinePriority * 10 + baselineAction, RankedMatches(slot, pkt);
            bp * 10 + ba == if matches && slot.rank / 10 > ADMIN_TIER_PRIORITY_LIMIT then Lower(slot.rank, rank) else rank
  {
    ap, aa, bp, ba := adminPriority, adminAction, baselinePriority, baselineAction;
    if RankedMatches(slot, pkt) {
      ap, aa := Better(slot.rank, adminPriority, adminAction);
      if slot.rank / 10 > ADMIN_TIER_PRIORITY_LIMIT {
        bp, ba := Better(slot.rank, baselinePriority, baselineAction);
      }
    }
  }

  function Lower(r: nat, s: nat): nat {
    if r < s then r else s
  }

  /** The best rank of the first `n` slots, as the scan finds it. */
  function BestOf(slots: seq<RankedSlot>, pkt: Packet, n: nat): nat
    requires n <= |slots|
  {
    if n == 0 then NO_RANK
    else
      var best := BestOf(slots, pkt, n - 1);
      if RankedMatches(slots[n - 1], pkt) then Lower(slots[n - 1].rank, best) else best
  }

  /** The best baseline rank of the first `n` slots. */
  function BestBaselineOf(slots: seq<RankedSlot>, pkt: Packet, n: nat): nat
    requires n <= |slots|
  {
    if n == 0 then NO_RANK
    else
      var best := BestBaselineOf(slots, pkt, n - 1);
      var slot := slots[n - 1];
      if RankedMatches(slot, pkt) && slot.rank / 10 > ADMIN_TIER_PRIORITY_LIMIT then Lower(slot.rank, best) else best
  }

  /** The running bests are the least of the ranks seen so far. */
  lemma {:induction false} BestSoFar(slots: seq<RankedSlot>, pkt: Packet, n: nat)
    requires n <= |slots|
    ensures IsLeast(BestOf(slots, pkt, n), MatchingRanks(slots[..n], pkt))
    ensures IsLeast(BestBaselineOf(slots, pkt, n), BaselineRanks(MatchingRanks(slots[..n], pkt)))
  {
    if n > 0 {
      var before, slot := slots[..n - 1], slots[n - 1];
      BestSoFar(slots, pkt, n - 1);
      assert slots[..n] == before + [slot];
      RanksOneMore(before, slot, pkt);
      RankOrder(slot.rank, 0, 0);
      LeastOneMore(BestOf(slots, pkt, n - 1), MatchingRanks(before, pkt), slot.rank);
      LeastOneMore(BestBaselineOf(slots, pkt, n - 1), BaselineRanks(MatchingRanks(before, pkt)), slot.rank);
    }
  }

  lemma BestIsLeast(slots: seq<RankedSlot>, pkt: Packet)
    ensures BestOf(slots, pkt, |slots|) == Least(MatchingRanks(slots, pkt))
    ensures BestBaselineOf(slots, pkt, |slots|) == Least(BaselineRanks(MatchingRanks(slots, pkt)))
  {
    BestSoFar(slots, pkt, |slots|);
    assert slots[..|slots|] == slots;
    LeastIsUnique(BestOf(slots, pkt, |slots|), MatchingRanks(slots, pkt));
    LeastIsUnique(BestBaselineOf(slots, pkt, |slots|), BaselineRanks(MatchingRanks(slots, pkt)));
  }

  lemma RanksOneMore(slots: seq<RankedSlot>, s: RankedSlot, pkt: Packet)
    ensures MatchingRanks(slots + [s], pkt)
         == MatchingRanks(slots, pkt) + if RankedMatches(s, pkt) then {s.rank} else {}
    ensures BaselineRanks(MatchingRanks(slots + [s], pkt))
         == BaselineRanks(MatchingRanks(slots, pkt))
            + if RankedMatches(s, pkt) && IsBaseline(s.rank) then {s.rank} else {}
  {
  }

  // ----- the verdict

  /** The order of precedence: admin tier, namespace tier, baseline tier, the pod's default. */
  predicate Decision(admin: int, namespaced: int, baseline: int, podState: int) {
    || admin == ACTION_ALLOW
    || (admin != ACTION_DENY
        && (namespaced == ACTION_ALLOW
            || (namespaced == ACTION_PASS
                && (baseline == ACTION_ALLOW || (baseline == ACTION_PASS && podState == DEFAULT_ALLOW)))))
  }

  /** `evaluateFlow`, without the conntrack write that accompanies every acceptance. */
  method EvaluateFlow(clusterEntry: Option<seq<Byte>>, namespacedEntry: Option<seq<Byte>>, pkt: Packet, podState: int)
    returns (accepted: bool)
    requires clusterEntry.Some? ==> |clusterEntry.value| == ADMIN_TRIE_VALUE_LENGTH
    requires namespacedEntry.Some? ==> |namespacedEntry.value| == TRIE_VALUE_LENGTH
    ensures accepted == Decision(AdminAction(clusterEntry, pkt), NamespaceAction(namespacedEntry, pkt, podState),
                                 BaselineAction(clusterEntry, pkt), podState)
  {
    var adminAction, adminPriority, baselineAction := EvaluateClusterPolicy(clusterEntry, pkt);
    RanksSpellActions(clusterEntry, pkt, adminAction, adminPriority, baselineAction);
    if adminPriority <= ADMIN_TIER_PRIORITY_LIMIT {
      if adminAction == ACTION_DENY {
        return false;
      } else if adminAction == ACTION_ALLOW {
        return true;
      }
    }
    var verdict := EvaluateNamespacePolicy(namespacedEntry, pkt, podState);
    if verdict == ACTION_ALLOW {
      return true;
    } else if verdict == ACTION_DENY {
      return false;
    } else if baselineAction == ACTION_DENY {
      return false;
    } else if baselineAction == ACTION_ALLOW {
      return true;
    } else if baselineAction == ACTION_PASS && podState == DEFAULT_ALLOW {
      return true;
    }
    return false;
  }

  ghost function NamespaceAction(entry: Option<seq<Byte>>, pkt: Packet, podState: int): int {
    if entry.None? then if podState != POLICIES_APPLIED then ACTION_PASS else ACTION_DENY
    else if |entry.value| == TRIE_VALUE_LENGTH && ScanAllows(Slots(entry.value), pkt) then ACTION_ALLOW
    else ACTION_DENY
  }

  ghost function EntryRanks(entry: Option<seq<Byte>>, pkt: Packet): set<nat> {
    if entry.Some? && |entry.value| == ADMIN_TRIE_VALUE_LENGTH then MatchingRanks(RankedSlots(entry.value), pkt) else {}
  }

  /** The action of the best matching slot, if it is an admin one. */
  ghost function AdminAction(entry: Option<seq<Byte>>, pkt: Packet): int {
    var rank := Least(EntryRanks(entry, pkt));
    if rank / 10 <= ADMIN_TIER_PRIORITY_LIMIT then rank % 10 else ACTION_PASS
  }

  /** The action of the best matching baseline slot. */
  ghost function BaselineAction(entry: Option<seq<Byte>>, pkt: Packet): int {
    Least(BaselineRanks(EntryRanks(entry, pkt))) % 10
  }

  lemma RanksSpellActions(entry: Option<seq<Byte>>, pkt: Packet, adminAction: nat, adminPriority: nat, baselineAction: nat)
    requires adminAction < 10 && baselineAction < 10 && (entry.Some? ==> |entry.value| == ADMIN_TRIE_VALUE_LENGTH)
    requires entry.None? ==> adminPriority == MAX_RULE_PRIORITY && adminAction == baselineAction == ACTION_PASS
    requires entry.Some? ==> adminPriority * 10 + adminAction == Least(MatchingRanks(RankedSlots(entry.value), pkt))
    requires entry.Some? ==> baselineAction == Least(BaselineRanks(MatchingRanks(RankedSlots(entry.value), pkt))) % 10
    ensures AdminAction(entry, pkt) == if adminPriority <= ADMIN_TIER_PRIORITY_LIMIT then adminAction else ACTION_PASS
    ensures BaselineAction(entry, pkt) == baselineAction
  {
    RankOrder(0, adminPriority, adminAction);
    if entry.None? {
      assert BaselineRanks({}) == {};
    }
  }

  // ----- the plain reading of the cluster rules

  /** What a cluster-policy port entry means. A missing protocol is TCP, unless nothing at all is given. */
  predicate ClusterPortGrants(p: Port, pkt: Packet) {
    || (p.protocol.None? && p.port.None? && p.endPort.None?)
    || (p.protocol.Some? && p.protocol.value.value == CatchAll)
    || (ProtocolFits(p, pkt.protocol)
        && (p.port.None? || pkt.destPort == p.port.value
            || (p.endPort.Some? && p.port.value <= pkt.destPort <= p.endPort.value)))
  }

  /** The packet has the IP protocol number of the port entry; a missing or unknown protocol is TCP. */
  predicate ProtocolFits(p: Port, number: nat) {
    if p.protocol.None? then number == 6
    else match p.protocol.value.value
      case TCP => number == 6
      case UDP => number == 17
      case SCTP => number == 132
      case CatchAll => true
      case DenyAll => number == 255
      case Other(_) => number == 6
  }

  predicate Applies(r: ClusterRule, a: Address, pkt: Packet) {
    Contains(r.cidr, a) && (r.ports == [] || exists p | p in r.ports :: ClusterPortGrants(p, pkt))
  }

  /** Lower priorities first; on equal priorities Deny before Accept before Pass. */
  predicate Precedes(r: ClusterRule, s: ClusterRule) {
    || r.priority < s.priority
    || (r.priority == s.priority && (r.action.Deny? || (r.action.Accept? && !s.action.Deny?) || IsPass(s.action)))
  }

  /** An action the evaluators do not know passes. */
  predicate IsPass(a: Action) {
    a.Pass? || a.Unknown?
  }

  predicate IsBest(rules: set<ClusterRule>, r: ClusterRule) {
    r in rules && forall s | s in rules :: Precedes(r, s)
  }

  /** The action of a rule that precedes all others; passing when there is none. */
  ghost function Outcome(rules: set<ClusterRule>): int {
    if exists r :: IsBest(rules, r) then
      var r :| IsBest(rules, r);
      if r.action.Deny? then ACTION_DENY else if r.action.Accept? then ACTION_ALLOW else ACTION_PASS
    else ACTION_PASS
  }

  /** The admin tier ends at priority 1000. */
  function AppliedRules(rules: set<ClusterRule>, a: Address, pkt: Packet, baseline: bool): set<ClusterRule> {
    set r | r in rules && Applies(r, a, pkt) && (baseline <==> r.priority > 1000)
  }

  /** What one tier of the rules says about a packet. */
  ghost function TierVerdict(rules: set<ClusterRule>, a: Address, pkt: Packet, baseline: bool): int {
    Outcome(AppliedRules(rules, a, pkt, baseline))
  }

  function AllL4Rules(rules: set<ClusterRule>): set<L4Rule> {
    set r, l | r in rules && l in L4RulesOf(r) :: l
  }

  function Rank(r: ClusterRule): nat
    requires r.priority >= 0
  {
    r.priority * 10 + ActionValue(r.action)
  }

  predicate ValidRules(rules: set<ClusterRule>) {
    ValidL4(AllL4Rules(rules)) && forall r | r in rules :: ValidPriority(r)
  }

  predicate ValidPriority(r: ClusterRule) {
    0 <= r.priority < 65536
  }

  function Ranks(rules: set<ClusterRule>): set<nat>
  {
    set r | r in rules && ValidPriority(r) :: Rank(r)
  }

  lemma BestHasLeastRank(r: ClusterRule, s: ClusterRule)
    requires ValidPriority(r) && ValidPriority(s)
    ensures Precedes(r, s) <==> Rank(r) <= Rank(s)
  {
  }

  lemma RankSpellsAction(r: ClusterRule)
    requires ValidPriority(r)
    ensures Rank(r) % 10 == ActionValue(r.action)
  {
  }

  /** The least rank spells the outcome. */
  lemma OutcomeIsLeast(rules: set<ClusterRule>)
    requires forall r | r in rules :: ValidPriority(r)
    ensures Outcome(rules) == Least(Ranks(rules)) % 10
    ensures rules != {} ==> Least(Ranks(rules)) in Ranks(rules)
  {
    if r0 :| r0 in rules {
      assert Rank(r0) in Ranks(rules) && Rank(r0) < NO_RANK;
      var least := Least(Ranks(rules));
      assert IsLeast(least, Ranks(rules));
      var best :| best in rules && Rank(best) == least;
      forall s | s in rules
        ensures Precedes(best, s)
      {
        assert Rank(s) in Ranks(rules);
        assert least <= Rank(s);
        BestHasLeastRank(best, s);
      }
      assert IsBest(rules, best);
      forall r | IsBest(rules, r)
        ensures ActionValue(r.action) == least % 10
      {
        RankSpellsAction(r);
        BestHasLeastRank(r, best);
        BestHasLeastRank(best, r);
      }
    } else {
      assert Ranks(rules) == {};
    }
  }

  // ----- the compiled table says the same

  lemma SlotMeansRule(l: L4Rule, pkt: Packet)
    requires ValidL4Rule(l)
    ensures RankedMatches(RankedSlotOf(l), pkt) <==> ClusterPortGrants(l.port, pkt)
    ensures RankedSlotOf(l).rank == l.priority * 10 + ActionValue(l.action)
  {
  }

  /** The rule grants the packet, and this is its place: by priority, then Deny before Accept before Pass. */
  predicate RanksAs(l: L4Rule, pkt: Packet, rank: nat) {
    && ClusterPortGrants(l.port, pkt)
    && rank == l.priority * 10 + match l.action { case Deny => 0 case Accept => 1 case _ => 2 }
  }

  lemma SlotRanksAs(l: L4Rule, pkt: Packet, rank: nat)
    requires ValidL4Rule(l)
    ensures RankedMatches(RankedSlotOf(l), pkt) && RankedSlotOf(l).rank == rank <==> RanksAs(l, pkt, rank)
  {
    SlotMeansRule(l, pkt);
  }

  /** What the bytes of one entry rank: those of the first 24 rules that grant the packet. */
  lemma ValueRanks(bytes: seq<Byte>, rules: seq<L4Rule>, pkt: Packet, rank: nat)
    requires |bytes| == 384 && RankedSlots(bytes) == PaddedRanked(rules)
    requires pkt.protocol != 0 && forall l | l in rules :: ValidL4Rule(l)
    ensures rank in MatchingRanks(RankedSlots(bytes), pkt) <==>
              exists i | 0 <= i < |rules| && i < 24 :: RanksAs(rules[i], pkt, rank)
  {
    var slots := RankedSlots(bytes);
    if rank in MatchingRanks(slots, pkt) {
      var i :| 0 <= i < |slots| && RankedMatches(slots[i], pkt) && slots[i].rank == rank;
      assert i < |rules| by {
        assert !RankedMatches(NO_RANKED_SLOT, pkt);
      }
      SlotRanksAs(rules[i], pkt, rank);
    }
    if i :| 0 <= i < |rules| && i < 24 && RanksAs(rules[i], pkt, rank) {
      SlotRanksAs(rules[i], pkt, rank);
      assert slots[i] in slots;
    }
  }

  lemma L4RuleRank(r: ClusterRule, l: L4Rule)
    requires ValidPriority(r) && l in L4RulesOf(r)
    ensures RankedSlotOf(l).rank == Rank(r)
  {
  }

  lemma AppliesMeansL4(r: ClusterRule, a: Address, pkt: Packet)
    ensures Applies(r, a, pkt) <==> Contains(r.cidr, a) && exists l | l in L4RulesOf(r) :: ClusterPortGrants(l.port, pkt)
  {
    if r.ports == [] {
      assert L4RulesOf(r)[0] in L4RulesOf(r);
    } else {
      assert forall i | 0 <= i < |r.ports| :: L4RulesOf(r)[i].port == r.ports[i];
      if p :| p in r.ports && ClusterPortGrants(p, pkt) {
        var i :| 0 <= i < |r.ports| && r.ports[i] == p;
        assert L4RulesOf(r)[i] in L4RulesOf(r);
      }
    }
  }

  function AppliedAll(rules: set<ClusterRule>, a: Address, pkt: Packet): set<ClusterRule> {
    set r | r in rules && Applies(r, a, pkt)
  }

  lemma SlotRankIsApplied(slots: seq<RankedSlot>, kept: set<ClusterRule>, c: Cidr, a: Address, pkt: Packet, s: RankedSlot)
    requires ValidRules(kept) && Represents(slots, Around(kept, c)) && Contains(c, a) && pkt.protocol != 0
    requires s in slots && RankedMatches(s, pkt)
    ensures s.rank in Ranks(AppliedAll(kept, a, pkt))
  {
    assert s in Elements(slots) && s in SlotSet(Around(kept, c));
    var l :| l in Around(kept, c) && RankedSlotOf(l) == s;
    var r :| r in kept && Contains(r.cidr, c) && l in L4RulesOf(r);
    assert l in AllL4Rules(kept);
    SlotMeansRule(l, pkt);
    ContainsTransitive(r.cidr, c, a);
    AppliesMeansL4(r, a, pkt);
    L4RuleRank(r, l);
  }

  lemma AppliedRankHasSlot(slots: seq<RankedSlot>, kept: set<ClusterRule>, c: Cidr, a: Address, pkt: Packet, r: ClusterRule)
    requires ValidRules(kept) && Represents(slots, Around(kept, c)) && |L4Keys(Around(kept, c))| <= MAX_SLOTS
    requires r in kept && Applies(r, a, pkt) && Contains(c, a) && |r.cidr.bits| <= |c.bits|
    ensures Rank(r) in MatchingRanks(slots, pkt)
  {
    AppliesMeansL4(r, a, pkt);
    var l :| l in L4RulesOf(r) && ClusterPortGrants(l.port, pkt);
    PrefixesNest(r.cidr, c, a);
    assert l in AllL4Rules(kept) && l in Around(kept, c);
    SlotMeansRule(l, pkt);
    assert RankedSlotOf(l) in SlotSet(Around(kept, c)) && RankedSlotOf(l) in Elements(slots);
    L4RuleRank(r, l);
    RankIsMatching(slots, RankedSlotOf(l), pkt);
  }

  lemma RankIsMatching(slots: seq<RankedSlot>, s: RankedSlot, pkt: Packet)
    requires s in Elements(slots) && RankedMatches(s, pkt)
    ensures s.rank in MatchingRanks(slots, pkt)
  {
  }

  lemma EntryHoldsAppliedRanks(slots: seq<RankedSlot>, kept: set<ClusterRule>, c: Cidr, a: Address, pkt: Packet)
    requires ValidRules(kept) && Represents(slots, Around(kept, c)) && |L4Keys(Around(kept, c))| <= MAX_SLOTS
    requires Contains(c, a) && forall r | r in kept && Contains(r.cidr, a) :: |r.cidr.bits| <= |c.bits|
    requires pkt.protocol != 0
    ensures MatchingRanks(slots, pkt) == Ranks(AppliedAll(kept, a, pkt))
  {
    forall s | s in slots && RankedMatches(s, pkt)
      ensures s.rank in Ranks(AppliedAll(kept, a, pkt))
    {
      SlotRankIsApplied(slots, kept, c, a, pkt, s);
    }
    forall r | r in AppliedAll(kept, a, pkt)
      ensures Rank(r) in MatchingRanks(slots, pkt)
    {
      AppliedRankHasSlot(slots, kept, c, a, pkt, r);
    }
  }

  predicate SlotsSuffice(kept: set<ClusterRule>) {
    forall c | c in RuleCidrs(kept) :: |L4Keys(Around(kept, c))| <= MAX_SLOTS
  }

  /** No rule broader than a host is dropped because the node has its network address. */
  predicate NodeIsNoNetwork(node: Address, rules: set<ClusterRule>) {
    forall r | r in rules && NetworkAddress(r.cidr) == node :: |r.cidr.bits| == Width(r.cidr.family)
  }

  lemma KeptApplies(node: Address, rules: set<ClusterRule>, a: Address, pkt: Packet)
    requires NodeIsNoNetwork(node, rules) && a != node && a.family == node.family
    ensures AppliedAll(Kept(node, rules), a, pkt) == AppliedAll(rules, a, pkt)
  {
    forall r | r in rules && Contains(r.cidr, a)
      ensures r in Kept(node, rules)
    {
      if NetworkAddress(r.cidr) == node {
        HostContainsItself(r.cidr, a);
        HostContainsItself(r.cidr, node);
        assert false;
      }
    }
  }

  lemma KeptIsValid(node: Address, rules: set<ClusterRule>)
    requires ValidRules(rules)
    ensures ValidRules(Kept(node, rules))
    ensures forall c :: ValidL4(Around(Kept(node, rules), c))
  {
    assert AllL4Rules(Kept(node, rules)) <= AllL4Rules(rules);
    forall c
      ensures ValidL4(Around(Kept(node, rules), c))
    {
      assert Around(Kept(node, rules), c) <= AllL4Rules(rules);
    }
  }

  /** The entry found for an address carries the ranks of exactly the rules that apply to the packet. */
  lemma TableHoldsAppliedRanks(table: map<seq<Byte>, seq<Byte>>, node: Address, rules: set<ClusterRule>, a: Address, pkt: Packet)
    requires Compiled(table, node, Kept(node, rules))
    requires ValidRules(rules) && NodeIsNoNetwork(node, rules) && SlotsSuffice(Kept(node, rules))
    requires a != node && a.family == node.family && pkt.protocol != 0
    ensures EntryRanks(LongestMatch(table, a), pkt) == Ranks(AppliedAll(rules, a, pkt))
  {
    var kept := Kept(node, rules);
    KeptIsValid(node, rules);
    KeptApplies(node, rules, a, pkt);
    LongestMatchIsLongest(table, a);
    forall r | r in kept && Contains(r.cidr, a)
      ensures TrieKey(r.cidr) in table
    {
      assert r.cidr in RuleCidrs(kept);
    }
    if LongestMatch(table, a).Some? {
      var c: Cidr :| IsLongestMatch(table, a, c) && LongestMatch(table, a).value == table[TrieKey(c)];
      HostContainsItself(c, a);
      assert Holds(table, c, Around(kept, c));
      EntryHoldsAppliedRanks(RankedSlots(table[TrieKey(c)]), kept, c, a, pkt);
    } else {
      assert AppliedAll(kept, a, pkt) == {};
    }
  }

  /** Compile, encode, lookup and scan together give the outcome of each tier, whatever order the slots have. */
  lemma ClusterCompileIsExact(table: map<seq<Byte>, seq<Byte>>, node: Address, rules: set<ClusterRule>, a: Address, pkt: Packet)
    requires Compiled(table, node, Kept(node, rules))
    requires ValidRules(rules) && NodeIsNoNetwork(node, rules) && SlotsSuffice(Kept(node, rules))
    requires a != node && a.family == node.family && pkt.protocol != 0
    ensures AdminAction(LongestMatch(table, a), pkt) == TierVerdict(rules, a, pkt, false)
    ensures BaselineAction(LongestMatch(table, a), pkt) == TierVerdict(rules, a, pkt, true)
  {
    TableHoldsAppliedRanks(table, node, rules, a, pkt);
    TiersOfRanks(AppliedAll(rules, a, pkt));
    assert AppliedRules(rules, a, pkt, true) == Tier(AppliedAll(rules, a, pkt), true);
    assert AppliedRules(rules, a, pkt, false) == Tier(AppliedAll(rules, a, pkt), false);
  }

  function Tier(rules: set<ClusterRule>, baseline: bool): set<ClusterRule> {
    set r | r in rules && (baseline <==> r.priority > 1000)
  }

  lemma TiersOfRanks(rules: set<ClusterRule>)
    requires forall r | r in rules :: ValidPriority(r)
    ensures Outcome(Tier(rules, true)) == Least(BaselineRanks(Ranks(rules))) % 10
    ensures Outcome(Tier(rules, false))
         == if Least(Ranks(rules)) / 10 <= ADMIN_TIER_PRIORITY_LIMIT then Least(Ranks(rules)) % 10 else ACTION_PASS
  {
    OutcomeIsLeast(Tier(rules, true));
    OutcomeIsLeast(Tier(rules, false));
    BaselineIsTier(rules);
    if r :| r in Tier(rules, false) {
      LeastIsAdmin(rules, r);
    } else {
      NoAdmin(rules);
    }
  }

  lemma BaselineIsTier(rules: set<ClusterRule>)
    requires forall r | r in rules :: ValidPriority(r)
    ensures BaselineRanks(Ranks(rules)) == Ranks(Tier(rules, true))
  {
  }

  lemma NoAdmin(rules: set<ClusterRule>)
    requires (forall r | r in rules :: ValidPriority(r)) && Tier(rules, false) == {}
    ensures Least(Ranks(Tier(rules, false))) == NO_RANK
    ensures Least(Ranks(rules)) / 10 > ADMIN_TIER_PRIORITY_LIMIT
  {
    assert Ranks(Tier(rules, false)) == {};
    forall rank | rank in Ranks(rules)
      ensures rank >= 10010
    {
      var r :| r in rules && Rank(r) == rank;
      assert r !in Tier(rules, false);
    }
  }

  /** With an admin rule present, the least rank is an admin rule's and the least of its tier. */
  lemma LeastIsAdmin(rules: set<ClusterRule>, r: ClusterRule)
    requires (forall r | r in rules :: ValidPriority(r)) && r in Tier(rules, false)
    ensures Least(Ranks(rules)) == Least(Ranks(Tier(rules, false)))
    ensures Least(Ranks(rules)) / 10 <= ADMIN_TIER_PRIORITY_LIMIT
  {
    OutcomeIsLeast(rules);
    assert Rank(r) in Ranks(rules);
    var best :| best in rules && Rank(best) == Least(Ranks(rules));
    assert best in Tier(rules, false);
    assert Rank(best) in Ranks(Tier(rules, false));
    assert Ranks(Tier(rules, false)) <= Ranks(rules);
    LeastIsUnique(Rank(best), Ranks(Tier(rules, false)));
  }

  // ----- both tables together

  /** What the namespaced rules say: with policies applied, allow or deny; otherwise pass where no rule reaches. */
  ghost function NamespaceVerdict(node: Address, rules: set<Ns.Rule>, a: Address, pkt: Packet, podState: int): int {
    if Allows(rules, a, pkt) then ACTION_ALLOW
    else if podState != POLICIES_APPLIED && forall r | r in rules :: !Concerns(node, r, a) then ACTION_PASS
    else ACTION_DENY
  }

  /** The address is in the CIDR or in an Except of the rule, and the rule is not dropped for the node's sake. */
  predicate Concerns(node: Address, r: Ns.Rule, a: Address) {
    && r.cidr.family == node.family && NetworkAddress(r.cidr) != node
    && (Contains(r.cidr, a) || exists e | e in r.except :: Contains(e, a))
  }

  lemma EntriesConcern(node: Address, rules: set<Ns.Rule>, a: Address)
    requires a != node
    ensures (exists d: Cidr | d in NsCompiler.TableCidrs(node, Ns.Kept(node, rules)) :: Contains(d, a))
       <==> exists r | r in rules :: Concerns(node, r, a)
  {
    var kept := Ns.Kept(node, rules);
    if d: Cidr :| d in NsCompiler.TableCidrs(node, kept) && Contains(d, a) {
      NodeContainsNoOther(node, a);
      if d in Ns.RuleCidrs(kept) {
        var r :| r in kept && r.cidr == d;
        assert Concerns(node, r, a);
      } else {
        var r, e :| r in kept && e in r.except && e == d;
        assert Concerns(node, r, a);
      }
    }
    if r :| r in rules && Concerns(node, r, a) {
      assert r in kept;
      if Contains(r.cidr, a) {
        assert r.cidr in Ns.RuleCidrs(kept);
      } else {
        var e :| e in r.except && Contains(e, a);
        assert e in Ns.AllExcepts(kept);
      }
    }
  }

  lemma NodeContainsNoOther(node: Address, a: Address)
    ensures Contains(node, a) ==> node == a
  {
    if Contains(node, a) {
      HostContainsItself(node, a);
    }
  }

  /** The namespaced rules fit their slots, and every rule around the address is delivered faithfully. */
  ghost predicate ReadsPlainly(node: Address, rules: set<Ns.Rule>, a: Address) {
    && NamespaceExactness.FaithfulAt(node, Ns.Kept(node, rules), a) && NamespaceExactness.NodeIsNoNetwork(node, rules)
    && ValidPorts(rules) && NamespaceExactness.SlotsSuffice(Ns.Kept(node, rules))
  }

  /** Disciplined Excepts are read plainly at every address but the node's. */
  lemma DisciplineReadsPlainly(node: Address, rules: set<Ns.Rule>, a: Address)
    requires NamespaceExactness.DisciplinedExcepts(rules) && NamespaceExactness.NodeIsNoNetwork(node, rules)
    requires NamespaceExactness.NoV6Slash32(rules) && ValidPorts(rules)
    requires NamespaceExactness.SlotsSuffice(Ns.Kept(node, rules)) && a != node
    ensures ReadsPlainly(node, rules, a)
  {
    NamespaceExactness.KeptIsDisciplined(node, rules);
    NamespaceExactness.DisciplineIsFaithful(node, Ns.Kept(node, rules), a);
  }

  // ----- the node's own traffic

  /** The node's entry of the cluster table is one Accept rule of priority 0 for everything. */
  lemma NodeRuleMatches(slots: seq<RankedSlot>, pkt: Packet)
    requires Represents(slots, {NODE_RULE}) && pkt.protocol != 0
    ensures Least(MatchingRanks(slots, pkt)) == ACTION_ALLOW
  {
    var s := RankedSlotOf(NODE_RULE);
    assert SlotSet({NODE_RULE}) == {s};
    assert L4Keys({NODE_RULE}) == {KeyOf(NODE_RULE)};
    assert s in Elements(slots) && RankedMatches(s, pkt) && s.rank == 1;
    RankIsMatching(slots, s, pkt);
    forall r | r in MatchingRanks(slots, pkt)
      ensures r == 1
    {
      var t :| t in slots && RankedMatches(t, pkt) && t.rank == r;
      assert t in Elements(slots);
    }
    LeastIsUnique(1, MatchingRanks(slots, pkt));
  }

  /**
   * With a compiled cluster table the node's traffic is accepted at the admin tier, whatever the namespaced table, its
   * Excepts and the pod state say.
   */
  lemma NodeIsAccepted(clusterTable: map<seq<Byte>, seq<Byte>>, entry: Option<seq<Byte>>, node: Address, rules: set<ClusterRule>,
                       pkt: Packet, podState: int)
    requires Compiled(clusterTable, node, Kept(node, rules)) && pkt.protocol != 0
    ensures AdminAction(LongestMatch(clusterTable, node), pkt) == ACTION_ALLOW
    ensures Decision(AdminAction(LongestMatch(clusterTable, node), pkt), NamespaceAction(entry, pkt, podState),
                     BaselineAction(LongestMatch(clusterTable, node), pkt), podState)
  {
    var kept := Kept(node, rules);
    NodeIsNoRule(node, rules);
    assert TrieKey(node) in clusterTable && Contains(node, node) && Holds(clusterTable, node, {NODE_RULE});
    LongestMatchIsLongest(clusterTable, node);
    var c: Cidr :| IsLongestMatch(clusterTable, node, c)
      && LongestMatch(clusterTable, node).value == clusterTable[TrieKey(c)];
    HostContainsItself(c, node);
    NodeRuleIsValid();
    NodeRuleMatches(RankedSlots(clusterTable[TrieKey(node)]), pkt);
  }

  lemma NodeIsNoRule(node: Address, rules: set<ClusterRule>)
    ensures node !in RuleCidrs(Kept(node, rules))
  {
    NamespaceExactness.HostNetwork(node);
  }

  lemma NodeRuleIsValid()
    ensures ValidL4({NODE_RULE})
  {
  }

  // ----- the order of precedence over the rules themselves

  /** The rule applies in its tier, and no other that applies there goes before it. */
  predicate Wins(rules: set<ClusterRule>, a: Address, pkt: Packet, baseline: bool, r: ClusterRule) {
    IsBest(AppliedRules(rules, a, pkt, baseline), r)
  }

  ghost predicate TierAccepts(rules: set<ClusterRule>, a: Address, pkt: Packet, baseline: bool) {
    exists r :: Wins(rules, a, pkt, baseline, r) && r.action.Accept?
  }

  ghost predicate TierDenies(rules: set<ClusterRule>, a: Address, pkt: Packet, baseline: bool) {
    exists r :: Wins(rules, a, pkt, baseline, r) && r.action.Deny?
  }

  /**
   * An admin rule decides first; then a namespaced rule, or a namespaced policy that reaches the address; then a baseline
   * rule; and where nothing decides, the pod's default.
   */
  ghost predicate PolicyAccepts(node: Address, clusterRules: set<ClusterRule>, rules: set<Ns.Rule>, a: Address, pkt: Packet,
                                podState: int)
  {
    if TierAccepts(clusterRules, a, pkt, false) then true
    else if TierDenies(clusterRules, a, pkt, false) then false
    else if Allows(rules, a, pkt) then true
    else if podState == POLICIES_APPLIED || exists r | r in rules :: Concerns(node, r, a) then false
    else if TierAccepts(clusterRules, a, pkt, true) then true
    else if TierDenies(clusterRules, a, pkt, true) then false
    else podState == DEFAULT_ALLOW
  }

  lemma VerdictIsWinner(rules: set<ClusterRule>, a: Address, pkt: Packet, baseline: bool)
    ensures TierVerdict(rules, a, pkt, baseline) == ACTION_ALLOW <==> TierAccepts(rules, a, pkt, baseline)
    ensures TierVerdict(rules, a, pkt, baseline) == ACTION_DENY <==> TierDenies(rules, a, pkt, baseline)
    ensures TierVerdict(rules, a, pkt, baseline) in {ACTION_ALLOW, ACTION_DENY, ACTION_PASS}
  {
    var applied := AppliedRules(rules, a, pkt, baseline);
    forall r, s | IsBest(applied, r) && IsBest(applied, s)
      ensures (r.action.Accept? <==> s.action.Accept?) && (r.action.Deny? <==> s.action.Deny?)
    {
      assert Precedes(r, s) && Precedes(s, r);
    }
    if r :| IsBest(applied, r) {
      assert Wins(rules, a, pkt, baseline, r);
    }
  }

  /** The verdict on a packet is the order of precedence over the rules themselves. */
  lemma TieredVerdictIsExact(clusterTable: map<seq<Byte>, seq<Byte>>, namespacedTable: map<seq<Byte>, seq<Byte>>,
                             node: Address, clusterRules: set<ClusterRule>, rules: set<Ns.Rule>,
                             a: Address, pkt: Packet, podState: int)
    requires Compiled(clusterTable, node, Kept(node, clusterRules))
    requires ValidRules(clusterRules) && NodeIsNoNetwork(node, clusterRules) && SlotsSuffice(Kept(node, clusterRules))
    requires NsCompiler.Compiled(namespacedTable, node, Ns.Kept(node, rules))
    requires ReadsPlainly(node, rules, a)
    requires a != node && a.family == node.family && pkt.protocol != 0
    ensures Decision(AdminAction(LongestMatch(clusterTable, a), pkt),
                     NamespaceAction(LongestMatch(namespacedTable, a), pkt, podState),
                     BaselineAction(LongestMatch(clusterTable, a), pkt), podState)
       <==> PolicyAccepts(node, clusterRules, rules, a, pkt, podState)
  {
    ClusterCompileIsExact(clusterTable, node, clusterRules, a, pkt);
    VerdictIsWinner(clusterRules, a, pkt, false);
    VerdictIsWinner(clusterRules, a, pkt, true);
    NamespaceTierIsExact(namespacedTable, node, rules, a, pkt, podState);
  }

  /** Both compilers, both lookups and the evaluation of one packet. */
  method Decide(node: Address, clusterRules: seq<ClusterRule>, rules: seq<Ns.Rule>, a: Address, pkt: Packet, podState: int)
    returns (accepted: bool)
    requires ValidRules(Elements(clusterRules)) && NodeIsNoNetwork(node, Elements(clusterRules))
    requires SlotsSuffice(Kept(node, Elements(clusterRules)))
    requires ReadsPlainly(node, Elements(rules), a)
    requires a != node && a.family == node.family && pkt.protocol != 0
    ensures accepted <==> PolicyAccepts(node, Elements(clusterRules), Elements(rules), a, pkt, podState)
  {
    var clusterTable := ComputeClusterMapEntries(node, clusterRules);
    var namespacedTable := NsCompiler.ComputeMapEntries(node, rules);
    ClusterEntryLength(clusterTable, node, Kept(node, Elements(clusterRules)), a);
    NamespacedEntryLength(namespacedTable, node, Ns.Kept(node, Elements(rules)), a);
    accepted := EvaluateFlow(LongestMatch(clusterTable, a), LongestMatch(namespacedTable, a), pkt, podState);
    TieredVerdictIsExact(clusterTable, namespacedTable, node, Elements(clusterRules), Elements(rules), a, pkt, podState);
  }

  lemma ClusterEntryLength(table: map<seq<Byte>, seq<Byte>>, node: Address, kept: set<ClusterRule>, a: Address)
    requires Compiled(table, node, kept)
    ensures LongestMatch(table, a).Some? ==> |LongestMatch(table, a).value| == ADMIN_TRIE_VALUE_LENGTH
  {
    LongestMatchIsLongest(table, a);
    if LongestMatch(table, a).Some? {
      var c: Cidr :| IsLongestMatch(table, a, c) && LongestMatch(table, a).value == table[TrieKey(c)];
      if c in RuleCidrs(kept) {
        assert Holds(table, c, Around(kept, c));
      } else {
        assert Holds(table, c, {NODE_RULE});
      }
    }
  }

  lemma NamespacedEntryLength(table: map<seq<Byte>, seq<Byte>>, node: Address, kept: set<Ns.Rule>, a: Address)
    requires NsCompiler.Compiled(table, node, kept)
    ensures LongestMatch(table, a).Some? ==> |LongestMatch(table, a).value| == TRIE_VALUE_LENGTH
  {
    TableLookup(table, node, kept, a);
    if LongestMatch(table, a).Some? {
      var c: Cidr :| IsEntryFor(table, node, kept, a, c);
    }
  }

  lemma NamespaceTierIsExact(table: map<seq<Byte>, seq<Byte>>, node: Address, rules: set<Ns.Rule>, a: Address, pkt: Packet,
                             podState: int)
    requires NsCompiler.Compiled(table, node, Ns.Kept(node, rules)) && ReadsPlainly(node, rules, a)
    requires a != node && a.family == node.family && pkt.protocol != 0
    ensures NamespaceAction(LongestMatch(table, a), pkt, podState) == NamespaceVerdict(node, rules, a, pkt, podState)
  {
    NamespaceExactness.FaithfulIsExact(table, node, rules, a, pkt);
    NamespaceExactness.KeptDecidesTheRest(node, rules, a, pkt);
    EntriesConcern(node, rules, a);
    TableLookup(table, node, Ns.Kept(node, rules), a);
  }
}
