/** The cluster-policy reconciler's world as a value: API objects, work queue, bookkeeping maps, kernel maps. */
module ClusterState {
  import opened Basics
  import opened PolicyTypes
  import opened ClusterMaps
  import PodNames

  /** The slice name `<parent>-<suffix>`. `PodNames.ParentOfGenerated` shows that the text gives the parent back. */
  datatype CpeName = CpeName(parent: string, suffix: string)

  function ParentOf(n: CpeName): string {
    n.parent
  }

  datatype Pod = Pod(name: string, namespace: string, ip: string)
  datatype PodEndpoint = PodEndpoint(pod: Pod, hostIP: string)
  datatype Endpoint = Endpoint(cidr: string, domain: string, ports: seq<Port>, action: Action)
  datatype Tier = AdminTier | BaselineTier
  datatype Cpe = Cpe(parent: string, tier: Tier, priority: int, pods: seq<PodEndpoint>,
                     ingress: seq<Endpoint>, egress: seq<Endpoint>)

  const BASELINE_TIER_PRIORITY_OFFSET := 2000

  datatype State = State(
    store: map<CpeName, Cpe>,                  // the API server's slices
    queue: set<CpeName>,                       // slices with a pending event
    used: set<CpeName>,                        // every name ever given out
    cpesOf: map<Identifier, seq<CpeName>>,     // podIdentifierToClusterPolicyEndpointMap
    podsOf: map<CpeName, seq<Pod>>,            // ClusterPolicyEndpointSelectorMap
    identifiersOf: map<string, set<Identifier>>, // clusterNetworkPolicyToPodIdentifierMap
    contexts: set<Identifier>,                 // identifiers with programs on the node
    kernel: map<Identifier, KernelMaps>)       // what was written for them

  function IdOf(p: Pod): Identifier {
    Identifier(PodNames.PodIdentifier(p.name, p.namespace))
  }

  /** Pods share an identifier iff they are of one workload of one namespace, whatever their addresses. */
  lemma IdMeansWorkload(p: Pod, q: Pod)
    requires PodNames.IsDns(p.name) && PodNames.IsDns(p.namespace) && PodNames.IsDns(q.name) && PodNames.IsDns(q.namespace)
    ensures IdOf(p) == IdOf(q) <==> PodNames.Base(p.name) == PodNames.Base(q.name) && p.namespace == q.namespace
  {
    PodNames.IdentifierIdentity(p.name, p.namespace, q.name, q.namespace);
  }

  /** The name as text, and the parent as it is parsed out of the text. */
  function TextOf(n: CpeName): string {
    n.parent + "-" + n.suffix
  }

  lemma ParentIsParsed(n: CpeName)
    requires '-' !in n.suffix
    ensures PodNames.HasParent(TextOf(n)) && PodNames.ParentOf(TextOf(n)) == ParentOf(n)
  {
    PodNames.ParentOfGenerated(n.parent, n.suffix);
  }

  function IdsOf(pods: seq<Pod>): set<Identifier> {
    set p | p in pods :: IdOf(p)
  }

  // ----- the rules of a slice

  function PriorityOf(c: Cpe): int {
    c.priority + if c.tier.BaselineTier? then BASELINE_TIER_PRIORITY_OFFSET else 0
  }

  function IngressRule(c: Cpe, e: Endpoint): FirewallRule {
    FirewallRule(PriorityOf(c), e.action, e.cidr, "", e.ports)
  }

  function EgressRule(c: Cpe, e: Endpoint): FirewallRule {
    FirewallRule(PriorityOf(c), e.action, e.cidr, e.domain, e.ports)
  }

  function IngressRules(c: Cpe): seq<FirewallRule> {
    seq(|c.ingress|, i requires 0 <= i < |c.ingress| => IngressRule(c, c.ingress[i]))
  }

  /** Egress endpoints without a CIDR are skipped. */
  function EgressRules(c: Cpe, n: nat): seq<FirewallRule>
    requires n <= |c.egress|
  {
    if n == 0 then []
    else EgressRules(c, n - 1) + if c.egress[n - 1].cidr == "" then [] else [EgressRule(c, c.egress[n - 1])]
  }

  function AllEgressRules(c: Cpe): seq<FirewallRule> {
    EgressRules(c, |c.egress|)
  }

  /** The rules of the named slices that exist, in order. */
  function RulesOf(names: seq<CpeName>, store: map<CpeName, Cpe>): RulePair {
    if names == [] then ([], [])
    else
      var (ingress, egress) := RulesOf(names[..|names| - 1], store);
      var n := names[|names| - 1];
      if n in store then (ingress + IngressRules(store[n]), egress + AllEgressRules(store[n])) else (ingress, egress)
  }

  predicate NoDuplicates<T(==)>(s: seq<T>) {
    forall i, j | 0 <= i < j < |s| :: s[i] != s[j]
  }

  /** These are exactly the rules of the slices in `names`, each slice once. */
  ghost predicate AreRulesOf(rules: RulePair, names: set<CpeName>, store: map<CpeName, Cpe>) {
    exists order: seq<CpeName> :: NoDuplicates(order) && Elements(order) == names && rules == RulesOf(order, store)
  }

  // ----- the same in plain words

  /** The rule is what one endpoint of the slice demands; baseline slices rank 2000 below the admin ones. */
  predicate Demands(c: Cpe, d: Direction, e: Endpoint, r: FirewallRule) {
    && (match d
        case Ingress => e in c.ingress && r.domain == ""
        case Egress => e in c.egress && e.cidr != "" && r.domain == e.domain)
    && r.action == e.action && r.cidr == e.cidr && r.ports == e.ports
    && r.priority == if c.tier.BaselineTier? then c.priority + 2000 else c.priority
  }

  ghost predicate IsDemanded(names: set<CpeName>, store: map<CpeName, Cpe>, d: Direction, r: FirewallRule) {
    exists n, e | n in names && n in store :: Demands(store[n], d, e, r)
  }

  /** Exactly what the existing slices in `names` demand. */
  ghost predicate AreDemanded(rules: RulePair, names: set<CpeName>, store: map<CpeName, Cpe>) {
    forall r ::
      && (r in rules.0 <==> IsDemanded(names, store, Ingress, r))
      && (r in rules.1 <==> IsDemanded(names, store, Egress, r))
  }

  lemma IngressMeans(c: Cpe, r: FirewallRule)
    ensures r in IngressRules(c) <==> exists e :: Demands(c, Ingress, e, r)
  {
    if r in IngressRules(c) {
      var i :| 0 <= i < |c.ingress| && IngressRules(c)[i] == r;
      assert Demands(c, Ingress, c.ingress[i], r);
    }
    if e :| Demands(c, Ingress, e, r) {
      var i :| 0 <= i < |c.ingress| && c.ingress[i] == e;
      assert IngressRules(c)[i] == r;
    }
  }

  lemma {:induction false} EgressMeans(c: Cpe, n: nat, r: FirewallRule)
    requires n <= |c.egress|
    ensures r in EgressRules(c, n) <==> exists i | 0 <= i < n :: Demands(c, Egress, c.egress[i], r)
  {
    if n > 0 {
      EgressMeans(c, n - 1, r);
      assert Demands(c, Egress, c.egress[n - 1], r) <==> c.egress[n - 1].cidr != "" && r == EgressRule(c, c.egress[n - 1]);
    }
  }

  lemma AllEgressMeans(c: Cpe, r: FirewallRule)
    ensures r in AllEgressRules(c) <==> exists e :: Demands(c, Egress, e, r)
  {
    EgressMeans(c, |c.egress|, r);
    if e :| Demands(c, Egress, e, r) {
      var i :| 0 <= i < |c.egress| && c.egress[i] == e;
      assert Demands(c, Egress, c.egress[i], r);
    }
  }

  lemma {:induction false} RulesOfMeans(order: seq<CpeName>, store: map<CpeName, Cpe>, r: FirewallRule)
    ensures r in RulesOf(order, store).0 <==> IsDemanded(Elements(order), store, Ingress, r)
    ensures r in RulesOf(order, store).1 <==> IsDemanded(Elements(order), store, Egress, r)
  {
    if order != [] {
      var rest, n := order[..|order| - 1], order[|order| - 1];
      RulesOfMeans(rest, store, r);
      assert order == rest + [n];
      assert Elements(order) == Elements(rest) + {n};
      DemandedOneMore(Elements(rest), n, store, Ingress, r);
      DemandedOneMore(Elements(rest), n, store, Egress, r);
      if n in store {
        IngressMeans(store[n], r);
        AllEgressMeans(store[n], r);
      }
    }
  }

  lemma DemandedOneMore(names: set<CpeName>, n: CpeName, store: map<CpeName, Cpe>, d: Direction, r: FirewallRule)
    ensures IsDemanded(names + {n}, store, d, r)
       <==> IsDemanded(names, store, d, r) || (n in store && exists e :: Demands(store[n], d, e, r))
  {
    if IsDemanded(names + {n}, store, d, r) {
      var m, e :| m in names + {n} && m in store && Demands(store[m], d, e, r);
    }
    if IsDemanded(names, store, d, r) {
      var m, e :| m in names && m in store && Demands(store[m], d, e, r);
      assert m in names + {n};
    }
  }

  /** The rules derived for an identifier are what the endpoints of its slices demand, and nothing else. */
  lemma RulesAreDemanded(rules: RulePair, names: set<CpeName>, store: map<CpeName, Cpe>)
    requires AreRulesOf(rules, names, store)
    ensures AreDemanded(rules, names, store)
  {
    var order :| NoDuplicates(order) && Elements(order) == names && rules == RulesOf(order, store);
    forall r
      ensures r in rules.0 <==> IsDemanded(names, store, Ingress, r)
      ensures r in rules.1 <==> IsDemanded(names, store, Egress, r)
    {
      RulesOfMeans(order, store, r);
    }
  }

  /** The cluster pod state of refreshed maps is 0, policies applied, if some slice demands a rule, and 1 otherwise. */
  lemma StateIsPlain(maps: KernelMaps, names: set<CpeName>, store: map<CpeName, Cpe>)
    requires HoldsRulesOf(maps, names, store)
    ensures maps.state == if exists d, r :: IsDemanded(names, store, d, r) then 0 else 1
  {
    var rules := RulesIn(maps);
    RulesAreDemanded(rules, names, store);
    if rules.0 != [] {
      assert rules.0[0] in rules.0 && IsDemanded(names, store, Ingress, rules.0[0]);
    } else if rules.1 != [] {
      assert rules.1[0] in rules.1 && IsDemanded(names, store, Egress, rules.1[0]);
    }
    if d, r :| IsDemanded(names, store, d, r) {
      assert r in if d.Ingress? then rules.0 else rules.1;
    }
  }

  /** The maps were refreshed, without an error, towards exactly the rules of the slices in `names`. */
  ghost predicate HoldsRulesOf(maps: KernelMaps, names: set<CpeName>, store: map<CpeName, Cpe>) {
    IsWritten(maps) && AreRulesOf(RulesIn(maps), names, store)
  }

  lemma {:induction false} RulesOfUntouched(order: seq<CpeName>, store: map<CpeName, Cpe>, store': map<CpeName, Cpe>)
    requires forall n | n in order :: (n in store <==> n in store') && (n in store ==> store[n] == store'[n])
    ensures RulesOf(order, store) == RulesOf(order, store')
  {
    if order != [] {
      RulesOfUntouched(order[..|order| - 1], store, store');
    }
  }

  lemma HoldsUntouched(maps: KernelMaps, names: set<CpeName>, store: map<CpeName, Cpe>, store': map<CpeName, Cpe>)
    requires HoldsRulesOf(maps, names, store)
    requires forall n | n in names :: (n in store <==> n in store') && (n in store ==> store[n] == store'[n])
    ensures HoldsRulesOf(maps, names, store')
  {
    var order :| NoDuplicates(order) && Elements(order) == names && RulesIn(maps) == RulesOf(order, store);
    assert forall n | n in order :: n in Elements(order);
    RulesOfUntouched(order, store, store');
  }

  // ----- who selects whom

  function SlicesOf(store: map<CpeName, Cpe>, parent: string): set<CpeName> {
    set n | n in store && ParentOf(n) == parent
  }

  predicate Lists(c: Cpe, i: Identifier) {
    exists e | e in c.pods :: IdOf(e.pod) == i
  }

  predicate Selects(store: map<CpeName, Cpe>, parent: string, i: Identifier) {
    exists n | n in store :: ParentOf(n) == parent && Lists(store[n], i)
  }

  /** The slices whose rules an identifier must hold: all slices of the parents that select it. */
  function WantedSlices(store: map<CpeName, Cpe>, i: Identifier): set<CpeName> {
    set n | n in store && Selects(store, ParentOf(n), i)
  }

  function LocalPods(c: Cpe, nodeIP: string): set<Pod> {
    set e | e in c.pods && e.hostIP == nodeIP :: e.pod
  }

  /** The pods a parent's slices list on this node. */
  function LocalPodsOf(store: map<CpeName, Cpe>, parent: string, nodeIP: string): set<Pod> {
    set n, p | n in store && ParentOf(n) == parent && p in LocalPods(store[n], nodeIP) :: p
  }

  /** The identifiers a parent selects on this node. */
  function LocalIds(store: map<CpeName, Cpe>, parent: string, nodeIP: string): set<Identifier> {
    set n, p | n in store && ParentOf(n) == parent && p in LocalPods(store[n], nodeIP) :: IdOf(p)
  }

  /**
   * Who is selected, in plain words: a parent selects what any of its slices lists, and on this node what is listed with this
   * node's address; and a selected identifier must hold all slices of the parent.
   */
  lemma SelectionMeans(store: map<CpeName, Cpe>, parent: string, i: Identifier, nodeIP: string, pod: Pod, n: CpeName)
    ensures Selects(store, parent, i) <==>
              exists m, e | m in store && m.parent == parent && e in store[m].pods :: IdOf(e.pod) == i
    ensures i in LocalIds(store, parent, nodeIP) <==>
              exists m, e | m in store && m.parent == parent && e in store[m].pods :: e.hostIP == nodeIP && IdOf(e.pod) == i
    ensures pod in LocalPodsOf(store, parent, nodeIP) <==>
              exists m | m in store && m.parent == parent :: PodEndpoint(pod, nodeIP) in store[m].pods
    ensures n in WantedSlices(store, i) <==>
              n in store && exists m, e | m in store && m.parent == n.parent && e in store[m].pods :: IdOf(e.pod) == i
  {
    if pod in LocalPodsOf(store, parent, nodeIP) {
      var m :| m in store && ParentOf(m) == parent && pod in LocalPods(store[m], nodeIP);
      var e :| e in store[m].pods && e.hostIP == nodeIP && e.pod == pod;
      assert e == PodEndpoint(pod, nodeIP);
    }
    if m :| m in store && m.parent == parent && PodEndpoint(pod, nodeIP) in store[m].pods {
      assert PodEndpoint(pod, nodeIP).pod in LocalPods(store[m], nodeIP);
    }
    LocalIdMeans(store, parent, i, nodeIP);
  }

  lemma LocalIdMeans(store: map<CpeName, Cpe>, parent: string, i: Identifier, nodeIP: string)
    ensures i in LocalIds(store, parent, nodeIP) <==>
              exists m, e | m in store && m.parent == parent && e in store[m].pods :: e.hostIP == nodeIP && IdOf(e.pod) == i
  {
    if m, e :| m in store && m.parent == parent && e in store[m].pods && e.hostIP == nodeIP && IdOf(e.pod) == i {
      assert e.pod in LocalPods(store[m], nodeIP);
    }
  }

  // ----- derived views of the bookkeeping maps

  function Names(cpesOf: map<Identifier, seq<CpeName>>, i: Identifier): set<CpeName> {
    if i in cpesOf then Elements(cpesOf[i]) else {}
  }

  function PodIds(podsOf: map<CpeName, seq<Pod>>, n: CpeName): set<Identifier> {
    if n in podsOf then IdsOf(podsOf[n]) else {}
  }

  function ParentIds(identifiersOf: map<string, set<Identifier>>, parent: string): set<Identifier> {
    if parent in identifiersOf then identifiersOf[parent] else {}
  }

  // ----- what has to hold between reconciles

  /** On this node every `local` identifier is only ever listed with pods of this node. */
  predicate KeepsLocal(c: Cpe, nodeIP: string, local: Identifier -> bool) {
    forall e | e in c.pods && local(IdOf(e.pod)) :: e.hostIP == nodeIP
  }

  ghost predicate GoodStore(s: State, nodeIP: string, local: Identifier -> bool) {
    s.queue <= s.used && forall n :: GoodSliceAt(s.store, s.used, nodeIP, local, n)
  }

  ghost predicate GoodSliceAt(store: map<CpeName, Cpe>, used: set<CpeName>, nodeIP: string, local: Identifier -> bool,
                              n: CpeName) {
    n in store ==> n in used && store[n].parent == ParentOf(n) && KeepsLocal(store[n], nodeIP, local)
  }

  lemma StoreSays(s: State, nodeIP: string, local: Identifier -> bool)
    requires GoodStore(s, nodeIP, local)
    ensures forall n | n in s.store :: n in s.used && s.store[n].parent == ParentOf(n) && KeepsLocal(s.store[n], nodeIP, local)
  {
    forall n | n in s.store
      ensures n in s.used && s.store[n].parent == ParentOf(n) && KeepsLocal(s.store[n], nodeIP, local)
    {
      assert GoodSliceAt(s.store, s.used, nodeIP, local, n);
    }
  }

  lemma StoreChanges(s: State, nodeIP: string, local: Identifier -> bool, n: CpeName, cpe: Option<Cpe>, s': State)
    requires GoodStore(s, nodeIP, local) && s'.used == s.used + {n} && s'.queue == s.queue + {n}
    requires s'.store == if cpe.Some? then s.store[n := cpe.value] else s.store - {n}
    requires cpe.Some? ==> cpe.value.parent == ParentOf(n) && KeepsLocal(cpe.value, nodeIP, local)
    ensures GoodStore(s', nodeIP, local)
  {
    forall m
      ensures GoodSliceAt(s'.store, s'.used, nodeIP, local, m)
    {
      assert GoodSliceAt(s.store, s.used, nodeIP, local, m);
    }
  }

  /** The identifier map's lists are non-empty, free of duplicates and made of known names. */
  ghost predicate GoodLists(cpesOf: map<Identifier, seq<CpeName>>, used: set<CpeName>) {
    forall i :: GoodListAt(cpesOf, used, i)
  }

  ghost predicate GoodListAt(cpesOf: map<Identifier, seq<CpeName>>, used: set<CpeName>, i: Identifier) {
    i in cpesOf ==> cpesOf[i] != [] && NoDuplicates(cpesOf[i]) && Elements(cpesOf[i]) <= used
  }

  lemma GoodListsGrow(cpesOf: map<Identifier, seq<CpeName>>, used: set<CpeName>, used': set<CpeName>)
    requires GoodLists(cpesOf, used) && used <= used'
    ensures GoodLists(cpesOf, used')
  {
    forall i
      ensures GoodListAt(cpesOf, used', i)
    {
      assert GoodListAt(cpesOf, used, i);
    }
  }

  lemma GoodListsWith(cpesOf: map<Identifier, seq<CpeName>>, used: set<CpeName>, i: Identifier, list: seq<CpeName>)
    requires GoodLists(cpesOf, used) && list != [] && NoDuplicates(list) && Elements(list) <= used
    ensures GoodLists(cpesOf[i := list], used)
  {
    var after := cpesOf[i := list];
    forall j
      ensures GoodListAt(after, used, j)
    {
      assert GoodListAt(cpesOf, used, j);
    }
  }

  lemma GoodListsWithout(cpesOf: map<Identifier, seq<CpeName>>, used: set<CpeName>, i: Identifier)
    requires GoodLists(cpesOf, used)
    ensures GoodLists(cpesOf - {i}, used)
  {
    var after := cpesOf - {i};
    forall j
      ensures GoodListAt(after, used, j)
    {
      assert GoodListAt(cpesOf, used, j);
    }
  }

  /** The identifier is tracked under every slice its entry names. */
  ghost predicate Tracked(s: State, i: Identifier) {
    forall n | n in Names(s.cpesOf, i) ::
      && i in PodIds(s.podsOf, n)
      && (n in s.store ==> i in ParentIds(s.identifiersOf, ParentOf(n)))
  }

  /** Of a parent's slices, the entry names all if the parent selects the identifier, and none otherwise. */
  predicate Agrees(s: State, parent: string, i: Identifier) {
    Names(s.cpesOf, i) * SlicesOf(s.store, parent) == if Selects(s.store, parent, i) then SlicesOf(s.store, parent) else {}
  }

  ghost predicate HasEvent(s: State, parent: string) {
    exists q | q in s.queue :: ParentOf(q) == parent
  }

  /** The kernel maps were last refreshed towards the rules of the existing slices the entry names. */
  ghost predicate Current(s: State, i: Identifier) {
    i in s.kernel && HoldsRulesOf(s.kernel[i], Names(s.cpesOf, i) * s.store.Keys, s.store)
  }

  /** Reconciling `q` finds the identifier among the pods recorded for its parent's slices. */
  predicate Reaches(s: State, q: CpeName, i: Identifier) {
    || i in PodIds(s.podsOf, q)
    || exists m | m in s.store :: ParentOf(m) == ParentOf(q) && i in PodIds(s.podsOf, m)
  }

  ghost predicate CurrentOrReached(s: State, i: Identifier) {
    Current(s, i) || exists q | q in s.queue :: Reaches(s, q, i)
  }

  /** Nothing is remembered about slices and parents that are gone, unless an event is still to come. */
  ghost predicate NoLeaks(s: State) {
    && (forall n | n in s.podsOf :: n in s.store || n in s.queue)
    && (forall p | p in s.identifiersOf :: SlicesOf(s.store, p) != {} || HasEvent(s, p))
  }

  /** The invariant, for every identifier and every parent. */
  ghost predicate Inv(s: State, nodeIP: string, local: Identifier -> bool) {
    forall i, p :: InvAt(s, nodeIP, local, i, p)
  }

  ghost predicate InvAt(s: State, nodeIP: string, local: Identifier -> bool, i: Identifier, p: string) {
    && GoodStore(s, nodeIP, local) && GoodLists(s.cpesOf, s.used) && NoLeaks(s)
    && (forall n | n in s.podsOf :: n in s.used)
    && (local(i) ==> Tracked(s, i) && (Agrees(s, p, i) || HasEvent(s, p)) && (i in s.contexts ==> CurrentOrReached(s, i)))
  }

  lemma InvSays(s: State, nodeIP: string, local: Identifier -> bool)
    requires Inv(s, nodeIP, local)
    ensures GoodStore(s, nodeIP, local) && GoodLists(s.cpesOf, s.used) && NoLeaks(s)
    ensures forall n | n in s.podsOf :: n in s.used
    ensures forall i | local(i) :: Tracked(s, i)
    ensures forall i, p | local(i) :: Agrees(s, p, i) || HasEvent(s, p)
    ensures forall i | local(i) && i in s.contexts :: CurrentOrReached(s, i)
  {
    assert InvAt(s, nodeIP, local, Identifier(""), "");
    forall i | local(i)
      ensures Tracked(s, i) && (i in s.contexts ==> CurrentOrReached(s, i))
    {
      assert InvAt(s, nodeIP, local, i, "");
    }
    forall i, p | local(i)
      ensures Agrees(s, p, i) || HasEvent(s, p)
    {
      assert InvAt(s, nodeIP, local, i, p);
    }
  }

  // ----- convergence

  /** The last refresh of the identifier's maps was towards what the existing slices demand. */
  ghost predicate IsRefreshed(s: State, i: Identifier) {
    i in s.kernel && HoldsRulesOf(s.kernel[i], WantedSlices(s.store, i), s.store)
  }

  /** The identifier's maps hold what the existing slices demand, and nothing else. */
  ghost predicate Exact(s: State, i: Identifier) {
    IsRefreshed(s, i) && AreClean(s.kernel[i])
  }

  /** A delete call failed in the last refresh of the identifier's maps; no error reports it. */
  ghost predicate LeftBehind(s: State, i: Identifier) {
    i in s.kernel && HaveFailedDelete(s.kernel[i])
  }

  /** A reconcile of `q` rewrites the identifier: its parent selects it, or its slices still track it. */
  predicate WillRewrite(s: State, q: CpeName, i: Identifier) {
    Selects(s.store, ParentOf(q), i) || Reaches(s, q, i)
  }

  /**
   * Every handled identifier is exact, or awaited by a queued event that rewrites it, or holds entries that a delete call of
   * its last refresh failed to remove. With an empty queue it is exact if and only if no such call failed.
   */
  lemma Converges(s: State, nodeIP: string, local: Identifier -> bool, i: Identifier)
    requires Inv(s, nodeIP, local) && local(i) && i in s.contexts
    ensures IsRefreshed(s, i) || exists q | q in s.queue :: WillRewrite(s, q, i)
    ensures Exact(s, i) || LeftBehind(s, i) || exists q | q in s.queue :: WillRewrite(s, q, i)
    ensures s.queue == {} ==> IsRefreshed(s, i) && (Exact(s, i) <==> !LeftBehind(s, i))
  {
    RefreshedOrAwaited(s, nodeIP, local, i);
    if IsRefreshed(s, i) {
      MapsCleanIffDeleted(s.kernel[i]);
    }
  }

  lemma RefreshedOrAwaited(s: State, nodeIP: string, local: Identifier -> bool, i: Identifier)
    requires Inv(s, nodeIP, local) && local(i) && i in s.contexts
    ensures IsRefreshed(s, i) || exists q | q in s.queue :: WillRewrite(s, q, i)
  {
    InvSays(s, nodeIP, local);
    if forall q | q in s.queue :: !WillRewrite(s, q, i) {
      assert Current(s, i);
      forall p
        ensures Agrees(s, p, i)
      {
        if !Agrees(s, p, i) {
          DisagreementIsReached(s, nodeIP, local, p, i);
        }
      }
      AgreementIsWanted(s, i);
    }
  }

  lemma DisagreementIsReached(s: State, nodeIP: string, local: Identifier -> bool, parent: string, i: Identifier)
    requires Inv(s, nodeIP, local) && local(i) && !Agrees(s, parent, i)
    ensures exists q | q in s.queue :: WillRewrite(s, q, i)
  {
    InvSays(s, nodeIP, local);
    var q :| q in s.queue && ParentOf(q) == parent;
    if !Selects(s.store, parent, i) {
      var m :| m in Names(s.cpesOf, i) && m in SlicesOf(s.store, parent);
      assert i in PodIds(s.podsOf, m);
      assert Reaches(s, q, i);
    }
    assert WillRewrite(s, q, i);
  }

  lemma AgreementIsWanted(s: State, i: Identifier)
    requires forall p :: Agrees(s, p, i)
    ensures Names(s.cpesOf, i) * s.store.Keys == WantedSlices(s.store, i)
  {
    forall n | n in s.store
      ensures n in Names(s.cpesOf, i) <==> Selects(s.store, ParentOf(n), i)
    {
      assert Agrees(s, ParentOf(n), i);
      assert n in SlicesOf(s.store, ParentOf(n));
      assert n in Names(s.cpesOf, i) <==> n in Names(s.cpesOf, i) * SlicesOf(s.store, ParentOf(n));
    }
  }

  /** With an empty queue nothing is remembered about slices that do not exist. */
  lemma QuietIsClean(s: State, nodeIP: string, local: Identifier -> bool)
    requires Inv(s, nodeIP, local) && s.queue == {}
    ensures s.podsOf.Keys <= s.store.Keys
    ensures forall p | p in s.identifiersOf :: SlicesOf(s.store, p) != {}
    ensures forall i | local(i) :: Names(s.cpesOf, i) <= s.store.Keys
  {
    InvSays(s, nodeIP, local);
    forall i, n | local(i) && n in Names(s.cpesOf, i)
      ensures n in s.store
    {
      assert Tracked(s, i);
    }
  }
}
