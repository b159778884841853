/** What each phase of a reconcile pass does, and how the phases make up a pass. */
module ClusterPhases {
  import opened Basics
  import opened PolicyTypes
  import opened ClusterState
  import opened ClusterInvariant
  import opened ClusterPass

  ghost predicate OnlyEnvironment(s: State, s': State) {
    s' == s.(store := s'.store, queue := s'.queue, used := s'.used)
  }

  /** What deriving leaves in the identifier map. */
  function Derived(s: State, name: CpeName, snap: map<CpeName, Cpe>, slices: set<CpeName>, targets: set<Identifier>,
                   i: Identifier): set<CpeName> {
    Names(s.cpesOf, i)
    + (if Selects(snap, ParentOf(name), i) then slices else {})
    - (if i in ParentIds(s.identifiersOf, ParentOf(name)) && i !in targets then slices else {})
  }

  /** Derive: the listing decides slices and targets, and the identifier map follows it. */
  ghost predicate DeriveStep(s: State, d: State, touched: set<CpeName>, name: CpeName, slices: set<CpeName>,
                             targets: set<Identifier>, cleaned: set<Identifier>, nodeIP: string) {
    forall i :: DeriveAt(s, d, touched, name, slices, targets, cleaned, nodeIP, i)
  }

  ghost predicate DeriveAt(s: State, d: State, touched: set<CpeName>, name: CpeName, slices: set<CpeName>,
                           targets: set<Identifier>, cleaned: set<Identifier>, nodeIP: string, i: Identifier) {
    var parent := ParentOf(name);
    && d == s.(store := d.store, queue := d.queue, used := d.used, cpesOf := d.cpesOf)
    && Moved(s.store, s.used, d.store, d.used, touched)
    && slices == (if SlicesOf(d.store, parent) != {} then SlicesOf(d.store, parent) else {name})
    && targets == LocalIds(d.store, parent, nodeIP)
    && cleaned == Tracking(s.podsOf, slices + {name}) - targets
    && Names(d.cpesOf, i) == Derived(s, name, d.store, slices, targets, i)
  }

  ghost predicate DropStep(d: State, e: State, name: CpeName) {
    forall i :: DropAt(d, e, name, i)
  }

  ghost predicate DropAt(d: State, e: State, name: CpeName, i: Identifier) {
    && e == d.(cpesOf := e.cpesOf)
    && Names(e.cpesOf, i) == Names(d.cpesOf, i) - if i in PodIds(d.podsOf, name) then {name} else {}
  }

  predicate SameKernel(s: State, s': State, i: Identifier) {
    (i in s'.kernel <==> i in s.kernel) && (i in s.kernel ==> s'.kernel[i] == s.kernel[i])
  }

  /** Cleanup: every identifier of the pods is fresh or failed, and no other is written. */
  ghost predicate CleanupStep(d: State, c: State, touched: set<CpeName>, ids: set<Identifier>, failed: set<Identifier>,
                              skip: Option<string>) {
    forall i :: CleanupAt(d, c, touched, ids, failed, skip, i)
  }

  ghost predicate CleanupAt(d: State, c: State, touched: set<CpeName>, ids: set<Identifier>, failed: set<Identifier>,
                            skip: Option<string>, i: Identifier) {
    && c == d.(store := c.store, queue := c.queue, used := c.used, kernel := c.kernel)
    && Moved(d.store, d.used, c.store, c.used, touched) && failed <= ids
    && (i !in ids ==> SameKernel(d, c, i))
    && (i in ids && i in c.contexts ==> i in failed || Fresh(c, touched, i, skip))
  }

  /** One cleanup after another. */
  lemma CleanupSteps(a: State, b: State, c: State, touched: set<CpeName>, touched': set<CpeName>, ids: set<Identifier>,
                     ids': set<Identifier>, failed: set<Identifier>, failed': set<Identifier>, skip: Option<string>)
    requires CleanupStep(a, b, touched, ids, failed, skip) && CleanupStep(b, c, touched', ids', failed', skip)
    requires touched <= touched'
    ensures CleanupStep(a, c, touched', ids + ids', failed + failed', skip)
  {
    CleanupSays(a, b, touched, ids, failed, skip);
    CleanupSays(b, c, touched', ids', failed', skip);
    MovedTransitive(a.store, a.used, b.store, b.used, c.store, c.used, touched, touched');
    forall i | i !in ids + ids'
      ensures SameKernel(a, c, i)
    {
      assert SameKernel(a, b, i) && SameKernel(b, c, i);
    }
    forall i | i in ids + ids' && i in c.contexts && i !in failed + failed'
      ensures Fresh(c, touched', i, skip)
    {
      if i !in ids' {
        assert SameKernel(b, c, i);
        FreshStays(b, c, touched, touched', i, skip);
      }
    }
  }

  /** Commit: the slices record the identifiers, and so does the parent. */
  ghost predicate CommitStep(c: State, k: State, name: CpeName, slices: set<CpeName>, ids: set<Identifier>) {
    forall n :: CommitAt(c, k, name, slices, ids, n)
  }

  ghost predicate CommitAt(c: State, k: State, name: CpeName, slices: set<CpeName>, ids: set<Identifier>, n: CpeName) {
    && k == c.(podsOf := k.podsOf, identifiersOf := k.identifiersOf)
    && (n in slices ==> PodIds(k.podsOf, n) == ids && (n in k.podsOf ==> ids != {}))
    && (n !in slices ==> (n in k.podsOf <==> n in c.podsOf) && (n in c.podsOf ==> k.podsOf[n] == c.podsOf[n]))
    && k.identifiersOf == if ids == {} then c.identifiersOf - {ParentOf(name)} else c.identifiersOf[ParentOf(name) := ids]
  }

  /** Programming: every target with programs is fresh or failed, and no other identifier is written. */
  ghost predicate ProgramStep(k: State, e: State, touched: set<CpeName>, targets: set<Identifier>, failed: set<Identifier>) {
    forall i :: ProgramAt(k, e, touched, targets, failed, i)
  }

  ghost predicate ProgramAt(k: State, e: State, touched: set<CpeName>, targets: set<Identifier>, failed: set<Identifier>,
                            i: Identifier) {
    && e == k.(store := e.store, queue := e.queue, used := e.used, kernel := e.kernel, contexts := e.contexts)
    && Moved(k.store, k.used, e.store, e.used, touched)
    && k.contexts <= e.contexts <= k.contexts + targets
    && (i !in targets ==> SameKernel(k, e, i))
    && (i in targets && i in e.contexts && i !in failed ==> Fresh(e, touched, i, None))
  }

  // ----- what the phases say, spelled out

  const ANY_ID := Identifier("")
  const ANY_NAME := CpeName("", "")

  lemma DeriveSays(s: State, d: State, touched: set<CpeName>, name: CpeName, slices: set<CpeName>, targets: set<Identifier>,
                   cleaned: set<Identifier>, nodeIP: string)
    requires DeriveStep(s, d, touched, name, slices, targets, cleaned, nodeIP)
    ensures var parent := ParentOf(name);
            && d == s.(store := d.store, queue := d.queue, used := d.used, cpesOf := d.cpesOf)
            && Moved(s.store, s.used, d.store, d.used, touched)
            && slices == (if SlicesOf(d.store, parent) != {} then SlicesOf(d.store, parent) else {name})
            && targets == LocalIds(d.store, parent, nodeIP)
            && cleaned == Tracking(s.podsOf, slices + {name}) - targets
    ensures forall i :: Names(d.cpesOf, i) == Derived(s, name, d.store, slices, targets, i)
  {
    assert DeriveAt(s, d, touched, name, slices, targets, cleaned, nodeIP, ANY_ID);
    forall i
      ensures Names(d.cpesOf, i) == Derived(s, name, d.store, slices, targets, i)
    {
      assert DeriveAt(s, d, touched, name, slices, targets, cleaned, nodeIP, i);
    }
  }

  lemma DropSays(d: State, e: State, name: CpeName)
    requires DropStep(d, e, name)
    ensures e == d.(cpesOf := e.cpesOf)
    ensures forall i :: Names(e.cpesOf, i) == Names(d.cpesOf, i) - if i in PodIds(d.podsOf, name) then {name} else {}
  {
    assert DropAt(d, e, name, ANY_ID);
    forall i
      ensures Names(e.cpesOf, i) == Names(d.cpesOf, i) - if i in PodIds(d.podsOf, name) then {name} else {}
    {
      assert DropAt(d, e, name, i);
    }
  }

  lemma CleanupSays(d: State, c: State, touched: set<CpeName>, ids: set<Identifier>, failed: set<Identifier>,
                    skip: Option<string>)
    requires CleanupStep(d, c, touched, ids, failed, skip)
    ensures c == d.(store := c.store, queue := c.queue, used := c.used, kernel := c.kernel)
    ensures Moved(d.store, d.used, c.store, c.used, touched) && failed <= ids
    ensures forall i | i !in ids :: SameKernel(d, c, i)
    ensures forall i | i in ids && i in c.contexts :: i in failed || Fresh(c, touched, i, skip)
  {
    assert CleanupAt(d, c, touched, ids, failed, skip, ANY_ID);
    forall i
      ensures i !in ids ==> SameKernel(d, c, i)
      ensures i in ids && i in c.contexts ==> i in failed || Fresh(c, touched, i, skip)
    {
      assert CleanupAt(d, c, touched, ids, failed, skip, i);
    }
  }

  lemma CommitSays(c: State, k: State, name: CpeName, slices: set<CpeName>, ids: set<Identifier>)
    requires CommitStep(c, k, name, slices, ids)
    ensures k == c.(podsOf := k.podsOf, identifiersOf := k.identifiersOf)
    ensures forall n | n in slices :: PodIds(k.podsOf, n) == ids && (n in k.podsOf ==> ids != {})
    ensures forall n | n !in slices :: (n in k.podsOf <==> n in c.podsOf) && (n in c.podsOf ==> k.podsOf[n] == c.podsOf[n])
    ensures k.identifiersOf == if ids == {} then c.identifiersOf - {ParentOf(name)} else c.identifiersOf[ParentOf(name) := ids]
  {
    assert CommitAt(c, k, name, slices, ids, ANY_NAME);
    forall n
      ensures n in slices ==> PodIds(k.podsOf, n) == ids && (n in k.podsOf ==> ids != {})
      ensures n !in slices ==> (n in k.podsOf <==> n in c.podsOf) && (n in c.podsOf ==> k.podsOf[n] == c.podsOf[n])
    {
      assert CommitAt(c, k, name, slices, ids, n);
    }
  }

  lemma ProgramSays(k: State, e: State, touched: set<CpeName>, targets: set<Identifier>, failed: set<Identifier>)
    requires ProgramStep(k, e, touched, targets, failed)
    ensures e == k.(store := e.store, queue := e.queue, used := e.used, kernel := e.kernel, contexts := e.contexts)
    ensures Moved(k.store, k.used, e.store, e.used, touched) && k.contexts <= e.contexts <= k.contexts + targets
    ensures forall i | i !in targets :: SameKernel(k, e, i)
    ensures forall i | i in targets && i in e.contexts && i !in failed :: Fresh(e, touched, i, None)
  {
    assert ProgramAt(k, e, touched, targets, failed, ANY_ID);
    forall i
      ensures i !in targets ==> SameKernel(k, e, i)
      ensures i in targets && i in e.contexts && i !in failed ==> Fresh(e, touched, i, None)
    {
      assert ProgramAt(k, e, touched, targets, failed, i);
    }
  }

  /** Everything a pass establishes except the state of the queue. */
  ghost predicate Passed(s: State, s': State, p: Pass, nodeIP: string, local: Identifier -> bool) {
    forall i :: PassedAt(s, s', p, nodeIP, local, i)
  }

  ghost predicate PassedAt(s: State, s': State, p: Pass, nodeIP: string, local: Identifier -> bool, i: Identifier) {
    && Listing(s, s', p, nodeIP, local) && Booked(s, s', p) && ProgrammedAt(s, s', p, i)
    && p.failed <= p.cleaned && (p.failed != {} ==> p.err)
  }

  /** A selected identifier without a reported failure of its own was refreshed towards its rules, whatever else failed. */
  ghost predicate Isolated(s': State, p: Pass, failedTargets: set<Identifier>) {
    forall i :: IsolatedAt(s', p, failedTargets, i)
  }

  ghost predicate IsolatedAt(s': State, p: Pass, failedTargets: set<Identifier>, i: Identifier) {
    i in p.targets && i in s'.contexts && i !in failedTargets ==> Fresh(s', p.touched, i, None)
  }

  lemma PassedSays(s: State, s': State, p: Pass, nodeIP: string, local: Identifier -> bool)
    requires Passed(s, s', p, nodeIP, local)
    ensures Listing(s, s', p, nodeIP, local) && Booked(s, s', p) && Programmed(s, s', p)
    ensures p.failed <= p.cleaned && (p.failed != {} ==> p.err)
  {
    assert PassedAt(s, s', p, nodeIP, local, ANY_ID);
    forall i
      ensures ProgrammedAt(s, s', p, i)
    {
      assert PassedAt(s, s', p, nodeIP, local, i);
    }
  }

  lemma SaysPassed(s: State, s': State, p: Pass, nodeIP: string, local: Identifier -> bool)
    requires Listing(s, s', p, nodeIP, local) && Booked(s, s', p) && Programmed(s, s', p)
    requires p.failed <= p.cleaned && (p.failed != {} ==> p.err)
    ensures Passed(s, s', p, nodeIP, local)
  {
    forall i
      ensures PassedAt(s, s', p, nodeIP, local, i)
    {
      assert ProgrammedAt(s, s', p, i);
    }
  }

  // ----- the flow for an existing slice

  lemma ReconcileFlow(s: State, d: State, c: State, k: State, e: State, p: Pass, early: set<CpeName>, seen: set<CpeName>,
                      failedTargets: set<Identifier>, nodeIP: string, local: Identifier -> bool)
    requires GoodStore(d, nodeIP, local) && !p.deleted && p.name in s.store
    requires DeriveStep(s, d, early, p.name, p.slices, p.targets, p.cleaned, nodeIP) && early <= seen
    requires p.snap == d.store && p.snapUsed == d.used && GoodLists(d.cpesOf, d.used) && d.used <= e.used
    requires CleanupStep(d, c, seen, p.cleaned, p.failed, None) && seen <= p.touched
    requires CommitStep(c, k, p.name, p.slices, p.targets + p.failed)
    requires ProgramStep(k, e, p.touched, p.targets, failedTargets)
    requires p.err <==> p.failed != {} || failedTargets != {}
    ensures Passed(s, e, p, nodeIP, local)
    ensures Isolated(e, p, failedTargets)
    ensures Moved(s.store, s.used, e.store, e.used, p.touched)
  {
    StoreSays(d, nodeIP, local);
    DeriveSays(s, d, early, p.name, p.slices, p.targets, p.cleaned, nodeIP);
    CleanupSays(d, c, seen, p.cleaned, p.failed, None);
    CommitSays(c, k, p.name, p.slices, p.targets + p.failed);
    ProgramSays(k, e, p.touched, p.targets, failedTargets);
    assert forall i :: IsolatedAt(e, p, failedTargets, i);
    MovedTransitive(d.store, d.used, c.store, c.used, e.store, e.used, seen, p.touched);
    MovedTransitive(s.store, s.used, d.store, d.used, e.store, e.used, early, p.touched);
    MovedWider(s.store, s.used, d.store, d.used, early, p.touched);
    ReconcileBooks(s, d, c, k, e, p);
    ReconcileWrites(s, d, c, k, e, p, seen, failedTargets);
    SaysPassed(s, e, p, nodeIP, local);
  }

  lemma ReconcileBooks(s: State, d: State, c: State, k: State, e: State, p: Pass)
    requires d == s.(store := d.store, queue := d.queue, used := d.used, cpesOf := d.cpesOf) && !p.deleted
    requires forall i :: Names(d.cpesOf, i) == Derived(s, p.name, p.snap, p.slices, p.targets, i)
    requires GoodLists(d.cpesOf, d.used) && d.used <= e.used
    requires c.cpesOf == d.cpesOf && c.podsOf == d.podsOf && c.identifiersOf == d.identifiersOf
    requires CommitStep(c, k, p.name, p.slices, p.targets + p.failed)
    requires e.cpesOf == k.cpesOf && e.podsOf == k.podsOf && e.identifiersOf == k.identifiersOf
    ensures Booked(s, e, p)
  {
    GoodListsGrow(d.cpesOf, d.used, e.used);
    CommitSays(c, k, p.name, p.slices, p.targets + p.failed);
    ParentCommitted(c.identifiersOf, k.identifiersOf, p);
    forall i
      ensures Names(e.cpesOf, i) == NamesAfter(s, p, i)
    {
      assert Names(d.cpesOf, i) == Derived(s, p.name, p.snap, p.slices, p.targets, i);
    }
  }

  lemma ReconcileWrites(s: State, d: State, c: State, k: State, e: State, p: Pass, seen: set<CpeName>,
                        failedTargets: set<Identifier>)
    requires d == s.(store := d.store, queue := d.queue, used := d.used, cpesOf := d.cpesOf) && !p.deleted
    requires CleanupStep(d, c, seen, p.cleaned, p.failed, None) && seen <= p.touched
    requires k == c.(podsOf := k.podsOf, identifiersOf := k.identifiersOf)
    requires ProgramStep(k, e, p.touched, p.targets, failedTargets)
    requires p.cleaned !! p.targets && (failedTargets != {} ==> p.err)
    ensures Programmed(s, e, p)
  {
    CleanupSays(d, c, seen, p.cleaned, p.failed, None);
    ProgramSays(k, e, p.touched, p.targets, failedTargets);
    forall i | i in p.cleaned && i in e.contexts && i !in p.failed
      ensures Rewritten(e, p, i, false)
    {
      assert SameKernel(k, e, i) && Fresh(c, seen, i, None);
      FreshStays(c, e, seen, p.touched, i, None);
    }
    forall i | i !in p.targets && i !in p.cleaned
      ensures SameKernel(s, e, i) && (i in e.contexts <==> i in s.contexts)
    {
      assert SameKernel(d, c, i) && SameKernel(k, e, i);
    }
  }

  // ----- the flow for a deleted slice

  lemma CleanUpFlow(s: State, d: State, r: State, u: State, c: State, k: State, e: State, p: Pass, early: set<CpeName>,
                    seen: set<CpeName>, notUpdated: set<Identifier>, nodeIP: string, local: Identifier -> bool)
    requires GoodStore(d, nodeIP, local) && p.deleted && p.name !in s.store && p.name in s.used
    requires DeriveStep(s, d, early, p.name, p.slices, p.targets, p.cleaned, nodeIP) && early <= seen
    requires DropStep(d, r, p.name)
    requires p.snap == d.store && p.snapUsed == d.used && GoodLists(r.cpesOf, r.used) && r.used <= e.used
    requires CleanupStep(r, u, seen, p.targets, notUpdated, None) && seen <= p.touched
    requires CleanupStep(u, c, p.touched, p.cleaned, p.failed, Some(ParentOf(p.name)))
    requires CommitStep(c, k, p.name, p.slices, p.targets + p.failed)
    requires p.err <==> notUpdated != {} || p.failed != {}
    requires e == k.(podsOf := e.podsOf) && (p.name in p.slices ==> e.podsOf == k.podsOf)
    requires p.name !in p.slices ==>
               if p.err then exists pods :: IdsOf(pods) == p.failed && e.podsOf == k.podsOf[p.name := pods]
               else e.podsOf == k.podsOf - {p.name}
    ensures Passed(s, e, p, nodeIP, local) && Isolated(e, p, notUpdated)
    ensures Moved(s.store, s.used, e.store, e.used, p.touched)
  {
    StoreSays(d, nodeIP, local);
    DeriveSays(s, d, early, p.name, p.slices, p.targets, p.cleaned, nodeIP);
    DropSays(d, r, p.name);
    CleanupSays(r, u, seen, p.targets, notUpdated, None);
    CleanupSays(u, c, p.touched, p.cleaned, p.failed, Some(ParentOf(p.name)));
    CommitSays(c, k, p.name, p.slices, p.targets + p.failed);
    MovedTransitive(r.store, r.used, u.store, u.used, c.store, c.used, seen, p.touched);
    MovedTransitive(s.store, s.used, d.store, d.used, c.store, c.used, early, p.touched);
    MovedWider(s.store, s.used, d.store, d.used, early, p.touched);
    MovedSays(s.store, s.used, d.store, d.used, early);
    MovedSays(d.store, d.used, c.store, c.used, p.touched);
    CleanUpBooks(s, d, r, c, k, e, p);
    CleanUpWrites(s, d, r, u, c, e, p, seen, notUpdated);
    SaysPassed(s, e, p, nodeIP, local);
  }

  lemma DeletedPodsBooked(podsOf: map<CpeName, seq<Pod>>, committed: map<CpeName, seq<Pod>>,
                          final: map<CpeName, seq<Pod>>, p: Pass)
    requires forall n | n in p.slices ::
               PodIds(committed, n) == p.targets + p.failed && (n in committed ==> p.targets + p.failed != {})
    requires forall n | n !in p.slices ::
               (n in committed <==> n in podsOf) && (n in podsOf ==> committed[n] == podsOf[n])
    requires p.name in p.slices ==> final == committed
    requires p.failed != {} ==> p.err
    requires p.name !in p.slices ==>
               if p.err then exists pods :: IdsOf(pods) == p.failed && final == committed[p.name := pods]
               else final == committed - {p.name}
    requires p.deleted
    ensures PodsBooked(podsOf, final, p)
  {
  }

  lemma CleanUpBooks(s: State, d: State, r: State, c: State, k: State, e: State, p: Pass)
    requires d == s.(store := d.store, queue := d.queue, used := d.used, cpesOf := d.cpesOf) && p.deleted
    requires forall i :: Names(d.cpesOf, i) == Derived(s, p.name, p.snap, p.slices, p.targets, i)
    requires DropStep(d, r, p.name) && GoodLists(r.cpesOf, r.used) && r.used <= e.used
    requires c.cpesOf == r.cpesOf && c.podsOf == r.podsOf && c.identifiersOf == r.identifiersOf
    requires CommitStep(c, k, p.name, p.slices, p.targets + p.failed)
    requires e.cpesOf == k.cpesOf && e.identifiersOf == k.identifiersOf
    requires p.name in p.slices ==> e.podsOf == k.podsOf
    requires p.failed != {} ==> p.err
    requires p.name !in p.slices ==>
               if p.err then exists pods :: IdsOf(pods) == p.failed && e.podsOf == k.podsOf[p.name := pods]
               else e.podsOf == k.podsOf - {p.name}
    ensures Booked(s, e, p)
  {
    GoodListsGrow(r.cpesOf, r.used, e.used);
    DropSays(d, r, p.name);
    CommitSays(c, k, p.name, p.slices, p.targets + p.failed);
    DeletedPodsBooked(c.podsOf, k.podsOf, e.podsOf, p);
    DeletedNamesBooked(s, d, r, p);
    ParentCommitted(c.identifiersOf, k.identifiersOf, p);
  }

  lemma DeletedNamesBooked(s: State, d: State, r: State, p: Pass)
    requires d == s.(store := d.store, queue := d.queue, used := d.used, cpesOf := d.cpesOf) && p.deleted
    requires forall i :: Names(d.cpesOf, i) == Derived(s, p.name, p.snap, p.slices, p.targets, i)
    requires DropStep(d, r, p.name)
    ensures NamesBooked(s, r.cpesOf, p)
  {
    DropSays(d, r, p.name);
    forall i
      ensures Names(r.cpesOf, i) == NamesAfter(s, p, i)
    {
      assert Names(d.cpesOf, i) == Derived(s, p.name, p.snap, p.slices, p.targets, i);
      assert Names(r.cpesOf, i) == Names(d.cpesOf, i) - if i in PodIds(d.podsOf, p.name) then {p.name} else {};
    }
  }

  lemma ParentCommitted(identifiersOf: map<string, set<Identifier>>, identifiersOf': map<string, set<Identifier>>, p: Pass)
    requires identifiersOf' == if p.targets + p.failed == {} then identifiersOf - {ParentOf(p.name)}
                               else identifiersOf[ParentOf(p.name) := p.targets + p.failed]
    ensures ParentsBooked(identifiersOf, identifiersOf', p)
  {
  }

  lemma CleanUpWrites(s: State, d: State, r: State, u: State, c: State, e: State, p: Pass, seen: set<CpeName>,
                      notUpdated: set<Identifier>)
    requires r.contexts == s.contexts && r.kernel == s.kernel && p.deleted
    requires CleanupStep(r, u, seen, p.targets, notUpdated, None) && seen <= p.touched
    requires CleanupStep(u, c, p.touched, p.cleaned, p.failed, Some(ParentOf(p.name)))
    requires e.cpesOf == c.cpesOf && e.kernel == c.kernel && e.contexts == c.contexts && e.store == c.store && e.used == c.used
    requires p.cleaned !! p.targets && (notUpdated != {} ==> p.err)
    ensures Programmed(s, e, p) && Isolated(e, p, notUpdated)
  {
    CleanupSays(r, u, seen, p.targets, notUpdated, None);
    CleanupSays(u, c, p.touched, p.cleaned, p.failed, Some(ParentOf(p.name)));
    forall i | i in p.targets && i in e.contexts && i !in notUpdated
      ensures Rewritten(e, p, i, false)
    {
      assert SameKernel(u, c, i) && Fresh(u, seen, i, None);
      FreshStays(u, e, seen, p.touched, i, None);
    }
    assert forall i :: IsolatedAt(e, p, notUpdated, i);
    forall i | i in p.cleaned && i in e.contexts && i !in p.failed
      ensures Rewritten(e, p, i, true)
    {
      assert Fresh(c, p.touched, i, Some(ParentOf(p.name)));
    }
    forall i | i !in p.targets && i !in p.cleaned
      ensures SameKernel(s, e, i)
    {
      assert SameKernel(r, u, i) && SameKernel(u, c, i);
    }
  }
}
