/** One reconcile pass as a relation between states, and why it keeps the invariant. */
module ClusterPass {
  import opened Basics
  import opened PolicyTypes
  import opened ClusterState
  import opened ClusterInvariant

  /** What a pass saw and did. */
  datatype Pass = Pass(
    name: CpeName,               // the slice it was run for
    deleted: bool,               // the slice did not exist: the delete flow
    err: bool,                   // some step failed
    snap: map<CpeName, Cpe>,     // the slices as listed
    snapUsed: set<CpeName>,
    slices: set<CpeName>,        // the parent's slices in the listing, or else the name itself
    targets: set<Identifier>,    // identifiers the parent selects on this node
    cleaned: set<Identifier>,    // identifiers tracked so far and not selected any more
    failed: set<Identifier>,     // those of them with a failed cleanup
    touched: set<CpeName>)       // slices that changed while the pass ran

  function Tracking(podsOf: map<CpeName, seq<Pod>>, names: set<CpeName>): set<Identifier> {
    set n, p | n in names && n in podsOf && p in podsOf[n] :: IdOf(p)
  }

  predicate Stale(s: State, p: Pass, i: Identifier) {
    i in ParentIds(s.identifiersOf, ParentOf(p.name)) && i !in p.targets
  }

  /** What derive, and in the delete flow the removal of the deleted slice, leave in the identifier map. */
  function NamesAfter(s: State, p: Pass, i: Identifier): set<CpeName> {
    Names(s.cpesOf, i)
    + (if Selects(p.snap, ParentOf(p.name), i) then p.slices else {})
    - (if Stale(s, p, i) then p.slices else {})
    - (if p.deleted && i in PodIds(s.podsOf, p.name) then {p.name} else {})
  }

  /** The environment moved on, before and after the listing, and every change has its event. */
  ghost predicate Listing(s: State, s': State, p: Pass, nodeIP: string, local: Identifier -> bool) {
    var parent := ParentOf(p.name);
    && Moved(s.store, s.used, p.snap, p.snapUsed, p.touched)
    && Moved(p.snap, p.snapUsed, s'.store, s'.used, p.touched)
    && (forall n | n in p.snap :: KeepsLocal(p.snap[n], nodeIP, local))
    && (if p.deleted then p.name !in p.snap && p.name !in s'.store else p.name in s.store)
    && p.slices == (if SlicesOf(p.snap, parent) != {} then SlicesOf(p.snap, parent) else {p.name})
    && p.targets == LocalIds(p.snap, parent, nodeIP)
    && p.cleaned == Tracking(s.podsOf, p.slices + {p.name}) - p.targets
  }

  ghost predicate Queued(s: State, s': State, p: Pass, nodeIP: string, local: Identifier -> bool) {
    && p.name in s.used && s.queue - {p.name} + p.touched <= s'.queue && (p.err ==> p.name in s'.queue)
    && GoodStore(s', nodeIP, local) && p.failed <= p.cleaned && (p.failed != {} ==> p.err)
  }

  ghost predicate NamesBooked(s: State, cpesOf: map<Identifier, seq<CpeName>>, p: Pass) {
    forall i :: Names(cpesOf, i) == NamesAfter(s, p, i)
  }

  ghost predicate PodsBooked(podsOf: map<CpeName, seq<Pod>>, podsOf': map<CpeName, seq<Pod>>, p: Pass) {
    && (forall n | n in p.slices ::
          PodIds(podsOf', n) == p.targets + p.failed && (n in podsOf' ==> p.targets + p.failed != {}))
    && (forall n | n !in p.slices && !(p.deleted && n == p.name) ::
          (n in podsOf' <==> n in podsOf) && (n in podsOf ==> podsOf'[n] == podsOf[n]))
    && (p.deleted && p.name !in p.slices ==>
          PodIds(podsOf', p.name) == p.failed && (p.name in podsOf' ==> p.err))
  }

  ghost predicate ParentsBooked(identifiersOf: map<string, set<Identifier>>, identifiersOf': map<string, set<Identifier>>,
                                p: Pass) {
    && (forall q | q != ParentOf(p.name) ::
          (q in identifiersOf' <==> q in identifiersOf) && (q in identifiersOf ==> identifiersOf'[q] == identifiersOf[q]))
    && ParentIds(identifiersOf', ParentOf(p.name)) == p.targets + p.failed
    && (ParentOf(p.name) in identifiersOf' ==> p.targets + p.failed != {})
  }

  /** The three bookkeeping maps after the pass. */
  ghost predicate Booked(s: State, s': State, p: Pass) {
    && GoodLists(s'.cpesOf, s'.used) && NamesBooked(s, s'.cpesOf, p)
    && PodsBooked(s.podsOf, s'.podsOf, p) && ParentsBooked(s.identifiersOf, s'.identifiersOf, p)
  }

  /** The identifier was written from the slices its entry names, unless one of them changed meanwhile. */
  ghost predicate Fresh(s: State, touched: set<CpeName>, i: Identifier, skip: Option<string>) {
    || Names(s.cpesOf, i) * touched != {}
    || (i in s.kernel && HoldsRulesOf(s.kernel[i], Remaining(Names(s.cpesOf, i), skip) * s.store.Keys, s.store))
  }

  function Remaining(names: set<CpeName>, skip: Option<string>): set<CpeName> {
    if skip.Some? then WithoutParent(names, skip.value) else names
  }

  ghost predicate Rewritten(s': State, p: Pass, i: Identifier, skipParent: bool) {
    Fresh(s', p.touched, i, if skipParent then Some(ParentOf(p.name)) else None)
  }

  /** Later API changes leave a fresh identifier fresh. */
  lemma FreshStays(s: State, s': State, touched: set<CpeName>, touched': set<CpeName>, i: Identifier, skip: Option<string>)
    requires Fresh(s, touched, i, skip) && touched <= touched'
    requires Moved(s.store, s.used, s'.store, s'.used, touched')
    requires s'.cpesOf == s.cpesOf && (i in s.kernel ==> i in s'.kernel && s'.kernel[i] == s.kernel[i])
    ensures Fresh(s', touched', i, skip)
  {
    MovedSays(s.store, s.used, s'.store, s'.used, touched');
    var names := Names(s.cpesOf, i);
    if names * touched' == {} {
      assert forall n | n in names :: n !in touched' by {
        assert forall n | n in names && n in touched' :: n in names * touched';
      }
      assert names * touched == {};
      var remaining := Remaining(names, skip);
      assert remaining * s.store.Keys == remaining * s'.store.Keys;
      HoldsUntouched(s.kernel[i], remaining * s.store.Keys, s.store, s'.store);
    }
  }

  function WithoutParent(names: set<CpeName>, parent: string): set<CpeName> {
    set n | n in names && ParentOf(n) != parent
  }

  /** The pass wrote the identifiers it selected or cleaned, and no other. */
  ghost predicate ProgrammedAt(s: State, s': State, p: Pass, i: Identifier) {
    && (i in p.targets && i in s'.contexts ==> p.err || Rewritten(s', p, i, false))
    && (i in p.cleaned && i in s'.contexts ==> i in p.failed || Rewritten(s', p, i, p.deleted))
    && (i !in p.targets && i !in p.cleaned ==>
          && (i in s'.contexts <==> i in s.contexts)
          && (i in s'.kernel <==> i in s.kernel) && (i in s.kernel ==> s'.kernel[i] == s.kernel[i]))
  }

  ghost predicate Programmed(s: State, s': State, p: Pass) {
    forall i :: ProgrammedAt(s, s', p, i)
  }

  ghost predicate PassStep(s: State, s': State, p: Pass, nodeIP: string, local: Identifier -> bool) {
    forall i :: PassAt(s, s', p, nodeIP, local, i)
  }

  ghost predicate PassAt(s: State, s': State, p: Pass, nodeIP: string, local: Identifier -> bool, i: Identifier) {
    Listing(s, s', p, nodeIP, local) && Queued(s, s', p, nodeIP, local) && Booked(s, s', p) && ProgrammedAt(s, s', p, i)
  }

  lemma PassSays(s: State, s': State, p: Pass, nodeIP: string, local: Identifier -> bool)
    requires PassStep(s, s', p, nodeIP, local)
    ensures Listing(s, s', p, nodeIP, local) && Queued(s, s', p, nodeIP, local) && Booked(s, s', p) && Programmed(s, s', p)
  {
    assert PassAt(s, s', p, nodeIP, local, Identifier(""));
    forall i
      ensures ProgrammedAt(s, s', p, i)
    {
      assert PassAt(s, s', p, nodeIP, local, i);
    }
  }

  lemma SaysPass(s: State, s': State, p: Pass, nodeIP: string, local: Identifier -> bool)
    requires Listing(s, s', p, nodeIP, local) && Queued(s, s', p, nodeIP, local) && Booked(s, s', p) && Programmed(s, s', p)
    ensures PassStep(s, s', p, nodeIP, local)
  {
    forall i
      ensures PassAt(s, s', p, nodeIP, local, i)
    {
      assert ProgrammedAt(s, s', p, i);
    }
  }

  // ----- what the identifier map looks like afterwards

  lemma SelectedLocallyIsTarget(snap: map<CpeName, Cpe>, parent: string, nodeIP: string, local: Identifier -> bool, i: Identifier)
    requires (forall n | n in snap :: KeepsLocal(snap[n], nodeIP, local)) && local(i)
    ensures Selects(snap, parent, i) <==> i in LocalIds(snap, parent, nodeIP)
  {
    if Selects(snap, parent, i) {
      var n :| n in snap && ParentOf(n) == parent && Lists(snap[n], i);
      var e :| e in snap[n].pods && IdOf(e.pod) == i;
      assert e.pod in LocalPods(snap[n], nodeIP);
    }
    if i in LocalIds(snap, parent, nodeIP) {
      var n, p :| n in snap && ParentOf(n) == parent && p in LocalPods(snap[n], nodeIP) && IdOf(p) == i;
      assert Lists(snap[n], i);
    }
  }

  /** No entry of an identifier that is not selected names a slice of the parent. */
  lemma UnselectedIsScrubbed(s: State, s': State, p: Pass, nodeIP: string, local: Identifier -> bool, i: Identifier)
    requires Listing(s, s', p, nodeIP, local) && local(i) && Tracked(s, i) && Names(s.cpesOf, i) <= s.used
    requires i !in p.targets
    ensures NamesAfter(s, p, i) * p.slices == {}
    ensures NamesAfter(s, p, i) <= Names(s.cpesOf, i)
  {
    MovedSays(s.store, s.used, p.snap, p.snapUsed, p.touched);
    MovedSays(p.snap, p.snapUsed, s'.store, s'.used, p.touched);
    SelectedLocallyIsTarget(p.snap, ParentOf(p.name), nodeIP, local, i);
    forall n | n in p.slices
      ensures n !in NamesAfter(s, p, i)
    {
      assert n in Names(s.cpesOf, i) && n in p.snap ==> n in s.store;
    }
  }

  lemma SelectedIsNamed(s: State, s': State, p: Pass, nodeIP: string, local: Identifier -> bool, i: Identifier)
    requires Listing(s, s', p, nodeIP, local) && local(i) && i in p.targets
    ensures p.slices <= NamesAfter(s, p, i) && p.slices == SlicesOf(p.snap, ParentOf(p.name))
  {
    SelectedLocallyIsTarget(p.snap, ParentOf(p.name), nodeIP, local, i);
    var n :| n in p.snap && ParentOf(n) == ParentOf(p.name) && Lists(p.snap[n], i);
    assert n in SlicesOf(p.snap, ParentOf(p.name));
  }

  /** Existing slices of the parent that an entry names are in the listing. */
  lemma NamedSliceWasListed(s: State, s': State, p: Pass, nodeIP: string, local: Identifier -> bool, i: Identifier, n: CpeName)
    requires Listing(s, s', p, nodeIP, local) && Names(s.cpesOf, i) <= s.used
    requires n in NamesAfter(s, p, i) && n in s'.store && ParentOf(n) == ParentOf(p.name)
    ensures n in p.slices
  {
    MovedSays(s.store, s.used, p.snap, p.snapUsed, p.touched);
    MovedSays(p.snap, p.snapUsed, s'.store, s'.used, p.touched);
    assert n in p.slices || n in p.snapUsed;
  }

  lemma TrackedAfter(s: State, s': State, p: Pass, nodeIP: string, local: Identifier -> bool, i: Identifier)
    requires Listing(s, s', p, nodeIP, local) && Booked(s, s', p) && local(i)
    requires Tracked(s, i) && Names(s.cpesOf, i) <= s.used
    ensures Tracked(s', i)
  {
    MovedSays(s.store, s.used, p.snap, p.snapUsed, p.touched);
    MovedSays(p.snap, p.snapUsed, s'.store, s'.used, p.touched);
    assert Names(s'.cpesOf, i) == NamesAfter(s, p, i);
    if i !in p.targets {
      UnselectedIsScrubbed(s, s', p, nodeIP, local, i);
    }
    forall n | n in Names(s'.cpesOf, i)
      ensures i in PodIds(s'.podsOf, n)
      ensures n in s'.store ==> i in ParentIds(s'.identifiersOf, ParentOf(n))
    {
      NameIsRecorded(s, s', p, nodeIP, local, i, n);
      if n in s'.store && ParentOf(n) == ParentOf(p.name) {
        NamedSliceWasListed(s, s', p, nodeIP, local, i, n);
      } else if n in s'.store {
        assert n in Names(s.cpesOf, i) && n in s.store;
      }
    }
  }

  lemma NameIsRecorded(s: State, s': State, p: Pass, nodeIP: string, local: Identifier -> bool, i: Identifier, n: CpeName)
    requires Listing(s, s', p, nodeIP, local) && Booked(s, s', p) && local(i) && Tracked(s, i)
    requires n in NamesAfter(s, p, i) && (i !in p.targets ==> n !in p.slices && n in Names(s.cpesOf, i))
    ensures i in PodIds(s'.podsOf, n)
  {
    if n !in p.slices {
      assert n in Names(s.cpesOf, i) && i in PodIds(s.podsOf, n);
      assert !(p.deleted && n == p.name);
    }
  }

  // ----- agreement of entries and slices

  lemma AgreesAfter(s: State, s': State, p: Pass, nodeIP: string, local: Identifier -> bool, parent: string, i: Identifier)
    requires Inv(s, nodeIP, local) && PassStep(s, s', p, nodeIP, local) && local(i)
    ensures Agrees(s', parent, i) || HasEvent(s', parent)
  {
    InvSays(s, nodeIP, local);
    PassSays(s, s', p, nodeIP, local);
    assert Tracked(s, i) && (Agrees(s, parent, i) || HasEvent(s, parent));
    NamesAreUsed(s, i);
    if parent != ParentOf(p.name) {
      OtherParentAgrees(s, s', p, nodeIP, local, parent, i);
    } else if forall n | n in p.touched :: ParentOf(n) != parent {
      OwnParentAgrees(s, s', p, nodeIP, local, i);
    } else {
      var n :| n in p.touched && ParentOf(n) == parent;
      assert n in s'.queue;
    }
  }

  lemma OtherNamesStay(s: State, p: Pass, i: Identifier, names: set<CpeName>)
    requires p.slices + {p.name} !! names
    ensures NamesAfter(s, p, i) * names == Names(s.cpesOf, i) * names
  {
    forall n | n in names
      ensures n in NamesAfter(s, p, i) <==> n in Names(s.cpesOf, i)
    {
      assert n !in p.slices + {p.name};
    }
  }

  lemma OtherParentAgrees(s: State, s': State, p: Pass, nodeIP: string, local: Identifier -> bool, parent: string, i: Identifier)
    requires Listing(s, s', p, nodeIP, local) && Queued(s, s', p, nodeIP, local) && Booked(s, s', p)
    requires (Agrees(s, parent, i) || HasEvent(s, parent)) && parent != ParentOf(p.name)
    ensures Agrees(s', parent, i) || HasEvent(s', parent)
  {
    MovedTransitive(s.store, s.used, p.snap, p.snapUsed, s'.store, s'.used, p.touched, p.touched);
    OtherEventsStay(s, s', p, parent);
    assert Names(s'.cpesOf, i) == NamesAfter(s, p, i);
    OtherNamesStay(s, p, i, SlicesOf(s'.store, parent));
    AgreementSurvives(s, s', p.touched, parent, i);
  }

  lemma OwnParentAgrees(s: State, s': State, p: Pass, nodeIP: string, local: Identifier -> bool, i: Identifier)
    requires Listing(s, s', p, nodeIP, local) && Names(s'.cpesOf, i) == NamesAfter(s, p, i) && local(i)
    requires Tracked(s, i) && Names(s.cpesOf, i) <= s.used
    requires forall n | n in p.touched :: ParentOf(n) != ParentOf(p.name)
    ensures Agrees(s', ParentOf(p.name), i)
  {
    SlicesUntouched(p.snap, p.snapUsed, s'.store, s'.used, p.touched, ParentOf(p.name));
    SelectedLocallyIsTarget(p.snap, ParentOf(p.name), nodeIP, local, i);
    if i in p.targets {
      SelectedIsNamed(s, s', p, nodeIP, local, i);
    } else {
      UnselectedIsScrubbed(s, s', p, nodeIP, local, i);
    }
  }

  lemma OtherEventsStay(s: State, s': State, p: Pass, parent: string)
    requires s.queue - {p.name} <= s'.queue && parent != ParentOf(p.name)
    ensures HasEvent(s, parent) ==> HasEvent(s', parent)
  {
    if q :| q in s.queue && ParentOf(q) == parent {
      assert q in s'.queue;
    }
  }

  // ----- kernel maps

  /** A slice recorded for the identifier is still there, or its event is queued. */
  lemma RecordedIsReached(s': State, p: Pass, i: Identifier, q: CpeName)
    requires p.touched <= s'.queue && q in s'.queue
    requires exists m :: ParentOf(m) == ParentOf(q) && i in PodIds(s'.podsOf, m) && (m in s'.store || m in p.touched || m == q)
    ensures exists r | r in s'.queue :: Reaches(s', r, i)
  {
    var m :| ParentOf(m) == ParentOf(q) && i in PodIds(s'.podsOf, m) && (m in s'.store || m in p.touched || m == q);
    if m in p.touched {
      assert Reaches(s', m, i);
    } else {
      assert Reaches(s', q, i);
    }
  }

  lemma TouchedIsReached(s': State, p: Pass, i: Identifier)
    requires Tracked(s', i) && p.touched <= s'.queue && Names(s'.cpesOf, i) * p.touched != {}
    ensures exists r | r in s'.queue :: Reaches(s', r, i)
  {
    var n :| n in Names(s'.cpesOf, i) * p.touched;
    assert Reaches(s', n, i);
  }

  /** A failed write leaves the slice queued and the identifier recorded under its parent's slices. */
  lemma FailureIsReached(s: State, s': State, p: Pass, nodeIP: string, local: Identifier -> bool, i: Identifier)
    requires Listing(s, s', p, nodeIP, local) && Queued(s, s', p, nodeIP, local) && Booked(s, s', p)
    requires p.err && i in p.targets + p.failed
    ensures exists r | r in s'.queue :: Reaches(s', r, i)
  {
    MovedSays(s.store, s.used, p.snap, p.snapUsed, p.touched);
    MovedSays(p.snap, p.snapUsed, s'.store, s'.used, p.touched);
    var m :| m in p.slices;
    assert i in PodIds(s'.podsOf, m);
    assert m == p.name || m in s'.store || m in p.touched;
    RecordedIsReached(s', p, i, p.name);
  }

  lemma CleanedIsCurrent(s: State, s': State, p: Pass, nodeIP: string, local: Identifier -> bool, i: Identifier)
    requires Listing(s, s', p, nodeIP, local) && local(i) && i !in p.targets
    requires Tracked(s, i) && Names(s.cpesOf, i) <= s.used && Names(s'.cpesOf, i) == NamesAfter(s, p, i)
    requires Rewritten(s', p, i, p.deleted) && Names(s'.cpesOf, i) * p.touched == {}
    ensures Current(s', i)
  {
    UnselectedIsScrubbed(s, s', p, nodeIP, local, i);
    var names := Names(s'.cpesOf, i);
    forall n | n in names && n in s'.store
      ensures ParentOf(n) != ParentOf(p.name)
    {
      if ParentOf(n) == ParentOf(p.name) {
        NamedSliceWasListed(s, s', p, nodeIP, local, i, n);
      }
    }
    assert WithoutParent(names, ParentOf(p.name)) * s'.store.Keys == names * s'.store.Keys;
  }

  /** An identifier the pass had no reason to look at keeps its entry, its record and its kernel maps. */
  lemma BystanderStaysReached(s: State, s': State, p: Pass, nodeIP: string, local: Identifier -> bool, i: Identifier)
    requires Inv(s, nodeIP, local) && PassStep(s, s', p, nodeIP, local) && local(i) && i in s.contexts
    requires i !in p.targets && i !in p.cleaned
    ensures CurrentOrReached(s', i)
  {
    InvSays(s, nodeIP, local);
    PassSays(s, s', p, nodeIP, local);
    assert Tracked(s, i) && CurrentOrReached(s, i) && ProgrammedAt(s, s', p, i);
    NamesAreUsed(s, i);
    TrackedAfter(s, s', p, nodeIP, local, i);
    BystanderNames(s, s', p, nodeIP, local, i);
    MovedTransitive(s.store, s.used, p.snap, p.snapUsed, s'.store, s'.used, p.touched, p.touched);
    if Current(s, i) {
      CurrentOrTouched(s, s', i, p.touched);
      if Names(s'.cpesOf, i) * p.touched != {} {
        TouchedIsReached(s', p, i);
      }
    } else {
      var q :| q in s.queue && Reaches(s, q, i);
      BystanderEvent(s, s', p, i, q);
    }
  }

  lemma BystanderNames(s: State, s': State, p: Pass, nodeIP: string, local: Identifier -> bool, i: Identifier)
    requires Listing(s, s', p, nodeIP, local) && Booked(s, s', p)
    requires local(i) && Tracked(s, i) && i !in p.targets && i !in p.cleaned
    ensures Names(s'.cpesOf, i) == Names(s.cpesOf, i)
    ensures forall n | n in p.slices + {p.name} :: i !in PodIds(s.podsOf, n)
  {
    assert Names(s'.cpesOf, i) == NamesAfter(s, p, i);
    SelectedLocallyIsTarget(p.snap, ParentOf(p.name), nodeIP, local, i);
    forall n | n in p.slices + {p.name}
      ensures i !in PodIds(s.podsOf, n)
    {
      assert i in PodIds(s.podsOf, n) ==> i in Tracking(s.podsOf, p.slices + {p.name});
    }
  }

  lemma BystanderEvent(s: State, s': State, p: Pass, i: Identifier, q: CpeName)
    requires q in s.queue && Reaches(s, q, i)
    requires forall n | n in p.slices + {p.name} :: i !in PodIds(s.podsOf, n)
    requires forall n | i in PodIds(s.podsOf, n) :: i in PodIds(s'.podsOf, n)
    requires Moved(s.store, s.used, s'.store, s'.used, p.touched) && Moved(s.store, s.used, p.snap, p.snapUsed, p.touched)
    requires SlicesOf(p.snap, ParentOf(p.name)) <= p.slices
    requires s.queue - {p.name} + p.touched <= s'.queue
    ensures exists r | r in s'.queue :: Reaches(s', r, i)
  {
    MovedSays(s.store, s.used, p.snap, p.snapUsed, p.touched);
    MovedSays(s.store, s.used, s'.store, s'.used, p.touched);
    if i in PodIds(s.podsOf, q) {
      assert Reaches(s', q, i);
    } else {
      var m :| m in s.store && ParentOf(m) == ParentOf(q) && i in PodIds(s.podsOf, m);
      if m in p.touched {
        assert Reaches(s', m, i);
      } else {
        assert m in p.snap && m in s'.store;
        assert q != p.name;
        assert Reaches(s', q, i);
      }
    }
  }

  lemma HandledIsReached(s: State, s': State, p: Pass, nodeIP: string, local: Identifier -> bool, i: Identifier)
    requires Listing(s, s', p, nodeIP, local) && Queued(s, s', p, nodeIP, local) && Booked(s, s', p) && local(i)
    requires Tracked(s, i) && Names(s.cpesOf, i) <= s.used && Tracked(s', i)
    requires i in p.targets ==> p.err || Rewritten(s', p, i, false)
    requires i !in p.targets ==> i in p.failed || Rewritten(s', p, i, p.deleted)
    ensures CurrentOrReached(s', i)
  {
    if Names(s'.cpesOf, i) * p.touched != {} {
      TouchedIsReached(s', p, i);
    } else if (i in p.targets && p.err) || i in p.failed {
      FailureIsReached(s, s', p, nodeIP, local, i);
    } else if i !in p.targets {
      assert Names(s'.cpesOf, i) == NamesAfter(s, p, i);
      CleanedIsCurrent(s, s', p, nodeIP, local, i);
    }
  }

  lemma CurrentAfter(s: State, s': State, p: Pass, nodeIP: string, local: Identifier -> bool, i: Identifier)
    requires Inv(s, nodeIP, local) && PassStep(s, s', p, nodeIP, local) && local(i) && i in s'.contexts
    ensures CurrentOrReached(s', i)
  {
    InvSays(s, nodeIP, local);
    PassSays(s, s', p, nodeIP, local);
    assert ProgrammedAt(s, s', p, i);
    if i !in p.targets && i !in p.cleaned {
      BystanderStaysReached(s, s', p, nodeIP, local, i);
    } else {
      assert Tracked(s, i);
      NamesAreUsed(s, i);
      TrackedAfter(s, s', p, nodeIP, local, i);
      HandledIsReached(s, s', p, nodeIP, local, i);
    }
  }

  // ----- an event that will rewrite an identifier does

  /** A pass for an awaited event selects the identifier or cleans it up, unless the parent's slices change meanwhile. */
  lemma AwaitedIsHandled(s: State, s': State, p: Pass, nodeIP: string, local: Identifier -> bool, i: Identifier)
    requires Listing(s, s', p, nodeIP, local) && local(i) && WillRewrite(s, p.name, i)
    requires forall n | n in p.touched :: ParentOf(n) != ParentOf(p.name)
    ensures i in p.targets || i in p.cleaned
  {
    var parent := ParentOf(p.name);
    SlicesUntouched(s.store, s.used, p.snap, p.snapUsed, p.touched, parent);
    if Selects(s.store, parent, i) {
      SelectedLocallyIsTarget(p.snap, parent, nodeIP, local, i);
    } else if i in PodIds(s.podsOf, p.name) {
      assert i in Tracking(s.podsOf, p.slices + {p.name});
    } else {
      var m :| m in s.store && ParentOf(m) == parent && i in PodIds(s.podsOf, m);
      assert m in SlicesOf(p.snap, parent) && m in p.slices + {p.name};
      assert i in Tracking(s.podsOf, p.slices + {p.name});
    }
  }

  /** Such a pass, undisturbed and without errors, leaves the identifier's maps current and its entry right for the parent. */
  lemma AwaitedBecomesCurrent(s: State, s': State, p: Pass, nodeIP: string, local: Identifier -> bool, i: Identifier)
    requires Inv(s, nodeIP, local) && PassStep(s, s', p, nodeIP, local) && local(i) && i in s'.contexts
    requires WillRewrite(s, p.name, i) && p.touched == {} && !p.err
    ensures Current(s', i) && Agrees(s', ParentOf(p.name), i)
  {
    InvSays(s, nodeIP, local);
    PassSays(s, s', p, nodeIP, local);
    assert Tracked(s, i) && ProgrammedAt(s, s', p, i);
    NamesAreUsed(s, i);
    assert Names(s'.cpesOf, i) == NamesAfter(s, p, i);
    AwaitedIsHandled(s, s', p, nodeIP, local, i);
    OwnParentAgrees(s, s', p, nodeIP, local, i);
    HandledIsCurrent(s, s', p, nodeIP, local, i);
  }

  lemma HandledIsCurrent(s: State, s': State, p: Pass, nodeIP: string, local: Identifier -> bool, i: Identifier)
    requires Listing(s, s', p, nodeIP, local) && local(i) && (i in p.targets || i in p.cleaned)
    requires Tracked(s, i) && Names(s.cpesOf, i) <= s.used && Names(s'.cpesOf, i) == NamesAfter(s, p, i)
    requires ProgrammedAt(s, s', p, i) && i in s'.contexts && p.touched == {} && !p.err && p.failed == {}
    ensures Current(s', i)
  {
    assert Names(s'.cpesOf, i) * p.touched == {};
    if i !in p.targets {
      CleanedIsCurrent(s, s', p, nodeIP, local, i);
    }
  }

  // ----- leaks

  lemma NoLeaksAfter(s: State, s': State, p: Pass, nodeIP: string, local: Identifier -> bool)
    requires Inv(s, nodeIP, local) && PassStep(s, s', p, nodeIP, local)
    ensures NoLeaks(s')
    ensures forall n | n in s'.podsOf :: n in s'.used
  {
    InvSays(s, nodeIP, local);
    PassSays(s, s', p, nodeIP, local);
    MovedTransitive(s.store, s.used, p.snap, p.snapUsed, s'.store, s'.used, p.touched, p.touched);
    forall n | n in s'.podsOf
      ensures (n in s'.store || n in s'.queue) && n in s'.used
    {
      SliceLeak(s, s', p, nodeIP, local, n);
    }
    forall q | q in s'.identifiersOf
      ensures SlicesOf(s'.store, q) != {} || HasEvent(s', q)
    {
      ParentLeak(s, s', p, nodeIP, local, q);
    }
  }

  lemma NoSlicesNoTargets(snap: map<CpeName, Cpe>, parent: string, nodeIP: string)
    requires SlicesOf(snap, parent) == {}
    ensures LocalIds(snap, parent, nodeIP) == {}
  {
    forall n | n in snap
      ensures ParentOf(n) != parent
    {
      assert n in SlicesOf(snap, ParentOf(n));
    }
  }

  lemma SliceLeak(s: State, s': State, p: Pass, nodeIP: string, local: Identifier -> bool, n: CpeName)
    requires Listing(s, s', p, nodeIP, local) && Queued(s, s', p, nodeIP, local)
    requires n in p.slices ==> p.targets + p.failed != {}
    requires n !in p.slices ==> if p.deleted && n == p.name then p.err else n in s.podsOf
    requires n in s.podsOf ==> n in s.used && (n in s.store || n in s.queue)
    requires Moved(s.store, s.used, s'.store, s'.used, p.touched)
    ensures (n in s'.store || n in s'.queue) && n in s'.used
  {
    StoreSays(s', nodeIP, local);
    MovedSays(s.store, s.used, p.snap, p.snapUsed, p.touched);
    MovedSays(p.snap, p.snapUsed, s'.store, s'.used, p.touched);
    MovedSays(s.store, s.used, s'.store, s'.used, p.touched);
    if n in p.slices && n !in p.snap {
      assert n == p.name;
      NoSlicesNoTargets(p.snap, ParentOf(p.name), nodeIP);
    }
  }

  lemma ParentLeak(s: State, s': State, p: Pass, nodeIP: string, local: Identifier -> bool, q: string)
    requires Listing(s, s', p, nodeIP, local) && Queued(s, s', p, nodeIP, local) && Booked(s, s', p)
    requires NoLeaks(s) && q in s'.identifiersOf
    requires Moved(s.store, s.used, s'.store, s'.used, p.touched)
    ensures SlicesOf(s'.store, q) != {} || HasEvent(s', q)
  {
    MovedSays(s.store, s.used, s'.store, s'.used, p.touched);
    if q == ParentOf(p.name) {
      OwnParentLeak(s, s', p, nodeIP, local);
    } else if HasEvent(s, q) {
      OtherEventsStay(s, s', p, q);
    } else {
      var n :| n in SlicesOf(s.store, q);
      if n in p.touched {
        assert n in s'.queue;
      } else {
        assert n in SlicesOf(s'.store, q);
      }
    }
  }

  lemma OwnParentLeak(s: State, s': State, p: Pass, nodeIP: string, local: Identifier -> bool)
    requires Listing(s, s', p, nodeIP, local) && Queued(s, s', p, nodeIP, local) && Booked(s, s', p)
    requires ParentOf(p.name) in s'.identifiersOf
    ensures SlicesOf(s'.store, ParentOf(p.name)) != {} || HasEvent(s', ParentOf(p.name))
  {
    MovedSays(s.store, s.used, p.snap, p.snapUsed, p.touched);
    MovedSays(p.snap, p.snapUsed, s'.store, s'.used, p.touched);
    if p.err {
      assert p.name in s'.queue;
    } else {
      var i :| i in p.targets;
      var n :| n in p.snap && ParentOf(n) == ParentOf(p.name);
      if n in p.touched {
        assert n in s'.queue;
      } else {
        assert n in SlicesOf(s'.store, ParentOf(p.name));
      }
    }
  }

  /** A reconcile pass, with any failures and any API changes in between, keeps the invariant. */
  lemma PassKeepsInv(s: State, s': State, p: Pass, nodeIP: string, local: Identifier -> bool)
    requires Inv(s, nodeIP, local) && PassStep(s, s', p, nodeIP, local)
    ensures Inv(s', nodeIP, local)
  {
    InvSays(s, nodeIP, local);
    PassSays(s, s', p, nodeIP, local);
    NoLeaksAfter(s, s', p, nodeIP, local);
    forall i | local(i)
      ensures Tracked(s', i)
    {
      assert Tracked(s, i);
      NamesAreUsed(s, i);
      TrackedAfter(s, s', p, nodeIP, local, i);
    }
    forall i, q | local(i)
      ensures Agrees(s', q, i) || HasEvent(s', q)
    {
      AgreesAfter(s, s', p, nodeIP, local, q, i);
    }
    forall i | local(i) && i in s'.contexts
      ensures CurrentOrReached(s', i)
    {
      CurrentAfter(s, s', p, nodeIP, local, i);
    }
  }
}
