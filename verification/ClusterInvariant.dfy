/** Why the reconciler's invariant survives API changes and reconcile passes, however they interleave. */
module ClusterInvariant {
  import opened PolicyTypes
  import opened ClusterState

  // ----- changes of the API objects

  /** From `store` to `store'` only `touched` slices changed, and no name was given out twice. */
  ghost predicate Moved(store: map<CpeName, Cpe>, used: set<CpeName>, store': map<CpeName, Cpe>, used': set<CpeName>,
                        touched: set<CpeName>) {
    forall n :: MovedAt(store, used, store', used', touched, n)
  }

  ghost predicate MovedAt(store: map<CpeName, Cpe>, used: set<CpeName>, store': map<CpeName, Cpe>, used': set<CpeName>,
                          touched: set<CpeName>, n: CpeName) {
    && used <= used'
    && (n !in touched ==> (n in store <==> n in store') && (n in store ==> store[n] == store'[n]))
    && (n in store' && n !in store ==> n !in used)
  }

  lemma MovedSays(store: map<CpeName, Cpe>, used: set<CpeName>, store': map<CpeName, Cpe>, used': set<CpeName>,
                  touched: set<CpeName>)
    requires Moved(store, used, store', used', touched)
    ensures used <= used'
    ensures forall n | n !in touched :: (n in store <==> n in store') && (n in store ==> store[n] == store'[n])
    ensures forall n | n in store' && n !in store :: n !in used
  {
    assert MovedAt(store, used, store', used', touched, CpeName("", ""));
    forall n
      ensures n !in touched ==> (n in store <==> n in store') && (n in store ==> store[n] == store'[n])
      ensures n in store' && n !in store ==> n !in used
    {
      assert MovedAt(store, used, store', used', touched, n);
    }
  }

  lemma MovedUsed(store: map<CpeName, Cpe>, used: set<CpeName>, store': map<CpeName, Cpe>, used': set<CpeName>,
                  touched: set<CpeName>)
    requires Moved(store, used, store', used', touched)
    ensures used <= used' && (touched == {} ==> store' == store)
  {
    MovedSays(store, used, store', used', touched);
  }

  lemma MovedWider(store: map<CpeName, Cpe>, used: set<CpeName>, store': map<CpeName, Cpe>, used': set<CpeName>,
                   touched: set<CpeName>, wider: set<CpeName>)
    requires Moved(store, used, store', used', touched) && touched <= wider
    ensures Moved(store, used, store', used', wider)
  {
    forall n
      ensures MovedAt(store, used, store', used', wider, n)
    {
      assert MovedAt(store, used, store', used', touched, n);
    }
  }

  lemma MovedTransitive(store: map<CpeName, Cpe>, used: set<CpeName>, store': map<CpeName, Cpe>, used': set<CpeName>,
                        store'': map<CpeName, Cpe>, used'': set<CpeName>, early: set<CpeName>, late: set<CpeName>)
    requires Moved(store, used, store', used', early) && Moved(store', used', store'', used'', late) && early <= late
    ensures Moved(store, used, store'', used'', late)
  {
    forall n
      ensures MovedAt(store, used, store'', used'', late, n)
    {
      assert MovedAt(store, used, store', used', early, n) && MovedAt(store', used', store'', used'', late, n);
    }
  }

  /** A slice that is gone, or never was, stays gone. */
  lemma SlicesUntouched(store: map<CpeName, Cpe>, used: set<CpeName>, store': map<CpeName, Cpe>, used': set<CpeName>,
                        touched: set<CpeName>, parent: string)
    requires Moved(store, used, store', used', touched)
    requires forall n | n in touched :: ParentOf(n) != parent
    ensures SlicesOf(store, parent) == SlicesOf(store', parent)
    ensures forall i :: Selects(store, parent, i) <==> Selects(store', parent, i)
  {
    MovedSays(store, used, store', used', touched);
    forall n | ParentOf(n) == parent
      ensures (n in store <==> n in store') && (n in store ==> store[n] == store'[n])
    {
    }
  }

  lemma CurrentOrTouched(s: State, s': State, i: Identifier, touched: set<CpeName>)
    requires Moved(s.store, s.used, s'.store, s'.used, touched) && Names(s.cpesOf, i) <= s.used
    requires Current(s, i) && i in s'.kernel && s'.kernel[i] == s.kernel[i] && Names(s'.cpesOf, i) == Names(s.cpesOf, i)
    ensures Current(s', i) || Names(s'.cpesOf, i) * touched != {}
  {
    MovedSays(s.store, s.used, s'.store, s'.used, touched);
    var names := Names(s.cpesOf, i);
    if names * touched == {} {
      assert forall n | n in names :: n !in touched by {
        assert forall n | n in names && n in touched :: n in names * touched;
      }
      assert names * s.store.Keys == names * s'.store.Keys;
      HoldsUntouched(s.kernel[i], names * s.store.Keys, s.store, s'.store);
    }
  }

  /** The pieces of the invariant that API changes, together with their events, preserve. */
  ghost predicate EnvironmentStep(s: State, s': State, touched: set<CpeName>, nodeIP: string, local: Identifier -> bool) {
    && s' == s.(store := s'.store, queue := s'.queue, used := s'.used)
    && Moved(s.store, s.used, s'.store, s'.used, touched)
    && s.queue + touched <= s'.queue && GoodStore(s', nodeIP, local)
  }

  lemma EnvironmentKeepsInv(s: State, s': State, touched: set<CpeName>, nodeIP: string, local: Identifier -> bool)
    requires Inv(s, nodeIP, local) && EnvironmentStep(s, s', touched, nodeIP, local)
    ensures Inv(s', nodeIP, local)
  {
    MovedSays(s.store, s.used, s'.store, s'.used, touched);
    InvSays(s, nodeIP, local);
    GoodListsGrow(s.cpesOf, s.used, s'.used);
    forall i | local(i)
      ensures Tracked(s', i)
    {
      assert Tracked(s, i);
      NamesAreUsed(s, i);
    }
    forall i, p | local(i)
      ensures Agrees(s', p, i) || HasEvent(s', p)
    {
      AgreementSurvives(s, s', touched, p, i);
    }
    forall i | local(i) && i in s'.contexts
      ensures CurrentOrReached(s', i)
    {
      assert Tracked(s, i) && CurrentOrReached(s, i);
      NamesAreUsed(s, i);
      UnwrittenStaysReached(s, s', touched, i);
    }
    LeaksSurvive(s, s', touched);
  }

  lemma NamesAreUsed(s: State, i: Identifier)
    requires GoodLists(s.cpesOf, s.used)
    ensures Names(s.cpesOf, i) <= s.used
  {
    assert GoodListAt(s.cpesOf, s.used, i);
  }

  lemma AgreementSurvives(s: State, s': State, touched: set<CpeName>, parent: string, i: Identifier)
    requires Moved(s.store, s.used, s'.store, s'.used, touched) && touched <= s'.queue
    requires Names(s'.cpesOf, i) * SlicesOf(s'.store, parent) == Names(s.cpesOf, i) * SlicesOf(s'.store, parent)
    requires Agrees(s, parent, i) || HasEvent(s', parent)
    ensures Agrees(s', parent, i) || HasEvent(s', parent)
  {
    if forall n | n in touched :: ParentOf(n) != parent {
      SlicesUntouched(s.store, s.used, s'.store, s'.used, touched, parent);
    }
  }

  /** What was not rewritten stays current, or stays in reach of a queued event. */
  lemma UnwrittenStaysReached(s: State, s': State, touched: set<CpeName>, i: Identifier)
    requires Moved(s.store, s.used, s'.store, s'.used, touched) && s.queue + touched <= s'.queue
    requires Names(s'.cpesOf, i) == Names(s.cpesOf, i) <= s.used && CurrentOrReached(s, i)
    requires i in s.kernel ==> i in s'.kernel && s'.kernel[i] == s.kernel[i]
    requires forall n | i in PodIds(s.podsOf, n) :: i in PodIds(s'.podsOf, n)
    requires forall n | n in Names(s.cpesOf, i) :: i in PodIds(s.podsOf, n)
    ensures CurrentOrReached(s', i)
  {
    MovedSays(s.store, s.used, s'.store, s'.used, touched);
    if Current(s, i) {
      CurrentOrTouched(s, s', i, touched);
      if n :| n in Names(s'.cpesOf, i) * touched {
        assert Reaches(s', n, i);
      }
    } else {
      var q :| q in s.queue && Reaches(s, q, i);
      if i !in PodIds(s.podsOf, q) {
        var m :| m in s.store && ParentOf(m) == ParentOf(q) && i in PodIds(s.podsOf, m);
        if m !in s'.store {
          assert Reaches(s', m, i);
        }
      }
    }
  }

  lemma LeaksSurvive(s: State, s': State, touched: set<CpeName>)
    requires NoLeaks(s) && s'.podsOf == s.podsOf && s'.identifiersOf == s.identifiersOf
    requires Moved(s.store, s.used, s'.store, s'.used, touched) && s.queue + touched <= s'.queue
    ensures NoLeaks(s')
  {
    MovedSays(s.store, s.used, s'.store, s'.used, touched);
    forall p | p in s'.identifiersOf
      ensures SlicesOf(s'.store, p) != {} || HasEvent(s', p)
    {
      if HasEvent(s, p) {
        var q :| q in s.queue && ParentOf(q) == p;
        assert q in s'.queue;
      } else {
        var n :| n in SlicesOf(s.store, p);
        assert n in SlicesOf(s'.store, p) || n in touched;
      }
    }
  }
}
