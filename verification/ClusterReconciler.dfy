/** The cluster-policy reconciler itself: phases over three maps, with failing calls and API changes in between. */
module ClusterReconciler {
  import opened Basics
  import opened PolicyTypes
  import opened ClusterMaps
  import ClusterVerdict
  import ClusterCompiler
  import opened ClusterState
  import opened ClusterInvariant
  import opened ClusterPass
  import opened ClusterPhases
  import opened ClusterFaults
  import opened ClusterRuns

  datatype GetResult = Failed | NotFound | Found(cpe: Cpe)

  class Reconciler {
    const nodeIP: string
    // The identifiers the convergence claim is about: never listed with pods of other nodes.
    const local: Identifier -> bool
    const processor: Processor

    // The API server and the work queue.
    var store: map<CpeName, Cpe>
    var queue: set<CpeName>
    var used: set<CpeName>  // every name ever given out
    // The queue when the running pass began, the slices that changed since then, and all that were queued by an event.
    ghost var base: set<CpeName>
    ghost var touched: set<CpeName>
    ghost var arrived: set<CpeName>

    // Every call that failed; the pods attached; the pods that an attach call skipped as deleted from the node.
    ghost var faults: seq<Fault>
    ghost var attached: set<Pod>
    ghost var skipped: set<Pod>

    // The reconciler's bookkeeping.
    var cpesOf: map<Identifier, seq<CpeName>>
    var podsOf: map<CpeName, seq<Pod>>
    var identifiersOf: map<string, set<Identifier>>

    // The node.
    var contexts: set<Identifier>
    var kernel: map<Identifier, KernelMaps>

    ghost function Now(): State
      reads this
    {
      State(store, queue, used, cpesOf, podsOf, identifiersOf, contexts, kernel)
    }

    ghost predicate Valid()
      reads this
    {
      Inv(Now(), nodeIP, local) && AllCompile(kernel, processor) && HaveContexts(attached, contexts)
    }

    /** What the environment keeps at all times, also while a pass runs. */
    ghost predicate Running()
      reads this
    {
      && GoodStore(Now(), nodeIP, local) && GoodLists(cpesOf, used)
      && touched <= arrived && queue == base + arrived && touched <= used
      && AllCompile(kernel, processor) && HaveContexts(attached, contexts)
    }

    constructor (nodeIP: string, local: Identifier -> bool, processor: Processor)
      ensures Valid() && queue == {} && faults == []
      ensures this.nodeIP == nodeIP && this.local == local && this.processor == processor
    {
      this.nodeIP, this.local, this.processor := nodeIP, local, processor;
      store, queue, used, base, touched, arrived, faults, attached, skipped := map[], {}, {}, {}, {}, {}, [], {}, {};
      cpesOf, podsOf, identifiersOf, contexts, kernel := map[], map[], map[], {}, map[];
      new;
      assert forall i :: Names(cpesOf, i) == {};
      assert forall p :: SlicesOf(store, p) == {};
    }

    // ----- the environment

    /** A slice is created under a new name, or its spec changes. */
    method Upsert(n: CpeName, cpe: Cpe)
      requires Running() && (n in store || n !in used)
      requires cpe.parent == ParentOf(n) && KeepsLocal(cpe, nodeIP, local)
      modifies `store, `queue, `used, `touched, `arrived
      ensures Running() && n in store && store[n] == cpe && touched == old(touched) + {n} && arrived == old(arrived) + {n}
      ensures queue == old(queue) + {n} && Moved(old(store), old(used), store, used, touched)
    {
      GoodListsGrow(cpesOf, used, used + {n});
      store := store[n := cpe];
      used, queue, touched, arrived := used + {n}, queue + {n}, touched + {n}, arrived + {n};
      StoreChanges(old(Now()), nodeIP, local, n, Some(cpe), Now());
      assert forall m :: MovedAt(old(store), old(used), store, used, touched, m);
    }

    method Delete(n: CpeName)
      requires Running() && n in store
      modifies `store, `queue, `touched, `arrived
      ensures Running() && n !in store && touched == old(touched) + {n} && arrived == old(arrived) + {n}
      ensures queue == old(queue) + {n} && Moved(old(store), old(used), store, used, touched)
    {
      StoreSays(Now(), nodeIP, local);
      store, queue, touched, arrived := store - {n}, queue + {n}, touched + {n}, arrived + {n};
      assert used == used + {n};
      StoreChanges(old(Now()), nodeIP, local, n, None, Now());
      assert forall m :: MovedAt(old(store), old(used), store, used, touched, m);
    }

    /** A duplicate or resync event. */
    method Resync(n: CpeName)
      requires Running() && n in used
      modifies `queue, `arrived
      ensures Running() && queue == old(queue) + {n} && arrived == old(arrived) + {n}
    {
      queue, arrived := queue + {n}, arrived + {n};
    }

    /** Any number of API changes and events. */
    method Environment()
      requires Running()
      modifies `store, `queue, `used, `touched, `arrived
      ensures Running() && old(touched) <= touched && old(arrived) <= arrived
      ensures Moved(old(store), old(used), store, used, touched)
    {
      var steps: int := *;
      if steps < 0 {
        return;
      }
      for k := 0 to steps
        invariant Running() && old(touched) <= touched && old(arrived) <= arrived
        invariant Moved(old(store), old(used), store, used, touched)
      {
        label step:
        var n: CpeName := *;
        var cpe: Cpe := *;
        var deleting: bool := *;
        if deleting && n in store {
          Delete(n);
        } else if (n in store || n !in used) && cpe.parent == ParentOf(n) && KeepsLocal(cpe, nodeIP, local) {
          Upsert(n, cpe);
        } else if n in used {
          Resync(n);
        }
        MovedTransitive(old(store), old(used), old@step(store), old@step(used), store, used, old@step(touched), touched);
      }
    }

    // ----- calls that may fail

    /** Reads a slice, for the rules of an identifier or (None) because its event came up. */
    method Get(n: CpeName, ghost whose: Option<Identifier>) returns (result: GetResult)
      requires Running()
      modifies `store, `queue, `used, `touched, `arrived, `faults
      ensures Running() && old(touched) <= touched && old(arrived) <= arrived
      ensures Moved(old(store), old(used), store, used, touched)
      ensures result.Found? ==> n in store && store[n] == result.cpe
      ensures result.NotFound? ==> n !in store
      ensures faults == old(faults) + if result.Failed? then [GetFault(n, whose)] else []
    {
      Environment();
      var fails: bool := *;
      if fails {
        faults := faults + [GetFault(n, whose)];
        return Failed;
      }
      return if n in store then Found(store[n]) else NotFound;
    }

    method List() returns (items: Option<map<CpeName, Cpe>>)
      requires Running()
      modifies `store, `queue, `used, `touched, `arrived, `faults
      ensures Running() && old(touched) <= touched && old(arrived) <= arrived
      ensures Moved(old(store), old(used), store, used, touched)
      ensures items.Some? ==> items.value == store
      ensures faults == old(faults) + if items.None? then [ListFault] else []
    {
      Environment();
      var fails: bool := *;
      if fails {
        faults := faults + [ListFault];
        return None;
      }
      return Some(store);
    }

    /** The identifier's maps are refreshed; an entry whose delete call fails stays, and that is not an error. */
    method UpdateMaps(i: Identifier, rules: RulePair) returns (err: bool)
      requires Running()
      modifies `store, `queue, `used, `touched, `arrived, `kernel, `faults
      ensures Running() && old(touched) <= touched && old(arrived) <= arrived
      ensures Moved(old(store), old(used), store, used, touched)
      ensures FaultsOf(old(faults), faults, if err then {i} else {})
      ensures i in kernel && kernel == old(kernel)[i := kernel[i]]
      ensures !err ==> IsWritten(kernel[i]) && RulesIn(kernel[i]) == rules
      ensures !err && i in old(kernel) ==>
                && kernel[i].ingress.before == old(kernel)[i].ingress.table
                && kernel[i].egress.before == old(kernel)[i].egress.table
    {
      Environment();
      var maps;
      err, maps := MapsFor(i, rules);
      NoFault(faults, faults);
      OwnFault(faults, WriteFault(i), i);
      if err {
        faults := faults + [WriteFault(i)];
      }
      MoreCompile(kernel, processor, i, maps);
      kernel := kernel[i := maps];
    }

    /** The identifier's maps after writing, starting from empty ones where there are none. */
    method MapsFor(i: Identifier, rules: RulePair) returns (err: bool, maps: KernelMaps)
      requires AllCompile(kernel, processor)
      ensures Compiles(maps, processor) && (!err ==> IsWritten(maps) && RulesIn(maps) == rules)
      ensures !err && i in kernel ==>
                maps.ingress.before == kernel[i].ingress.table && maps.egress.before == kernel[i].egress.table
    {
      assert CompilesAt(kernel, processor, i);
      if i in kernel {
        err, maps := WriteMaps(kernel[i], rules, processor);
      } else {
        var none := ClusterCompiler.ComputeClusterMapEntries(processor.node, ParsedRules([], processor));
        var initial := Side([], none, map[], [], map[]);
        err, maps := WriteMaps(KernelMaps(initial, initial, DEFAULT_ALLOW), rules, processor);
      }
    }

    /** Attaching may fail, may be skipped because the pod is gone, and may create the context. */
    method Attach(pod: Pod) returns (err: bool)
      requires Running()
      modifies `store, `queue, `used, `touched, `arrived, `contexts, `faults, `attached, `skipped
      ensures Running() && old(touched) <= touched && old(arrived) <= arrived
      ensures Moved(old(store), old(used), store, used, touched)
      ensures FaultsOf(old(faults), faults, if err then {IdOf(pod)} else {})
      ensures old(contexts) <= contexts <= old(contexts) + {IdOf(pod)}
      ensures old(attached) <= attached && old(skipped) <= skipped
      ensures !err ==> pod in attached || (pod in skipped && contexts == old(contexts))
    {
      Environment();
      NoFault(faults, faults);
      OwnFault(faults, AttachFault(IdOf(pod)), IdOf(pod));
      err := *;
      var gone, created: bool := *, *;
      if err {
        faults := faults + [AttachFault(IdOf(pod))];
        if created {
          contexts := contexts + {IdOf(pod)};
        }
      } else if gone {
        skipped := skipped + {pod};
      } else {
        contexts, attached := contexts + {IdOf(pod)}, attached + {pod};
      }
      MoreContexts(old(attached), attached, old(contexts), contexts, pod);
    }

    // ----- rules of one identifier

    /** Reads the slices the identifier's entry names; in the delete flow those of the same parent are skipped. */
    method DeriveRules(i: Identifier, skip: Option<string>) returns (err: bool, rules: RulePair)
      requires Running()
      modifies `store, `queue, `used, `touched, `arrived, `faults
      ensures Running() && old(touched) <= touched && old(arrived) <= arrived
      ensures Moved(old(store), old(used), store, used, touched)
      ensures FaultsOf(old(faults), faults, if err then {i} else {})
      ensures !err && Names(cpesOf, i) * touched == {} ==>
                && AreRulesOf(rules, Remaining(Names(cpesOf, i), skip) * store.Keys, store)
                && AreDemanded(rules, Remaining(Names(cpesOf, i), skip) * store.Keys, store)
    {
      rules := ([], []);
      assert GoodListAt(cpesOf, used, i);
      var names := if i in cpesOf then cpesOf[i] else [];
      ghost var order: seq<CpeName> := [];
      for k := 0 to |names|
        invariant Running() && old(touched) <= touched && old(arrived) <= arrived
        invariant Moved(old(store), old(used), store, used, touched)
        invariant ReadTo(names, k, order, rules, store, touched, skip) && faults == old(faults)
      {
        var n := names[k];
        if skip == Some(ParentOf(n)) {
          ReadSkips(names, k, order, rules, store, touched, skip);
          continue;
        }
        label before:
        var result := Get(n, Some(i));
        MovedTransitive(old(store), old(used), old@before(store), old@before(used), store, used, old@before(touched), touched);
        ReadStays(names, k, order, rules, old@before(store), store, old@before(used), used, old@before(touched), touched, skip);
        if result.Failed? {
          OwnFault(old(faults), GetFault(n, Some(i)), i);
          return true, rules;
        }
        ReadOneMore(names, k, order, rules, store, touched, skip);
        if result.Found? {
          rules := (rules.0 + IngressRules(result.cpe), rules.1 + AllEgressRules(result.cpe));
          order := order + [n];
        }
      }
      assert names[..|names|] == names;
      NoFault(old(faults), faults);
      if Names(cpesOf, i) * touched == {} {
        RulesAreDemanded(rules, Remaining(Names(cpesOf, i), skip) * store.Keys, store);
      }
      return false, rules;
    }

    // ----- cleanup

    /** Rewrites one pod's identifier from the slices that still name it, or clears its maps. */
    method CleanupPod(pod: Pod, skip: Option<string>) returns (err: bool)
      requires Running()
      modifies `store, `queue, `used, `touched, `arrived, `kernel, `faults
      ensures Running() && old(touched) <= touched && old(arrived) <= arrived
      ensures CleanupStep(old(Now()), Now(), touched, {IdOf(pod)}, if err then {IdOf(pod)} else {}, skip) && old(used) <= used
      ensures FaultsOf(old(faults), faults, if err then {IdOf(pod)} else {})
      ensures IdOf(pod) !in contexts ==> !err && kernel == old(kernel)
    {
      var i := IdOf(pod);
      NoFault(faults, faults);
      if i !in contexts {
        return false;
      }
      var rules: RulePair := ([], []);
      if i in cpesOf {
        err, rules := DeriveRules(i, skip);
        MovedUsed(old(store), old(used), store, used, touched);
        if err {
          return true;
        }
      } else {
        ClearedHoldsNothing(skip, store);
      }
      label derived:
      err := UpdateMaps(i, rules);
      NoFault(old(faults), old@derived(faults));
      MovedTransitive(old(store), old(used), old@derived(store), old@derived(used), store, used, old@derived(touched), touched);
      MovedUsed(old(store), old(used), store, used, touched);
      if !err {
        ghost var written := old@derived(Now()).(kernel := kernel);
        assert Fresh(written, old@derived(touched), i, skip);
        FreshStays(written, Now(), old@derived(touched), touched, i, skip);
      }
    }

    /** Every pod is tried; those that fail are returned. */
    method CleanupPods(pods: seq<Pod>, skip: Option<string>) returns (failed: seq<Pod>, err: bool)
      requires Running()
      modifies `store, `queue, `used, `touched, `arrived, `kernel, `faults
      ensures Running() && old(touched) <= touched && old(arrived) <= arrived
      ensures Elements(failed) <= Elements(pods) && IdsOf(failed) <= IdsOf(pods) && (err <==> failed != [])
      ensures CleanupStep(old(Now()), Now(), touched, IdsOf(pods), IdsOf(failed), skip) && old(used) <= used
      ensures FaultsOf(old(faults), faults, IdsOf(failed))
    {
      failed, err := [], false;
      NoFault(faults, faults);
      for k := 0 to |pods|
        invariant Running() && old(touched) <= touched && old(arrived) <= arrived
        invariant Elements(failed) <= Elements(pods[..k]) && (err <==> failed != [])
        invariant CleanupStep(old(Now()), Now(), touched, IdsOf(pods[..k]), IdsOf(failed), skip)
        invariant FaultsOf(old(faults), faults, IdsOf(failed)) && old(used) <= used
      {
        PodsUpTo(pods, k);
        OnePodMore(failed, pods[k]);
        label before:
        var podErr := CleanupPod(pods[k], skip);
        CleanupSteps(old(Now()), old@before(Now()), Now(), old@before(touched), touched, IdsOf(pods[..k]), {IdOf(pods[k])},
                     IdsOf(failed), if podErr then {IdOf(pods[k])} else {}, skip);
        FaultsThen(old(faults), old@before(faults), faults, IdsOf(failed), if podErr then {IdOf(pods[k])} else {});
        PlusNone(IdsOf(failed));
        if podErr {
          failed, err := failed + [pods[k]], true;
        }
      }
      assert pods[..|pods|] == pods;
      CleanupSays(old(Now()), Now(), touched, IdsOf(pods), IdsOf(failed), skip);
    }

    // ----- deriving the target pods

    /** `UpdatePodIdentifierToPolicyEndpointMap` */
    method AddNames(i: Identifier, names: seq<CpeName>)
      requires GoodLists(cpesOf, used) && names != [] && NoDuplicates(names) && Elements(names) <= used
      modifies `cpesOf
      ensures GoodLists(cpesOf, used)
      ensures forall j :: Names(cpesOf, j) == old(Names(cpesOf, j)) + if j == i then Elements(names) else {}
    {
      if i !in cpesOf {
        GoodListsWith(cpesOf, used, i, names);
        cpesOf := cpesOf[i := names];
        return;
      }
      assert GoodListAt(cpesOf, used, i);
      var list := cpesOf[i];
      for k := 0 to |names|
        invariant NoDuplicates(list) && list != [] && Elements(list) == Elements(cpesOf[i]) + Elements(names[..k])
      {
        assert Elements(names[..k + 1]) == Elements(names[..k]) + {names[k]};
        if names[k] !in list {
          assert Elements(list + [names[k]]) == Elements(list) + {names[k]};
          list := list + [names[k]];
        }
      }
      assert names[..|names|] == names;
      GoodListsWith(cpesOf, used, i, list);
      cpesOf := cpesOf[i := list];
    }

    /** `DeletePolicyEndpointFromPodIdentifierMap`: an emptied entry disappears. */
    method DropName(i: Identifier, n: CpeName)
      requires GoodLists(cpesOf, used)
      modifies `cpesOf
      ensures GoodLists(cpesOf, used)
      ensures forall j :: Names(cpesOf, j) == old(Names(cpesOf, j)) - if j == i then {n} else {}
    {
      if i !in cpesOf {
        return;
      }
      assert GoodListAt(cpesOf, used, i);
      var list: seq<CpeName> := [];
      for k := 0 to |cpesOf[i]|
        invariant NoDuplicates(list) && Elements(list) == Elements(cpesOf[i][..k]) - {n}
      {
        var m := cpesOf[i][k];
        assert Elements(cpesOf[i][..k + 1]) == Elements(cpesOf[i][..k]) + {m};
        if m != n {
          assert m !in Elements(cpesOf[i][..k]);
          assert Elements(list + [m]) == Elements(list) + {m};
          list := list + [m];
        }
      }
      assert cpesOf[i][..|cpesOf[i]|] == cpesOf[i];
      if list == [] {
        assert Elements(cpesOf[i]) - {n} == {};
        GoodListsWithout(cpesOf, used, i);
        cpesOf := cpesOf - {i};
      } else {
        GoodListsWith(cpesOf, used, i, list);
        cpesOf := cpesOf[i := list];
      }
    }

    /** One slice's pods on this node; every identifier it lists is mapped to all the parent's slices. */
    method TargetPodsOf(cpe: Cpe, parentCpes: seq<CpeName>) returns (pods: seq<Pod>)
      requires GoodLists(cpesOf, used) && parentCpes != [] && NoDuplicates(parentCpes) && Elements(parentCpes) <= used
      modifies `cpesOf
      ensures GoodLists(cpesOf, used) && Elements(pods) == LocalPods(cpe, nodeIP)
      ensures forall i :: Names(cpesOf, i) == old(Names(cpesOf, i)) + if Lists(cpe, i) then Elements(parentCpes) else {}
    {
      pods := [];
      for k := 0 to |cpe.pods|
        invariant GoodLists(cpesOf, used)
        invariant Elements(pods) == LocalPods(cpe.(pods := cpe.pods[..k]), nodeIP)
        invariant forall i :: Names(cpesOf, i)
                     == old(Names(cpesOf, i)) + if Lists(cpe.(pods := cpe.pods[..k]), i) then Elements(parentCpes) else {}
      {
        var e := cpe.pods[k];
        PodsOneMore(cpe, k, nodeIP);
        if e.hostIP == nodeIP {
          assert Elements(pods + [e.pod]) == Elements(pods) + {e.pod};
          pods := pods + [e.pod];
        }
        AddNames(IdOf(e.pod), parentCpes);
      }
      assert cpe.(pods := cpe.pods[..|cpe.pods|]) == cpe;
    }

    /** The target pods of all the parent's slices. */
    method TargetPods(snap: map<CpeName, Cpe>, parentCpes: seq<CpeName>) returns (pods: seq<Pod>)
      requires GoodLists(cpesOf, used) && NoDuplicates(parentCpes) && Elements(parentCpes) <= used
      requires Elements(parentCpes) <= snap.Keys
      modifies `cpesOf
      ensures GoodLists(cpesOf, used) && IdsOf(pods) == ListedLocally(snap, Elements(parentCpes), nodeIP)
      ensures Elements(pods) == PodsListed(snap, Elements(parentCpes), nodeIP)
      ensures forall i :: Names(cpesOf, i)
                == old(Names(cpesOf, i)) + if ListedBySome(snap, Elements(parentCpes), i) then Elements(parentCpes) else {}
    {
      pods := [];
      for k := 0 to |parentCpes|
        invariant GoodLists(cpesOf, used) && IdsOf(pods) == ListedLocally(snap, Elements(parentCpes[..k]), nodeIP)
        invariant Elements(pods) == PodsListed(snap, Elements(parentCpes[..k]), nodeIP)
        invariant forall i :: Names(cpesOf, i)
                    == old(Names(cpesOf, i))
                       + if ListedBySome(snap, Elements(parentCpes[..k]), i) then Elements(parentCpes) else {}
      {
        var n := parentCpes[k];
        assert Elements(parentCpes[..k + 1]) == Elements(parentCpes[..k]) + {n};
        ListedOneMore(snap, Elements(parentCpes[..k]), n, nodeIP);
        assert n in Elements(parentCpes);
        var more := TargetPodsOf(snap[n], parentCpes);
        IdsOfConcat(pods, more);
        assert Elements(pods + more) == Elements(pods) + Elements(more);
        pods := pods + more;
      }
      assert parentCpes[..|parentCpes|] == parentCpes;
    }

    /** The pods recorded under the slice and its siblings. */
    method RecordedPods(names: seq<CpeName>) returns (pods: seq<Pod>)
      ensures IdsOf(pods) == Tracking(podsOf, Elements(names))
    {
      pods := [];
      for k := 0 to |names|
        invariant IdsOf(pods) == Tracking(podsOf, Elements(names[..k]))
      {
        assert Elements(names[..k + 1]) == Elements(names[..k]) + {names[k]};
        assert Tracking(podsOf, Elements(names[..k]) + {names[k]})
            == Tracking(podsOf, Elements(names[..k])) + PodIds(podsOf, names[k]);
        if names[k] in podsOf {
          assert IdsOf(pods + podsOf[names[k]]) == IdsOf(pods) + IdsOf(podsOf[names[k]]);
          pods := pods + podsOf[names[k]];
        }
      }
      assert names[..|names|] == names;
    }

    /** Takes the parent's slices out of the entries of identifiers it no longer selects. */
    method Scrub(stale: set<Identifier>, names: seq<CpeName>)
      requires GoodLists(cpesOf, used)
      modifies `cpesOf
      ensures GoodLists(cpesOf, used)
      ensures forall i :: Names(cpesOf, i) == old(Names(cpesOf, i)) - if i in stale then Elements(names) else {}
    {
      for k := 0 to |names|
        invariant GoodLists(cpesOf, used)
        invariant forall i :: Names(cpesOf, i) == old(Names(cpesOf, i)) - if i in stale then Elements(names[..k]) else {}
      {
        assert Elements(names[..k + 1]) == Elements(names[..k]) + {names[k]};
        label outer:
        var rest := stale;
        while rest != {}
          invariant GoodLists(cpesOf, used) && rest <= stale
          invariant forall i :: Names(cpesOf, i) == old@outer(Names(cpesOf, i)) - if i in stale - rest then {names[k]} else {}
          decreases rest
        {
          var sid :| sid in rest;
          DropName(sid, names[k]);
          rest := rest - {sid};
        }
        assert stale - rest == stale;
      }
      assert names[..|names|] == names;
    }

    /** `deriveTargetPodsForParentCNP`; a failed listing changes nothing. */
    method Derive(name: CpeName)
      returns (ok: bool, targetPods: seq<Pod>, targets: set<Identifier>, cleanup: seq<Pod>, parentCpes: seq<CpeName>)
      requires Running()
      modifies `store, `queue, `used, `touched, `arrived, `cpesOf, `faults
      ensures Running() && old(touched) <= touched && old(arrived) <= arrived
      ensures Moved(old(store), old(used), store, used, touched)
      ensures !ok ==> cpesOf == old(cpesOf)
      ensures faults == old(faults) + if ok then [] else [ListFault]
      ensures ok ==> IdsOf(targetPods) == targets && Elements(targetPods) == LocalPodsOf(store, ParentOf(name), nodeIP)
      ensures ok ==> DeriveStep(old(Now()), Now(), touched, name, Elements(parentCpes), targets, IdsOf(cleanup), nodeIP)
    {
      var items := List();
      if items.None? {
        return false, [], {}, [], [];
      }
      ok := true;
      targetPods, targets, cleanup, parentCpes := DeriveListed(name, items.value, old(Now()));
    }

    /** What follows a successful listing, in a derivation that began in state `s`. */
    method DeriveListed(name: CpeName, items: map<CpeName, Cpe>, ghost s: State)
      returns (targetPods: seq<Pod>, targets: set<Identifier>, cleanup: seq<Pod>, parentCpes: seq<CpeName>)
      requires Running() && items == store && Moved(s.store, s.used, store, used, touched)
      requires Now() == s.(store := store, queue := queue, used := used)
      modifies `cpesOf
      ensures Running() && IdsOf(targetPods) == targets && Elements(targetPods) == LocalPodsOf(store, ParentOf(name), nodeIP)
      ensures DeriveStep(s, Now(), touched, name, Elements(parentCpes), targets, IdsOf(cleanup), nodeIP)
    {
      var parent := ParentOf(name);
      var slices := SlicesOf(items, parent);
      parentCpes := Enumerate(slices);
      StoreSays(Now(), nodeIP, local);
      assert slices <= store.Keys;
      targetPods := TargetPods(items, parentCpes);
      targets := IdsOf(targetPods);
      SlicesListing(store, parent, nodeIP);
      var stale := ParentIds(identifiersOf, parent) - targets;
      if slices == {} {
        parentCpes := [name];
      }
      var recorded := RecordedPods([name] + parentCpes);
      assert Elements([name] + parentCpes) == Elements(parentCpes) + {name};
      Scrub(stale, parentCpes);
      cleanup := PodsToBeCleanedUp(recorded, targetPods, targets);
      DerivedFits(s, Now(), touched, name, Elements(parentCpes), targets, IdsOf(cleanup), nodeIP);
    }

    // ----- commit and programming

    /** `commitClusterPolicyEndpointState` */
    method Commit(name: CpeName, trackedPods: seq<Pod>, ids: set<Identifier>, parentCpes: seq<CpeName>)
      requires ids == IdsOf(trackedPods)
      modifies `podsOf, `identifiersOf
      ensures CommitStep(old(Now()), Now(), name, Elements(parentCpes), ids)
    {
      for k := 0 to |parentCpes|
        invariant forall n | n in parentCpes[..k] :: PodIds(podsOf, n) == ids && (n in podsOf ==> ids != {})
        invariant forall n | n !in parentCpes[..k] ::
                    (n in podsOf <==> n in old(podsOf)) && (n in old(podsOf) ==> podsOf[n] == old(podsOf)[n])
        invariant identifiersOf == old(identifiersOf)
      {
        assert parentCpes[..k + 1] == parentCpes[..k] + [parentCpes[k]];
        if |trackedPods| > 0 {
          assert IdOf(trackedPods[0]) in ids;
          podsOf := podsOf[parentCpes[k] := trackedPods];
        } else {
          podsOf := podsOf - {parentCpes[k]};
        }
      }
      assert parentCpes[..|parentCpes|] == parentCpes;
      if ids == {} {
        identifiersOf := identifiersOf - {ParentOf(name)};
      } else {
        identifiersOf := identifiersOf[ParentOf(name) := ids];
      }
      assert forall n :: CommitAt(old(Now()), Now(), name, Elements(parentCpes), ids, n);
    }

    /** Attaches the identifier's target pods and writes its maps, if it then has programs at all. */
    method Program(i: Identifier, targetPods: seq<Pod>) returns (err: bool)
      requires Running()
      modifies `store, `queue, `used, `touched, `arrived, `contexts, `kernel, `faults, `attached, `skipped
      ensures Running() && old(touched) <= touched && old(arrived) <= arrived
      ensures Moved(old(store), old(used), store, used, touched)
      ensures FaultsOf(old(faults), faults, if err then {i} else {})
      ensures old(attached) <= attached && old(skipped) <= skipped && (!err ==> AttachedFor(i, targetPods, attached + skipped))
      ensures old(contexts) <= contexts <= old(contexts) + {i}
      ensures forall j | j != i ::
                (j in kernel <==> j in old(kernel)) && (j in old(kernel) ==> kernel[j] == old(kernel)[j])
      ensures i in contexts ==> err || Fresh(Now(), touched, i, None)
    {
      var rules: RulePair;
      err, rules := DeriveRules(i, None);
      NoFault(old(faults), faults);
      if err {
        return;
      }
      ghost var derived, seen := Now(), touched;
      err := AttachPods(i, targetPods);
      NoFault(old(faults), faults);
      MovedTransitive(old(store), old(used), derived.store, derived.used, store, used, seen, touched);
      if err || i !in contexts {
        return;
      }
      label programmed:
      err := UpdateMaps(i, rules);
      MovedTransitive(old(store), old(used), old@programmed(store), old@programmed(used), store, used,
                      old@programmed(touched), touched);
      MovedTransitive(derived.store, derived.used, old@programmed(store), old@programmed(used), store, used,
                      old@programmed(touched), touched);
      if !err {
        ghost var written := derived.(kernel := kernel);
        assert Fresh(written, seen, i, None);
        FreshStays(written, Now(), seen, touched, i, None);
      }
    }

    /** Attaches the target pods of one identifier, up to the first error. */
    method AttachPods(i: Identifier, targetPods: seq<Pod>) returns (err: bool)
      requires Running()
      modifies `store, `queue, `used, `touched, `arrived, `contexts, `faults, `attached, `skipped
      ensures Running() && old(touched) <= touched && old(arrived) <= arrived
      ensures Moved(old(store), old(used), store, used, touched)
      ensures FaultsOf(old(faults), faults, if err then {i} else {})
      ensures old(contexts) <= contexts <= old(contexts) + {i}
      ensures old(attached) <= attached && old(skipped) <= skipped && (!err ==> AttachedFor(i, targetPods, attached + skipped))
    {
      NoFault(faults, faults);
      for k := 0 to |targetPods|
        invariant Running() && old(touched) <= touched && old(arrived) <= arrived
        invariant Moved(old(store), old(used), store, used, touched)
        invariant old(contexts) <= contexts <= old(contexts) + {i} && faults == old(faults)
        invariant old(attached) <= attached && old(skipped) <= skipped && AttachedFor(i, targetPods[..k], attached + skipped)
      {
        assert targetPods[..k + 1] == targetPods[..k] + [targetPods[k]];
        if IdOf(targetPods[k]) == i {
          label before:
          err := Attach(targetPods[k]);
          NoFault(old(faults), faults);
          MovedTransitive(old(store), old(used), old@before(store), old@before(used), store, used, old@before(touched), touched);
          if err {
            return;
          }
        }
      }
      assert targetPods[..|targetPods|] == targetPods;
      err := false;
    }

    /** Every target identifier is tried, whatever happens to the others. */
    method ProgramAll(targets: set<Identifier>, targetPods: seq<Pod>) returns (failedTargets: set<Identifier>)
      requires Running()
      modifies `store, `queue, `used, `touched, `arrived, `contexts, `kernel, `faults, `attached, `skipped
      ensures Running() && old(touched) <= touched && old(arrived) <= arrived && failedTargets <= targets
      ensures ProgramStep(old(Now()), Now(), touched, targets, failedTargets) && old(used) <= used
      ensures FaultsOf(old(faults), faults, failedTargets)
      ensures old(attached) <= attached && old(skipped) <= skipped
      ensures forall i | i in targets && i !in failedTargets :: AttachedFor(i, targetPods, attached + skipped)
    {
      failedTargets := {};
      NoFault(faults, faults);
      var rest := targets;
      while rest != {}
        invariant Running() && old(touched) <= touched && old(arrived) <= arrived && rest <= targets
        invariant Moved(old(store), old(used), store, used, touched)
        invariant old(contexts) <= contexts <= old(contexts) + targets && failedTargets <= targets - rest
        invariant forall j | j !in targets - rest ::
                    (j in kernel <==> j in old(kernel)) && (j in old(kernel) ==> kernel[j] == old(kernel)[j])
        invariant forall j | j in targets - rest && j in contexts && j !in failedTargets :: Fresh(Now(), touched, j, None)
        invariant FaultsOf(old(faults), faults, failedTargets) && old(attached) <= attached && old(skipped) <= skipped
        invariant forall j | j in targets - rest && j !in failedTargets :: AttachedFor(j, targetPods, attached + skipped)
        decreases rest
      {
        var i :| i in rest;
        label before:
        var err := Program(i, targetPods);
        MovedTransitive(old(store), old(used), old@before(store), old@before(used), store, used, old@before(touched), touched);
        forall j | j in targets - rest && j in contexts && j !in failedTargets
          ensures Fresh(Now(), touched, j, None)
        {
          FreshStays(old@before(Now()), Now(), old@before(touched), touched, j, None);
        }
        rest := rest - {i};
        FaultsThen(old(faults), old@before(faults), faults, failedTargets, if err then {i} else {});
        PlusNone(failedTargets);
        if err {
          failedTargets := failedTargets + {i};
        }
      }
      MovedUsed(old(store), old(used), store, used, touched);
    }

    // ----- the two flows

    /** A queued slice that exists: clean up, commit, then program every identifier its parent selects. */
    method ReconcileCpe(name: CpeName) returns (listed: bool, err: bool, failedTargets: set<Identifier>, ghost pass: Pass)
      requires Running() && name in store
      modifies `store, `queue, `used, `touched, `arrived, `cpesOf, `podsOf, `identifiersOf
      modifies `contexts, `kernel, `faults, `attached, `skipped
      ensures Running() && old(touched) <= touched && old(arrived) <= arrived
      ensures Moved(old(store), old(used), store, used, touched)
      ensures !listed ==> err && OnlyEnvironment(old(Now()), Now()) && faults == old(faults) + [ListFault]
      ensures listed ==> IsPass(old(Now()), pass, name, false, err) && FaultsOf(old(faults), faults, failedTargets + pass.failed)
      ensures listed ==> Isolated(Now(), pass, failedTargets)
      ensures old(attached) <= attached && old(skipped) <= skipped
      ensures listed ==> PodsHandled(pass.snap, ParentOf(name), nodeIP, failedTargets, attached + skipped)
      ensures (err <==> faults != old(faults)) && failedTargets <= pass.targets
    {
      var targetPods, targets, cleanup, parentCpes;
      listed, targetPods, targets, cleanup, parentCpes := Derive(name);
      if !listed {
        return false, true, {}, Pass.Pass(name, false, true, store, used, {}, {}, {}, {}, touched);
      }
      assert faults == old(faults);
      err, failedTargets, pass := ReconcileListed(name, targetPods, targets, cleanup, parentCpes, old(Now()));
    }

    /** The pass that has just ended, from state `s`. */
    ghost predicate IsPass(s: State, pass: Pass, name: CpeName, deleted: bool, err: bool)
      reads this
    {
      && pass.name == name && pass.deleted == deleted && pass.err == err && pass.touched == touched
      && Passed(s, Now(), pass, nodeIP, local)
    }

    /** The phases after a successful listing, which began in state `s`. */
    method ReconcileListed(name: CpeName, targetPods: seq<Pod>, targets: set<Identifier>, cleanup: seq<Pod>,
                           parentCpes: seq<CpeName>, ghost s: State)
      returns (err: bool, failedTargets: set<Identifier>, ghost pass: Pass)
      requires Running() && name in s.store && IdsOf(targetPods) == targets
      requires Elements(targetPods) == LocalPodsOf(store, ParentOf(name), nodeIP)
      requires DeriveStep(s, Now(), touched, name, Elements(parentCpes), targets, IdsOf(cleanup), nodeIP)
      modifies `store, `queue, `used, `touched, `arrived, `podsOf, `identifiersOf
      modifies `contexts, `kernel, `faults, `attached, `skipped
      ensures Running() && old(touched) <= touched && old(arrived) <= arrived && Moved(s.store, s.used, store, used, touched)
      ensures IsPass(s, pass, name, false, err) && FaultsOf(old(faults), faults, failedTargets + pass.failed)
      ensures Isolated(Now(), pass, failedTargets)
      ensures old(attached) <= attached && old(skipped) <= skipped
      ensures PodsHandled(pass.snap, ParentOf(name), nodeIP, failedTargets, attached + skipped)
      ensures (err <==> faults != old(faults)) && failedTargets <= pass.targets
    {
      var failed, cleanupErr := CleanupPods(cleanup, None);
      ghost var cleaned, seen, cleanupFaults := Now(), touched, faults;
      IdsOfAppend(targetPods, failed);
      Commit(name, targetPods + failed, targets + IdsOf(failed), parentCpes);
      ghost var committed := Now();
      failedTargets := ProgramAll(targets, targetPods);
      err := cleanupErr || failedTargets != {};
      pass := Pass.Pass(name, false, err, old(store), old(used), Elements(parentCpes), targets, IdsOf(cleanup), IdsOf(failed),
                        touched);
      NoIdsOfNone(failed);
      TargetsHandled(old(store), ParentOf(name), nodeIP, targetPods, failedTargets, attached + skipped);
      FaultsOfPass(old(faults), cleanupFaults, faults, IdsOf(failed), failedTargets);
      ReconcileFlow(s, old(Now()), cleaned, committed, Now(), pass, old(touched), seen, failedTargets, nodeIP, local);
    }

    /** A queued slice that is gone: drop its name, rewrite what its parent selects, clean up, commit. */
    method CleanUpCpe(name: CpeName) returns (listed: bool, err: bool, failedTargets: set<Identifier>, ghost pass: Pass)
      requires Running() && name !in store && name in used
      modifies `store, `queue, `used, `touched, `arrived, `cpesOf, `podsOf, `identifiersOf, `kernel, `faults
      ensures Running() && old(touched) <= touched && old(arrived) <= arrived
      ensures Moved(old(store), old(used), store, used, touched)
      ensures !listed ==> err && OnlyEnvironment(old(Now()), Now()) && faults == old(faults) + [ListFault]
      ensures listed ==> IsPass(old(Now()), pass, name, true, err) && FaultsOf(old(faults), faults, failedTargets + pass.failed)
      ensures listed ==> Isolated(Now(), pass, failedTargets)
      ensures (err <==> faults != old(faults)) && failedTargets <= pass.targets
    {
      var targetPods, targets, cleanup, parentCpes;
      listed, targetPods, targets, cleanup, parentCpes := Derive(name);
      if !listed {
        return false, true, {}, Pass.Pass(name, true, true, store, used, {}, {}, {}, {}, touched);
      }
      assert faults == old(faults);
      err, failedTargets, pass := CleanUpListed(name, targetPods, targets, cleanup, parentCpes, old(Now()));
    }

    /** The phases of the delete flow after a successful listing, which began in state `s`. */
    method CleanUpListed(name: CpeName, targetPods: seq<Pod>, targets: set<Identifier>, cleanup: seq<Pod>,
                         parentCpes: seq<CpeName>, ghost s: State)
      returns (err: bool, failedTargets: set<Identifier>, ghost pass: Pass)
      requires Running() && name !in s.store && name in s.used && IdsOf(targetPods) == targets
      requires DeriveStep(s, Now(), touched, name, Elements(parentCpes), targets, IdsOf(cleanup), nodeIP)
      modifies `store, `queue, `used, `touched, `arrived, `cpesOf, `podsOf, `identifiersOf, `kernel, `faults
      ensures Running() && old(touched) <= touched && old(arrived) <= arrived && Moved(s.store, s.used, store, used, touched)
      ensures IsPass(s, pass, name, true, err) && FaultsOf(old(faults), faults, failedTargets + pass.failed)
      ensures Isolated(Now(), pass, failedTargets)
      ensures (err <==> faults != old(faults)) && failedTargets <= pass.targets
    {
      var notUpdated, failed;
      ghost var dropped, updated, seen;
      notUpdated, failed, err, dropped, updated, seen := RewriteDeleted(name, targetPods, cleanup);
      ghost var cleaned := Now();
      failedTargets := IdsOf(notUpdated);
      ghost var committed := CommitDeleted(name, targetPods, failed, targets, parentCpes, err);
      pass := Pass.Pass(name, true, err, old(store), old(used), Elements(parentCpes), targets, IdsOf(cleanup), IdsOf(failed),
                        touched);
      CleanUpFlow(s, old(Now()), dropped, updated, cleaned, committed, Now(), pass, old(touched), seen, failedTargets,
                  nodeIP, local);
    }

    /** The deleted slice's name is dropped; then the identifiers still selected and those no longer selected are rewritten. */
    method RewriteDeleted(name: CpeName, targetPods: seq<Pod>, cleanup: seq<Pod>)
      returns (notUpdated: seq<Pod>, failed: seq<Pod>, err: bool,
               ghost dropped: State, ghost updated: State, ghost seen: set<CpeName>)
      requires Running()
      modifies `store, `queue, `used, `touched, `arrived, `cpesOf, `kernel, `faults
      ensures Running() && old(touched) <= seen <= touched && old(arrived) <= arrived && dropped.used <= used
      ensures DropStep(old(Now()), dropped, name) && GoodLists(dropped.cpesOf, dropped.used)
      ensures CleanupStep(dropped, updated, seen, IdsOf(targetPods), IdsOf(notUpdated), None)
      ensures CleanupStep(updated, Now(), touched, IdsOf(cleanup), IdsOf(failed), Some(ParentOf(name)))
      ensures FaultsOf(old(faults), faults, IdsOf(notUpdated) + IdsOf(failed)) && IdsOf(notUpdated) <= IdsOf(targetPods)
      ensures err <==> IdsOf(notUpdated) != {} || IdsOf(failed) != {}
      ensures err <==> faults != old(faults)
    {
      DropDeleted(name);
      dropped := Now();
      var updateErr, cleanupErr;
      notUpdated, updateErr := CleanupPods(targetPods, None);
      updated, seen := Now(), touched;
      ghost var updateFaults := faults;
      failed, cleanupErr := CleanupPods(cleanup, Some(ParentOf(name)));
      err := updateErr || cleanupErr;
      NoIdsOfNone(failed);
      NoIdsOfNone(notUpdated);
      FaultsOfPass(old(faults), updateFaults, faults, IdsOf(notUpdated), IdsOf(failed));
    }

    /** The commit of the delete flow; a deleted slice outside the listing keeps only the pods to retry. */
    method CommitDeleted(name: CpeName, targetPods: seq<Pod>, failed: seq<Pod>, targets: set<Identifier>,
                         parentCpes: seq<CpeName>, err: bool)
      returns (ghost committed: State)
      requires targets == IdsOf(targetPods)
      modifies `podsOf, `identifiersOf
      ensures CommitStep(old(Now()), committed, name, Elements(parentCpes), targets + IdsOf(failed))
      ensures Now() == committed.(podsOf := podsOf) && (name in Elements(parentCpes) ==> podsOf == committed.podsOf)
      ensures name !in Elements(parentCpes) ==>
                podsOf == if err then committed.podsOf[name := failed] else committed.podsOf - {name}
    {
      IdsOfAppend(targetPods, failed);
      Commit(name, targetPods + failed, targets + IdsOf(failed), parentCpes);
      committed := Now();
      if name !in parentCpes {
        podsOf := if err then podsOf[name := failed] else podsOf - {name};
      }
    }

    /** The deleted slice leaves the entries of the identifiers it tracked. */
    method DropDeleted(name: CpeName)
      requires GoodLists(cpesOf, used)
      modifies `cpesOf
      ensures GoodLists(cpesOf, used) && DropStep(old(Now()), Now(), name)
    {
      if name !in podsOf {
        assert forall i :: DropAt(old(Now()), Now(), name, i);
        return;
      }
      var pods := podsOf[name];
      for k := 0 to |pods|
        invariant GoodLists(cpesOf, used)
        invariant forall i :: Names(cpesOf, i) == old(Names(cpesOf, i)) - if i in IdsOf(pods[..k]) then {name} else {}
      {
        assert IdsOf(pods[..k + 1]) == IdsOf(pods[..k]) + {IdOf(pods[k])} by {
          assert pods[..k + 1] == pods[..k] + [pods[k]];
        }
        DropName(IdOf(pods[k]), name);
      }
      assert pods[..|pods|] == pods;
      assert forall i :: DropAt(old(Now()), Now(), name, i);
    }

    // ----- the worker

    /** The event's slice as found, reconciled or cleaned up after. */
    method Handle(name: CpeName, present: bool)
      returns (listed: bool, err: bool, failedTargets: set<Identifier>, ghost pass: Pass)
      requires Running() && name in used && present == (name in store)
      modifies `store, `queue, `used, `touched, `arrived, `cpesOf, `podsOf, `identifiersOf
      modifies `contexts, `kernel, `faults, `attached, `skipped
      ensures Running() && old(touched) <= touched && old(arrived) <= arrived
      ensures Moved(old(store), old(used), store, used, touched)
      ensures !listed ==> err && OnlyEnvironment(old(Now()), Now()) && faults == old(faults) + [ListFault]
      ensures listed ==> IsPass(old(Now()), pass, name, !present, err) && Isolated(Now(), pass, failedTargets)
      ensures listed ==> FaultsOf(old(faults), faults, failedTargets + pass.failed)
      ensures (err <==> faults != old(faults)) && failedTargets <= pass.targets
      ensures old(attached) <= attached && old(skipped) <= skipped
      ensures listed && present ==> PodsHandled(pass.snap, ParentOf(name), nodeIP, failedTargets, attached + skipped)
    {
      if present {
        listed, err, failedTargets, pass := ReconcileCpe(name);
      } else {
        listed, err, failedTargets, pass := CleanUpCpe(name);
      }
    }

    /**
     * One event is taken from the queue and handled; it goes back exactly if a call failed. A pass that nothing disturbs
     * and no call fails in leaves every identifier the event was awaited for current.
     */
    method Reconcile(name: CpeName) returns (err: bool, failedTargets: set<Identifier>, ghost pass: Option<Pass>)
      requires Valid() && name in queue
      modifies this
      ensures Valid() && touched <= arrived && Moved(old(store), old(used), store, used, touched)
      ensures queue == old(queue) - {name} + arrived + if err then {name} else {}
      ensures old(faults) <= faults && (err <==> faults != old(faults))
      ensures pass.None? ==> OnlyEnvironment(old(Now()), Now())
      ensures pass.None? ==> |faults| == |old(faults)| + 1 && Owner(faults[|old(faults)|]).None?
      ensures pass.Some? ==> IsStep(old(Now()), pass.value, name, err) && Isolated(Now(), pass.value, failedTargets)
      ensures pass.Some? ==> FaultsOf(old(faults), faults, failedTargets + pass.value.failed)
      ensures old(attached) <= attached && old(skipped) <= skipped
      ensures pass.Some? && !pass.value.deleted ==>
                PodsHandled(pass.value.snap, ParentOf(name), nodeIP, failedTargets, attached + skipped)
      ensures !err && arrived == {} && name in store ==> PodsHandled(store, ParentOf(name), nodeIP, {}, attached + skipped)
      ensures !err && arrived == {} ==>
                forall i | local(i) && i in contexts && WillRewrite(old(Now()), name, i) ::
                  Current(Now(), i) && Agrees(Now(), ParentOf(name), i)
    {
      ghost var s := Now();
      var result := TakeEvent(name);
      if result.Failed? {
        PutBack(name, s);
        err, failedTargets, pass := true, {}, None;
      } else {
        assert faults == old(faults);
        err, failedTargets, pass := Finish(name, result.Found?, s);
        if pass.Some? {
          AllAwaitedBecomeCurrent(s, Now(), pass.value, nodeIP, local);
          QuietPass(s, Now(), pass.value, old(faults), faults, failedTargets, nodeIP, local);
        }
      }
    }

    /** Takes the event from the queue and looks its slice up. */
    method TakeEvent(name: CpeName) returns (result: GetResult)
      requires Valid() && name in queue
      modifies `store, `queue, `used, `base, `touched, `arrived, `faults
      ensures Running() && base == old(queue) - {name} && name in used
      ensures OnlyEnvironment(old(Now()), Now()) && Moved(old(store), old(used), store, used, touched)
      ensures faults == old(faults) + if result.Failed? then [GetFault(name, None)] else []
      ensures !result.Failed? ==> result.Found? == (name in store)
    {
      GoodStart(Now(), name, nodeIP, local);
      queue, base, touched, arrived := queue - {name}, queue - {name}, {}, {};
      result := Get(name, None);
      MovedUsed(old(store), old(used), store, used, touched);
    }

    /** The event goes back to the queue, and nothing else has happened since state `s` but API changes. */
    method PutBack(name: CpeName, ghost s: State)
      requires Running() && Inv(s, nodeIP, local) && name in s.queue && name in used
      requires base == s.queue - {name} && OnlyEnvironment(s, Now()) && Moved(s.store, s.used, store, used, touched)
      modifies `queue
      ensures Valid() && queue == old(queue) + {name} && queue == s.queue - {name} + arrived + {name}
    {
      queue := queue + {name};
      EnvironmentKeepsInv(s, Now(), touched, nodeIP, local);
    }

    /** The rest of a reconcile that began in state `s` and has looked its slice up. */
    method Finish(name: CpeName, present: bool, ghost s: State)
      returns (err: bool, failedTargets: set<Identifier>, ghost pass: Option<Pass>)
      requires Running() && Inv(s, nodeIP, local) && name in s.queue && name in used && present == (name in store)
      requires base == s.queue - {name} && OnlyEnvironment(s, Now()) && Moved(s.store, s.used, store, used, touched)
      modifies `store, `queue, `used, `touched, `arrived, `cpesOf, `podsOf, `identifiersOf
      modifies `contexts, `kernel, `faults, `attached, `skipped
      ensures Valid() && touched <= arrived && Moved(s.store, s.used, store, used, touched)
      ensures queue == s.queue - {name} + arrived + if err then {name} else {}
      ensures old(faults) <= faults && (err <==> faults != old(faults))
      ensures pass.None? ==> OnlyEnvironment(s, Now()) && faults == old(faults) + [ListFault]
      ensures pass.Some? ==> IsStep(s, pass.value, name, err) && FaultsOf(old(faults), faults, failedTargets + pass.value.failed)
      ensures pass.Some? ==> Isolated(Now(), pass.value, failedTargets)
      ensures old(attached) <= attached && old(skipped) <= skipped
      ensures pass.Some? && !pass.value.deleted ==>
                PodsHandled(pass.value.snap, ParentOf(name), nodeIP, failedTargets, attached + skipped)
    {
      ghost var got, seen := Now(), touched;
      var listed;
      ghost var p: Pass;
      listed, err, failedTargets, p := Handle(name, present);
      ghost var done := Now();
      MovedTransitive(s.store, s.used, got.store, got.used, store, used, seen, touched);
      MovedUsed(got.store, got.used, store, used, touched);
      if err {
        queue := queue + {name};
      }
      if listed {
        FaultsGrow(old(faults), faults, failedTargets + p.failed);
        PassEnds(s, got, done, Now(), p, seen, nodeIP, local);
        IsolatedStays(done, Now(), p, failedTargets);
        pass := Some(p);
      } else {
        NothingListed(s, got, done, Now(), name, seen, touched, nodeIP, local);
        pass := None;
      }
    }

    /** The pass that has just ended is a step from state `s`. */
    ghost predicate IsStep(s: State, pass: Pass, name: CpeName, err: bool)
      reads this
    {
      pass.name == name && pass.err == err && pass.touched == touched && PassStep(s, Now(), pass, nodeIP, local)
    }

    /** One step of a run: an event is reconciled, or the API changes. */
    method Step() returns (ghost move: Option<Pass>)
      requires Valid()
      modifies this
      ensures Valid() && IsMove(old(Now()), Now(), move, nodeIP, local)
    {
      move := None;
      var n: CpeName := *;
      if n in queue {
        var err, failedTargets;
        err, failedTargets, move := Reconcile(n);
      } else {
        ChangeApi();
      }
    }

    method ChangeApi()
      requires Valid()
      modifies `store, `queue, `used, `base, `touched, `arrived
      ensures Valid() && OnlyEnvironment(old(Now()), Now())
    {
      ghost var s := Now();
      base, touched, arrived := queue, {}, {};
      InvSays(s, nodeIP, local);
      Environment();
      EnvironmentKeepsInv(s, Now(), touched, nodeIP, local);
    }

    /** Any run: API changes, duplicate events and reconciles in any order, with any failures. */
    method Run(steps: nat) returns (ghost states: seq<State>, ghost moves: seq<Option<Pass>>)
      requires Valid()
      modifies this
      ensures Valid() && IsRun(states, moves, nodeIP, local) && states[0] == old(Now()) && states[|moves|] == Now()
      ensures forall i | local(i) && i in contexts ::
                Exact(Now(), i) || LeftBehind(Now(), i) || exists q | q in queue :: WillRewrite(Now(), q, i)
      ensures queue == {} ==>
                forall i | local(i) && i in contexts :: IsRefreshed(Now(), i) && (Exact(Now(), i) <==> !LeftBehind(Now(), i))
    {
      states, moves := [Now()], [];
      assert forall k :: MoveAt(states, moves, nodeIP, local, k);
      for k := 0 to steps
        invariant Valid() && IsRun(states, moves, nodeIP, local) && states[0] == old(Now()) && states[|moves|] == Now()
      {
        ghost var move := Step();
        RunGrows(states, moves, nodeIP, local, Now(), move);
        states, moves := states + [Now()], moves + [move];
      }
      forall i | local(i) && i in contexts
        ensures Exact(Now(), i) || LeftBehind(Now(), i) || exists q | q in queue :: WillRewrite(Now(), q, i)
        ensures queue == {} ==> IsRefreshed(Now(), i) && (Exact(Now(), i) <==> !LeftBehind(Now(), i))
      {
        Converges(Now(), nodeIP, local, i);
      }
    }

    /** Handling every queued event once, undisturbed and without faults, leaves every identifier refreshed. */
    method Drain() returns (ghost seen: set<CpeName>)
      requires Valid()
      modifies this
      ensures Valid() && old(faults) <= faults
      ensures seen == {} && faults == old(faults) ==>
                && queue == {} && store == old(store)
                && forall i | local(i) && i in contexts :: IsRefreshed(Now(), i) && (Exact(Now(), i) <==> !LeftBehind(Now(), i))
      ensures seen == {} && faults == old(faults) ==>
                forall n | n in old(queue) && n in store :: PodsHandled(store, ParentOf(n), nodeIP, {}, attached + skipped)
      ensures seen == {} && faults == old(faults) && ClusterVerdict.PrioritiesAdmitted(store) ==>
                forall pod | pod in attached && local(IdOf(pod)) && !LeftBehind(Now(), IdOf(pod)) ::
                  ClusterVerdict.Enforces(Now(), IdOf(pod), processor)
    {
      seen := {};
      var work := queue;
      while work != {}
        invariant Valid() && old(faults) <= faults && work <= queue && work <= old(queue)
        invariant seen == {} && faults == old(faults) ==> queue == work && store == old(store)
        invariant seen == {} && faults == old(faults) ==>
                    forall n | n in old(queue) - work && n in store ::
                      PodsHandled(store, ParentOf(n), nodeIP, {}, attached + skipped)
        decreases work
      {
        var n :| n in work;
        ghost var before, beforeUsed, handled := store, used, attached + skipped;
        var _, _, _ := Reconcile(n);
        seen := seen + arrived;
        MovedUsed(before, beforeUsed, store, used, touched);
        forall m | PodsHandled(store, ParentOf(m), nodeIP, {}, handled)
          ensures PodsHandled(store, ParentOf(m), nodeIP, {}, attached + skipped)
        {
          StaysHandled(store, ParentOf(m), nodeIP, {}, handled, attached + skipped);
        }
        work := work - {n};
      }
      forall i | local(i) && i in contexts
        ensures queue == {} ==> IsRefreshed(Now(), i) && (Exact(Now(), i) <==> !LeftBehind(Now(), i))
      {
        Converges(Now(), nodeIP, local, i);
      }
      forall pod | pod in attached && local(IdOf(pod)) && Exact(Now(), IdOf(pod)) && ClusterVerdict.PrioritiesAdmitted(store)
        ensures ClusterVerdict.Enforces(Now(), IdOf(pod), processor)
      {
        assert CompilesAt(kernel, processor, IdOf(pod));
        ClusterVerdict.ExactMeansEnforced(Now(), IdOf(pod), processor);
      }
      assert forall pod | pod in attached :: HasContext(attached, contexts, pod);
    }
  }

  /** Nothing changed during the pass, so that it saw the slices as they still are; and no fault means no failed identifier. */
  lemma QuietPass(s: State, s': State, p: Pass, before: seq<Fault>, after: seq<Fault>, failedTargets: set<Identifier>,
                  nodeIP: string, local: Identifier -> bool)
    requires PassStep(s, s', p, nodeIP, local) && FaultsOf(before, after, failedTargets + p.failed)
    ensures p.touched == {} ==> p.snap == s.store == s'.store
    ensures p.deleted ==> p.name !in s'.store
    ensures before == after ==> failedTargets == {}
  {
    PassSays(s, s', p, nodeIP, local);
    MovedUsed(s.store, s.used, p.snap, p.snapUsed, p.touched);
    MovedUsed(p.snap, p.snapUsed, s'.store, s'.used, p.touched);
    if before == after {
      assert FaultAt(before, after, failedTargets + p.failed, 0);
      assert after[|before|..] == [];
    }
  }

  lemma AllAwaitedBecomeCurrent(s: State, s': State, p: Pass, nodeIP: string, local: Identifier -> bool)
    requires Inv(s, nodeIP, local) && PassStep(s, s', p, nodeIP, local)
    ensures !p.err && p.touched == {} ==>
              forall i | local(i) && i in s'.contexts && WillRewrite(s, p.name, i) ::
                Current(s', i) && Agrees(s', ParentOf(p.name), i)
  {
    if !p.err && p.touched == {} {
      forall i | local(i) && i in s'.contexts && WillRewrite(s, p.name, i)
        ensures Current(s', i) && Agrees(s', ParentOf(p.name), i)
      {
        AwaitedBecomesCurrent(s, s', p, nodeIP, local, i);
      }
    }
  }

  lemma IsolatedStays(done: State, s': State, p: Pass, failedTargets: set<Identifier>)
    requires Isolated(done, p, failedTargets) && s' == done.(queue := s'.queue)
    ensures Isolated(s', p, failedTargets)
  {
    forall i
      ensures IsolatedAt(s', p, failedTargets, i)
    {
      assert IsolatedAt(done, p, failedTargets, i);
    }
  }

  lemma GoodStart(s: State, name: CpeName, nodeIP: string, local: Identifier -> bool)
    requires Inv(s, nodeIP, local) && name in s.queue
    ensures GoodStore(s.(queue := s.queue - {name}), nodeIP, local) && GoodLists(s.cpesOf, s.used) && name in s.used
  {
    InvSays(s, nodeIP, local);
  }

  lemma DerivedFits(s: State, d: State, touched: set<CpeName>, name: CpeName, slices: set<CpeName>, targets: set<Identifier>,
                    cleaned: set<Identifier>, nodeIP: string)
    requires d == s.(store := d.store, queue := d.queue, used := d.used, cpesOf := d.cpesOf)
    requires Moved(s.store, s.used, d.store, d.used, touched) && targets == LocalIds(d.store, ParentOf(name), nodeIP)
    requires slices == (if SlicesOf(d.store, ParentOf(name)) != {} then SlicesOf(d.store, ParentOf(name)) else {name})
    requires cleaned == Tracking(s.podsOf, slices + {name}) - targets
    requires forall i :: Names(d.cpesOf, i) == Derived(s, name, d.store, slices, targets, i)
    ensures DeriveStep(s, d, touched, name, slices, targets, cleaned, nodeIP)
  {
    forall i
      ensures DeriveAt(s, d, touched, name, slices, targets, cleaned, nodeIP, i)
    {
      assert Names(d.cpesOf, i) == Derived(s, name, d.store, slices, targets, i);
    }
  }

  ghost predicate CompilesAt(kernel: map<Identifier, KernelMaps>, p: Processor, i: Identifier) {
    i in kernel ==> Compiles(kernel[i], p)
  }

  /** Every table that maps were refreshed towards is the compiler's for the rules. */
  ghost predicate AllCompile(kernel: map<Identifier, KernelMaps>, p: Processor) {
    forall i :: CompilesAt(kernel, p, i)
  }

  lemma MoreCompile(kernel: map<Identifier, KernelMaps>, p: Processor, i: Identifier, maps: KernelMaps)
    requires AllCompile(kernel, p) && Compiles(maps, p)
    ensures AllCompile(kernel[i := maps], p)
  {
    var more := kernel[i := maps];
    forall j
      ensures CompilesAt(more, p, j)
    {
      assert CompilesAt(kernel, p, j);
    }
  }

  ghost predicate HasContext(attached: set<Pod>, contexts: set<Identifier>, pod: Pod) {
    pod in attached ==> IdOf(pod) in contexts
  }

  /** The identifiers of attached pods have programs on the node. */
  ghost predicate HaveContexts(attached: set<Pod>, contexts: set<Identifier>) {
    forall pod :: HasContext(attached, contexts, pod)
  }

  lemma MoreContexts(attached: set<Pod>, attached': set<Pod>, contexts: set<Identifier>, contexts': set<Identifier>, pod: Pod)
    requires HaveContexts(attached, contexts) && contexts <= contexts' && attached' <= attached + {pod}
    requires pod in attached' && pod !in attached ==> IdOf(pod) in contexts'
    ensures HaveContexts(attached', contexts')
  {
    forall q
      ensures HasContext(attached', contexts', q)
    {
      assert HasContext(attached, contexts, q);
    }
  }

  /** Every pod the parent's slices list on this node was attached or skipped, unless its identifier failed. */
  ghost predicate PodsHandled(snap: map<CpeName, Cpe>, parent: string, nodeIP: string, failed: set<Identifier>,
                              handled: set<Pod>)
  {
    forall pod :: PodHandled(LocalPodsOf(snap, parent, nodeIP), failed, handled, pod)
  }

  ghost predicate PodHandled(pods: set<Pod>, failed: set<Identifier>, handled: set<Pod>, pod: Pod) {
    pod in pods ==> IdOf(pod) in failed || pod in handled
  }

  lemma TargetsHandled(snap: map<CpeName, Cpe>, parent: string, nodeIP: string, targetPods: seq<Pod>, failed: set<Identifier>,
                       handled: set<Pod>)
    requires Elements(targetPods) == LocalPodsOf(snap, parent, nodeIP)
    requires forall i | i in IdsOf(targetPods) && i !in failed :: AttachedFor(i, targetPods, handled)
    ensures PodsHandled(snap, parent, nodeIP, failed, handled)
  {
    forall pod
      ensures PodHandled(LocalPodsOf(snap, parent, nodeIP), failed, handled, pod)
    {
      if pod in LocalPodsOf(snap, parent, nodeIP) {
        assert pod in Elements(targetPods);
        assert IdOf(pod) in IdsOf(targetPods);
      }
    }
  }

  lemma StaysHandled(snap: map<CpeName, Cpe>, parent: string, nodeIP: string, failed: set<Identifier>, handled: set<Pod>,
                     handled': set<Pod>)
    requires PodsHandled(snap, parent, nodeIP, failed, handled) && handled <= handled'
    ensures PodsHandled(snap, parent, nodeIP, failed, handled')
  {
    forall pod
      ensures PodHandled(LocalPodsOf(snap, parent, nodeIP), failed, handled', pod)
    {
      assert PodHandled(LocalPodsOf(snap, parent, nodeIP), failed, handled, pod);
    }
  }

  /** An attach call has returned without an error for every target pod of the identifier. */
  predicate AttachedFor(i: Identifier, targetPods: seq<Pod>, attached: set<Pod>) {
    forall pod | pod in targetPods && IdOf(pod) == i :: pod in attached
  }

  /** A pass that began after some API changes is also a pass from the state before them. */
  lemma LiftedPass(s: State, got: State, s': State, p: Pass, nodeIP: string, local: Identifier -> bool)
    requires got == s.(store := got.store, queue := got.queue, used := got.used)
    requires Moved(s.store, s.used, got.store, got.used, p.touched) && p.name in s.used
    requires Listing(got, s', p, nodeIP, local) && Booked(got, s', p) && Programmed(got, s', p)
    ensures Listing(s, s', p, nodeIP, local) && Booked(s, s', p) && Programmed(s, s', p)
  {
    MovedSays(s.store, s.used, got.store, got.used, p.touched);
    MovedTransitive(s.store, s.used, got.store, got.used, p.snap, p.snapUsed, p.touched, p.touched);
    LiftedNames(s, got, s', p);
    forall i
      ensures ProgrammedAt(s, s', p, i)
    {
      assert ProgrammedAt(got, s', p, i);
    }
  }

  lemma PlusNone(ids: set<Identifier>)
    ensures ids + {} == ids
  {
  }

  lemma OnePodMore(pods: seq<Pod>, pod: Pod)
    ensures Elements(pods + [pod]) == Elements(pods) + {pod} && IdsOf(pods + [pod]) == IdsOf(pods) + {IdOf(pod)}
  {
  }

  lemma PodsUpTo(pods: seq<Pod>, k: nat)
    requires k < |pods|
    ensures Elements(pods[..k + 1]) == Elements(pods[..k]) + {pods[k]}
    ensures IdsOf(pods[..k + 1]) == IdsOf(pods[..k]) + {IdOf(pods[k])}
  {
    assert pods[..k + 1] == pods[..k] + [pods[k]];
    OnePodMore(pods[..k], pods[k]);
  }

  lemma LiftedNames(s: State, got: State, s': State, p: Pass)
    requires got == s.(store := got.store, queue := got.queue, used := got.used)
    requires NamesBooked(got, s'.cpesOf, p)
    ensures NamesBooked(s, s'.cpesOf, p)
  {
    forall i
      ensures Names(s'.cpesOf, i) == NamesAfter(s, p, i)
    {
      assert Names(s'.cpesOf, i) == NamesAfter(got, p, i);
    }
  }

  lemma Requeued(got: State, done: State, s': State, p: Pass, nodeIP: string, local: Identifier -> bool)
    requires Passed(got, done, p, nodeIP, local) && s' == done.(queue := s'.queue)
    ensures Passed(got, s', p, nodeIP, local)
  {
    PassedSays(got, done, p, nodeIP, local);
    forall i
      ensures ProgrammedAt(got, s', p, i)
    {
      assert ProgrammedAt(got, done, p, i);
    }
    SaysPassed(got, s', p, nodeIP, local);
  }

  lemma PassEnds(s: State, got: State, done: State, s': State, p: Pass, seen: set<CpeName>, nodeIP: string,
                 local: Identifier -> bool)
    requires Inv(s, nodeIP, local) && p.name in s.queue
    requires got == s.(store := got.store, queue := got.queue, used := got.used)
    requires Moved(s.store, s.used, got.store, got.used, seen) && seen <= p.touched
    requires Passed(got, done, p, nodeIP, local) && s' == done.(queue := s'.queue)
    requires s.queue - {p.name} + p.touched <= s'.queue && (p.err ==> p.name in s'.queue) && GoodStore(s', nodeIP, local)
    ensures Inv(s', nodeIP, local) && PassStep(s, s', p, nodeIP, local)
  {
    Requeued(got, done, s', p, nodeIP, local);
    PassedSays(got, s', p, nodeIP, local);
    InvSays(s, nodeIP, local);
    MovedWider(s.store, s.used, got.store, got.used, seen, p.touched);
    LiftedPass(s, got, s', p, nodeIP, local);
    SaysPass(s, s', p, nodeIP, local);
    PassKeepsInv(s, s', p, nodeIP, local);
  }

  lemma NothingListed(s: State, got: State, done: State, s': State, name: CpeName, seen: set<CpeName>, touched: set<CpeName>,
                      nodeIP: string, local: Identifier -> bool)
    requires Inv(s, nodeIP, local)
    requires got == s.(store := got.store, queue := got.queue, used := got.used) && OnlyEnvironment(got, done)
    requires Moved(s.store, s.used, got.store, got.used, seen) && seen <= touched
    requires Moved(got.store, got.used, done.store, done.used, touched) && s' == done.(queue := s'.queue)
    requires s.queue + touched <= s'.queue && GoodStore(s', nodeIP, local)
    ensures Inv(s', nodeIP, local)
  {
    MovedTransitive(s.store, s.used, got.store, got.used, done.store, done.used, seen, touched);
    EnvironmentKeepsInv(s, s', touched, nodeIP, local);
  }

  lemma NoIdsOfNone(pods: seq<Pod>)
    ensures pods == [] <==> IdsOf(pods) == {}
  {
    if pods != [] {
      assert IdOf(pods[0]) in IdsOf(pods);
    }
  }

  lemma IdsOfAppend(a: seq<Pod>, b: seq<Pod>)
    ensures IdsOf(a + b) == IdsOf(a) + IdsOf(b)
  {
  }

  /** `GetPodListToBeCleanedUp`: recorded pods that are neither targets nor of a targeted identifier. */
  method PodsToBeCleanedUp(recorded: seq<Pod>, targetPods: seq<Pod>, targets: set<Identifier>) returns (cleanup: seq<Pod>)
    requires targets == IdsOf(targetPods)
    ensures IdsOf(cleanup) == IdsOf(recorded) - targets
    ensures forall q :: q in cleanup <==> q in recorded && q !in targetPods && IdOf(q) !in targets
  {
    cleanup := [];
    for k := 0 to |recorded|
      invariant forall q :: q in cleanup <==> q in recorded[..k] && q !in targetPods && IdOf(q) !in targets
    {
      var q := recorded[k];
      assert recorded[..k + 1] == recorded[..k] + [q];
      if q !in targetPods && IdOf(q) !in targets {
        cleanup := cleanup + [q];
      }
    }
    assert recorded[..|recorded|] == recorded;
    CleanupIds(recorded, targetPods, targets, cleanup);
  }

  lemma CleanupIds(recorded: seq<Pod>, targetPods: seq<Pod>, targets: set<Identifier>, cleanup: seq<Pod>)
    requires targets == IdsOf(targetPods)
    requires forall q :: q in cleanup <==> q in recorded && q !in targetPods && IdOf(q) !in targets
    ensures IdsOf(cleanup) == IdsOf(recorded) - targets
  {
    forall i | i in IdsOf(recorded) - targets
      ensures i in IdsOf(cleanup)
    {
      var q :| q in recorded && IdOf(q) == i;
      assert q in cleanup;
    }
  }

  /** The listing's items in some order. */
  method Enumerate(names: set<CpeName>) returns (order: seq<CpeName>)
    ensures NoDuplicates(order) && Elements(order) == names
  {
    order := [];
    var rest := names;
    while rest != {}
      invariant NoDuplicates(order) && rest <= names && Elements(order) == names - rest
      decreases rest
    {
      var n :| n in rest;
      assert n !in Elements(order) && Elements(order + [n]) == Elements(order) + {n};
      order := order + [n];
      rest := rest - {n};
    }
  }

  function ListedLocally(snap: map<CpeName, Cpe>, names: set<CpeName>, nodeIP: string): set<Identifier> {
    set n, q | n in names && n in snap && q in LocalPods(snap[n], nodeIP) :: IdOf(q)
  }

  function PodsListed(snap: map<CpeName, Cpe>, names: set<CpeName>, nodeIP: string): set<Pod> {
    set n, q | n in names && n in snap && q in LocalPods(snap[n], nodeIP) :: q
  }

  predicate ListedBySome(snap: map<CpeName, Cpe>, names: set<CpeName>, i: Identifier) {
    exists n | n in names && n in snap :: Lists(snap[n], i)
  }

  lemma IdsOfConcat(a: seq<Pod>, b: seq<Pod>)
    ensures IdsOf(a + b) == IdsOf(a) + set q | q in Elements(b) :: IdOf(q)
  {
  }

  lemma ListedOneMore(snap: map<CpeName, Cpe>, names: set<CpeName>, n: CpeName, nodeIP: string)
    requires n in snap
    ensures ListedLocally(snap, names + {n}, nodeIP)
         == ListedLocally(snap, names, nodeIP) + set q | q in LocalPods(snap[n], nodeIP) :: IdOf(q)
    ensures PodsListed(snap, names + {n}, nodeIP) == PodsListed(snap, names, nodeIP) + LocalPods(snap[n], nodeIP)
    ensures forall i :: ListedBySome(snap, names + {n}, i) <==> ListedBySome(snap, names, i) || Lists(snap[n], i)
  {
  }

  lemma SlicesListing(store: map<CpeName, Cpe>, parent: string, nodeIP: string)
    ensures ListedLocally(store, SlicesOf(store, parent), nodeIP) == LocalIds(store, parent, nodeIP)
    ensures PodsListed(store, SlicesOf(store, parent), nodeIP) == LocalPodsOf(store, parent, nodeIP)
    ensures forall i :: ListedBySome(store, SlicesOf(store, parent), i) <==> Selects(store, parent, i)
    ensures SlicesOf(store, parent) == {} ==> forall i :: !Selects(store, parent, i)
  {
    forall i
      ensures ListedBySome(store, SlicesOf(store, parent), i) <==> Selects(store, parent, i)
    {
    }
  }

  lemma PodsOneMore(cpe: Cpe, k: nat, nodeIP: string)
    requires k < |cpe.pods|
    ensures LocalPods(cpe.(pods := cpe.pods[..k + 1]), nodeIP)
         == LocalPods(cpe.(pods := cpe.pods[..k]), nodeIP) + if cpe.pods[k].hostIP == nodeIP then {cpe.pods[k].pod} else {}
    ensures forall i :: Lists(cpe.(pods := cpe.pods[..k + 1]), i)
              <==> Lists(cpe.(pods := cpe.pods[..k]), i) || i == IdOf(cpe.pods[k].pod)
  {
    assert cpe.pods[..k + 1] == cpe.pods[..k] + [cpe.pods[k]];
    forall i
      ensures Lists(cpe.(pods := cpe.pods[..k + 1]), i)
              <==> Lists(cpe.(pods := cpe.pods[..k]), i) || i == IdOf(cpe.pods[k].pod)
    {
    }
  }

  lemma ClearedHoldsNothing(skip: Option<string>, store: map<CpeName, Cpe>)
    ensures AreRulesOf(([], []), Remaining({}, skip) * store.Keys, store)
  {
    assert RulesOf([], store) == ([], []);
    assert Elements<CpeName>([]) == Remaining({}, skip) * store.Keys;
    assert NoDuplicates<CpeName>([]);
  }

  /** `order` lists the existing slices among the first `k` names, and `rules` are theirs, if none changed. */
  ghost predicate ReadTo(names: seq<CpeName>, k: nat, order: seq<CpeName>, rules: RulePair,
                         store: map<CpeName, Cpe>, touched: set<CpeName>, skip: Option<string>) {
    && k <= |names| && NoDuplicates(names) && NoDuplicates(order) && Elements(order) <= Elements(names[..k])
    && (Elements(names) * touched == {} ==>
          rules == RulesOf(order, store) && Elements(order) == Remaining(Elements(names[..k]), skip) * store.Keys)
  }

  lemma ReadSkips(names: seq<CpeName>, k: nat, order: seq<CpeName>, rules: RulePair,
                  store: map<CpeName, Cpe>, touched: set<CpeName>, skip: Option<string>)
    requires ReadTo(names, k, order, rules, store, touched, skip) && k < |names| && skip == Some(ParentOf(names[k]))
    ensures ReadTo(names, k + 1, order, rules, store, touched, skip)
  {
    assert names[..k + 1] == names[..k] + [names[k]];
    assert Elements(names[..k + 1]) == Elements(names[..k]) + {names[k]};
    assert Remaining(Elements(names[..k + 1]), skip) == Remaining(Elements(names[..k]), skip);
  }

  lemma ReadOneMore(names: seq<CpeName>, k: nat, order: seq<CpeName>, rules: RulePair,
                    store: map<CpeName, Cpe>, touched: set<CpeName>, skip: Option<string>)
    requires ReadTo(names, k, order, rules, store, touched, skip) && k < |names| && skip != Some(ParentOf(names[k]))
    ensures names[k] !in store ==> ReadTo(names, k + 1, order, rules, store, touched, skip)
    ensures names[k] in store ==>
              ReadTo(names, k + 1, order + [names[k]],
                     (rules.0 + IngressRules(store[names[k]]), rules.1 + AllEgressRules(store[names[k]])), store, touched, skip)
  {
    var n := names[k];
    assert names[..k + 1] == names[..k] + [n];
    assert Elements(names[..k + 1]) == Elements(names[..k]) + {n} && n !in Elements(names[..k]);
    assert Remaining(Elements(names[..k + 1]), skip) == Remaining(Elements(names[..k]), skip) + {n};
    assert (order + [n])[..|order|] == order;
    assert Elements(order + [n]) == Elements(order) + {n};
    assert forall m | m in order :: m in Elements(order);
  }

  lemma ReadStays(names: seq<CpeName>, k: nat, order: seq<CpeName>, rules: RulePair,
                  store: map<CpeName, Cpe>, store': map<CpeName, Cpe>, used: set<CpeName>, used': set<CpeName>,
                  touched: set<CpeName>, touched': set<CpeName>, skip: Option<string>)
    requires ReadTo(names, k, order, rules, store, touched, skip) && touched <= touched'
    requires Moved(store, used, store', used', touched')
    ensures ReadTo(names, k, order, rules, store', touched', skip)
  {
    MovedSays(store, used, store', used', touched');
    if Elements(names) * touched' == {} {
      assert Elements(names) * touched == {};
      forall n | n in names
        ensures n in store <==> n in store'
        ensures n in store ==> store[n] == store'[n]
      {
        assert n in touched' ==> n in Elements(names) * touched';
      }
      assert forall n | n in order :: n in Elements(order);
      RulesOfUntouched(order, store, store');
      assert Remaining(Elements(names[..k]), skip) * store.Keys == Remaining(Elements(names[..k]), skip) * store'.Keys;
    }
  }
}
