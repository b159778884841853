/** A pass without any error after which nothing is queued and yet a kernel map still holds an entry of a deleted slice. */
module ClusterLeftovers {
  import opened Basics
  import opened PolicyTypes
  import opened TrieEncoding
  import opened ShadowMap
  import opened ClusterMaps
  import opened ClusterState
  import opened ClusterInvariant
  import opened ClusterPass

  /** Refreshed towards the table `none` of no rules at all. */
  function Cleared(none: MapContents): Side {
    Side([], none, none, [], none)
  }

  /** One rule's entry beside those of no rules, written without an error. */
  function OneEntry(rule: FirewallRule, none: MapContents, k: seq<Byte>, v: seq<Byte>): KernelMaps {
    KernelMaps(Side([rule], none[k := v], none, [Call(k, Put(v), false)], none[k := v]), Cleared(none), POLICIES_APPLIED)
  }

  /** Refreshed towards no rules; the delete call for the entry failed. */
  function EntryLeft(none: MapContents, k: seq<Byte>, v: seq<Byte>): KernelMaps {
    KernelMaps(Side([], none, none[k := v], [Call(k, Remove, true)], none[k := v]), Cleared(none), DEFAULT_ALLOW)
  }

  /** The parent's only slice `n`, which selected the pod, is gone, and its event is queued. */
  function Deleted(n: CpeName, pod: Pod, maps: KernelMaps): State {
    var i := IdOf(pod);
    State(map[], {n}, {n}, map[i := [n]], map[n := [pod]], map[ParentOf(n) := {i}], {i}, map[i := maps])
  }

  /** Nothing is remembered and nothing is queued. */
  function CleanedUp(n: CpeName, pod: Pod, maps: KernelMaps): State {
    State(map[], {}, {n}, map[], map[], map[], {IdOf(pod)}, map[IdOf(pod) := maps])
  }

  function DeletePass(n: CpeName, pod: Pod): Pass {
    Pass.Pass(n, true, false, map[], {n}, {n}, {}, {IdOf(pod)}, {}, {})
  }

  lemma EntryLeftIsWritten(none: MapContents, k: seq<Byte>, v: seq<Byte>)
    requires k !in none
    ensures var maps := EntryLeft(none, k, v);
            IsWritten(maps) && HaveFailedDelete(maps) && !AreClean(maps)
  {
    var side, cleared := EntryLeft(none, k, v).ingress, Cleared(none);
    assert side.calls[0] in side.calls;
    assert RemoveKeys(side.calls) == FailedRemoves(side.calls) == {k};
    assert PutKeys(side.calls) == FailedPuts(side.calls) == {} == Changed(side.before, side.target);
    assert ShadowMap.Stale(side.before, side.target) == {k};
    assert side.table == WithLeftovers(side.before, side.target, {k});
    assert k in side.table;
    assert Changed(none, none) == {} == ShadowMap.Stale(none, none);
    assert WithLeftovers(cleared.before, cleared.target, {}) == none;
  }

  lemma NothingDemanded(names: set<CpeName>, store: map<CpeName, Cpe>)
    requires names == {}
    ensures AreRulesOf(([], []), names, store)
  {
    assert NoDuplicates<CpeName>([]) && Elements<CpeName>([]) == names && RulesOf([], store) == ([], []);
  }

  lemma DeletedIsValid(n: CpeName, pod: Pod, maps: KernelMaps, nodeIP: string, local: Identifier -> bool)
    ensures Inv(Deleted(n, pod, maps), nodeIP, local)
  {
    var s, i := Deleted(n, pod, maps), IdOf(pod);
    assert pod in s.podsOf[n] && i in PodIds(s.podsOf, n) && Reaches(s, n, i);
    assert forall m :: GoodSliceAt(s.store, s.used, nodeIP, local, m);
    assert forall j :: GoodListAt(s.cpesOf, s.used, j);
    forall j, p
      ensures InvAt(s, nodeIP, local, j, p)
    {
      assert SlicesOf(s.store, p) == {};
      assert Names(s.cpesOf, j) == if j == i then {n} else {};
    }
  }

  lemma DeleteIsListed(n: CpeName, pod: Pod, maps: KernelMaps, maps': KernelMaps, nodeIP: string, local: Identifier -> bool)
    ensures Listing(Deleted(n, pod, maps), CleanedUp(n, pod, maps'), DeletePass(n, pod), nodeIP, local)
    ensures Queued(Deleted(n, pod, maps), CleanedUp(n, pod, maps'), DeletePass(n, pod), nodeIP, local)
  {
    var s, s', p := Deleted(n, pod, maps), CleanedUp(n, pod, maps'), DeletePass(n, pod);
    assert forall m :: MovedAt(s.store, s.used, p.snap, p.snapUsed, p.touched, m);
    assert forall m :: GoodSliceAt(s'.store, s'.used, nodeIP, local, m);
    assert SlicesOf(p.snap, ParentOf(n)) == {};
    assert pod in s.podsOf[n];
    assert Tracking(s.podsOf, p.slices + {p.name}) == {IdOf(pod)};
  }

  lemma DeleteIsBooked(n: CpeName, pod: Pod, maps: KernelMaps, maps': KernelMaps)
    ensures Booked(Deleted(n, pod, maps), CleanedUp(n, pod, maps'), DeletePass(n, pod))
  {
    var s, s', p := Deleted(n, pod, maps), CleanedUp(n, pod, maps'), DeletePass(n, pod);
    assert forall j :: GoodListAt(s'.cpesOf, s'.used, j);
    forall j
      ensures Names(s'.cpesOf, j) == NamesAfter(s, p, j)
    {
      assert Names(s.cpesOf, j) == if j == IdOf(pod) then {n} else {};
    }
  }

  /**
   * From a valid state, a pass for the deleted slice in which no call reports an error leaves an empty queue, and the
   * identifier's ingress map still has the entry, although no slice demands anything.
   */
  lemma QuietButInexact(n: CpeName, pod: Pod, rule: FirewallRule, none: MapContents, k: seq<Byte>, v: seq<Byte>,
                        nodeIP: string, local: Identifier -> bool)
    requires k !in none
    ensures var s, s', i := Deleted(n, pod, OneEntry(rule, none, k, v)), CleanedUp(n, pod, EntryLeft(none, k, v)), IdOf(pod);
            && Inv(s, nodeIP, local) && PassStep(s, s', DeletePass(n, pod), nodeIP, local) && Inv(s', nodeIP, local)
            && s'.queue == {} && IsRefreshed(s', i) && LeftBehind(s', i) && !Exact(s', i)
            && WantedSlices(s'.store, i) == {} && k in s'.kernel[i].ingress.table
  {
    var s, s' := Deleted(n, pod, OneEntry(rule, none, k, v)), CleanedUp(n, pod, EntryLeft(none, k, v));
    var p, i := DeletePass(n, pod), IdOf(pod);
    DeletedIsValid(n, pod, OneEntry(rule, none, k, v), nodeIP, local);
    DeleteIsListed(n, pod, OneEntry(rule, none, k, v), EntryLeft(none, k, v), nodeIP, local);
    DeleteIsBooked(n, pod, OneEntry(rule, none, k, v), EntryLeft(none, k, v));
    EntryLeftIsWritten(none, k, v);
    NothingDemanded(ClusterPass.Remaining(Names(s'.cpesOf, i), Some(ParentOf(n))) * s'.store.Keys, s'.store);
    NothingDemanded(WantedSlices(s'.store, i), s'.store);
    forall j
      ensures ProgrammedAt(s, s', p, j)
    {
    }
    SaysPass(s, s', p, nodeIP, local);
    PassKeepsInv(s, s', p, nodeIP, local);
  }
}
