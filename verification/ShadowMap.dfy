/** The in-memory shadow of a kernel map, refreshed entry by entry with system calls that may fail. */
module ShadowMap {
  import opened Basics

  // ----- system calls

  datatype Kind<V> = Put(value: V) | Remove

  /** One map system call and how it ended. */
  datatype Call<K, V> = Call(key: K, kind: Kind<V>, failed: bool)

  /** A failing call changes nothing. */
  function After<K, V>(m: map<K, V>, c: Call<K, V>): map<K, V> {
    if c.failed then m
    else match c.kind
      case Put(v) => m[c.key := v]
      case Remove => m - {c.key}
  }

  ghost function PutKeys<K, V>(calls: seq<Call<K, V>>): set<K> {
    set c | c in calls && c.kind.Put? :: c.key
  }

  ghost function RemoveKeys<K, V>(calls: seq<Call<K, V>>): set<K> {
    set c | c in calls && c.kind.Remove? :: c.key
  }

  ghost function FailedPuts<K, V>(calls: seq<Call<K, V>>): set<K> {
    set c | c in calls && c.kind.Put? && c.failed :: c.key
  }

  ghost function FailedRemoves<K, V>(calls: seq<Call<K, V>>): set<K> {
    set c | c in calls && c.kind.Remove? && c.failed :: c.key
  }

  lemma OneCallMore<K, V>(calls: seq<Call<K, V>>, c: Call<K, V>)
    ensures PutKeys(calls + [c]) == PutKeys(calls) + if c.kind.Put? then {c.key} else {}
    ensures RemoveKeys(calls + [c]) == RemoveKeys(calls) + if c.kind.Remove? then {c.key} else {}
    ensures FailedPuts(calls + [c]) == FailedPuts(calls) + if c.kind.Put? && c.failed then {c.key} else {}
    ensures FailedRemoves(calls + [c]) == FailedRemoves(calls) + if c.kind.Remove? && c.failed then {c.key} else {}
  {
  }

  ghost predicate StepAt<K, V>(seen: seq<map<K, V>>, calls: seq<Call<K, V>>, n: nat) {
    n < |calls| && n + 1 < |seen| ==> seen[n + 1] == After(seen[n], calls[n])
  }

  lemma StepsKept<K, V>(seen: seq<map<K, V>>, calls: seq<Call<K, V>>, c: Call<K, V>)
    requires |seen| == |calls| + 1 && forall n :: StepAt(seen, calls, n)
    ensures forall n :: StepAt(seen + [After(seen[|calls|], c)], calls + [c], n)
  {
    forall n
      ensures StepAt(seen + [After(seen[|calls|], c)], calls + [c], n)
    {
      assert StepAt(seen, calls, n);
    }
  }

  /** The kernel's map. Only its own methods make calls, and every call is recorded. */
  class KernelMap<K(==), V(==)> {
    var entries: map<K, V>
    ghost var calls: seq<Call<K, V>>
    ghost var seen: seq<map<K, V>>  // seen[n] is the map before call n
    ghost var failedReads: nat

    ghost predicate Valid()
      reads this
    {
      |seen| == |calls| + 1 && seen[|calls|] == entries && forall n :: StepAt(seen, calls, n)
    }

    constructor (entries: map<K, V>)
      ensures Valid() && this.entries == entries && calls == [] && failedReads == 0
    {
      this.entries, calls, seen, failedReads := entries, [], [entries], 0;
    }

    method UpdateMapEntry(k: K, v: V) returns (err: bool)
      requires Valid()
      modifies `entries, `calls, `seen
      ensures Valid() && calls == old(calls) + [Call(k, Put(v), err)] && seen == old(seen) + [entries]
      ensures entries == After(old(entries), Call(k, Put(v), err))
    {
      err := *;
      if !err {
        entries := entries[k := v];
      }
      StepsKept(seen, calls, Call(k, Put(v), err));
      assert entries == After(seen[|calls|], Call(k, Put(v), err));
      calls, seen := calls + [Call(k, Put(v), err)], seen + [entries];
    }

    method DeleteMapEntry(k: K) returns (err: bool)
      requires Valid()
      modifies `entries, `calls, `seen
      ensures Valid() && calls == old(calls) + [Call(k, Remove, err)] && seen == old(seen) + [entries]
      ensures entries == After(old(entries), Call(k, Remove, err))
    {
      err := *;
      if !err {
        entries := entries - {k};
      }
      StepsKept(seen, calls, Call(k, Remove, err));
      assert entries == After(seen[|calls|], Call(k, Remove, err));
      calls, seen := calls + [Call(k, Remove, err)], seen + [entries];
    }

    /** The key walk, which may fail. */
    method GetAllMapKeys() returns (keys: Option<set<K>>)
      modifies `failedReads
      ensures keys == if failedReads == old(failedReads) then Some(entries.Keys) else None
      ensures old(failedReads) <= failedReads
    {
      var fails: bool := *;
      if fails {
        failedReads := failedReads + 1;
        return None;
      }
      return Some(entries.Keys);
    }

    /** Reads one value, which may fail. */
    method GetMapEntry(k: K) returns (value: Option<V>)
      requires k in entries
      modifies `failedReads
      ensures value == if failedReads == old(failedReads) then Some(entries[k]) else None
      ensures old(failedReads) <= failedReads
    {
      var fails: bool := *;
      if fails {
        failedReads := failedReads + 1;
        return None;
      }
      return Some(entries[k]);
    }
  }

  // ----- what a refresh is

  ghost predicate CoversAt<K, V>(m: map<K, V>, before: map<K, V>, target: map<K, V>, k: K) {
    && (k in before && k in target ==> k in m)
    && (k in m ==> (k in before && m[k] == before[k]) || (k in target && m[k] == target[k]))
  }

  /** A kernel map seen during a refresh keeps every entry that both the old and the new contents have. */
  ghost predicate Covers<K(!new), V>(m: map<K, V>, before: map<K, V>, target: map<K, V>) {
    forall k :: CoversAt(m, before, target, k)
  }

  /** All maps from the `n`th on keep the common entries. */
  ghost predicate SeenCovers<K(!new), V>(seen: seq<map<K, V>>, n: nat, before: map<K, V>, target: map<K, V>) {
    forall i | n <= i < |seen| :: Covers(seen[i], before, target)
  }

  /** The entries of `keys` taken from the target, all others from before. */
  function Written<K, V>(before: map<K, V>, target: map<K, V>, keys: set<K>): map<K, V> {
    map k | k in before.Keys + (target.Keys * keys) :: if k in target && k in keys then target[k] else before[k]
  }

  /** The target, plus the stale entries in `kept`. */
  function WithLeftovers<K, V>(before: map<K, V>, target: map<K, V>, kept: set<K>): map<K, V> {
    map k | k in target.Keys + (before.Keys * kept) :: if k in target then target[k] else before[k]
  }

  function Changed<K, V(==)>(before: map<K, V>, target: map<K, V>): set<K> {
    set k | k in target && (k !in before || before[k] != target[k])
  }

  function Stale<K, V>(before: map<K, V>, target: map<K, V>): set<K> {
    before.Keys - target.Keys
  }

  /**
   * A refresh from `before` to `after` by the calls made: the error is a failed update, after which nothing is
   * deleted; otherwise every change is written, every deletion attempted, and exactly the failed ones remain.
   */
  ghost predicate Refreshed<K, V>(before: map<K, V>, target: map<K, V>, calls: seq<Call<K, V>>, err: bool, after: map<K, V>) {
    && (err <==> FailedPuts(calls) != {})
    && PutKeys(calls) <= Changed(before, target)
    && (if err then RemoveKeys(calls) == {} && after == Written(before, target, PutKeys(calls) - FailedPuts(calls))
        else && PutKeys(calls) == Changed(before, target) && RemoveKeys(calls) == Stale(before, target)
             && after == WithLeftovers(before, target, FailedRemoves(calls)))
  }

  ghost predicate NoFailure<K, V>(calls: seq<Call<K, V>>) {
    forall c | c in calls :: !c.failed
  }

  /** The fate of one key: entries of the target are there unless their update failed, others go if their delete succeeded. */
  lemma RefreshMeans<K, V>(before: map<K, V>, target: map<K, V>, calls: seq<Call<K, V>>, err: bool, after: map<K, V>, k: K)
    requires Refreshed(before, target, calls, err, after)
    ensures k in target && k in before && before[k] == target[k] ==>
              k in after && after[k] == target[k] && forall c | c in calls :: c.key != k
    ensures !err && k in target ==> k in after && after[k] == target[k]
    ensures !err && k !in target ==> (k in after <==> k in before && exists c | c in calls :: c.key == k && c.failed)
    ensures err ==> forall c | c in calls :: c.kind.Put?
    ensures err && !(exists c | c in calls :: c.key == k) ==>
              (k in after <==> k in before) && (k in before ==> after[k] == before[k])
  {
    forall c | c in calls
      ensures c.kind.Put? ==> c.key in PutKeys(calls)
      ensures c.kind.Remove? ==> c.key in RemoveKeys(calls)
    {
    }
  }

  /** Without a failing call the refresh succeeds and leaves the target. */
  lemma CleanRefresh<K, V>(before: map<K, V>, target: map<K, V>, calls: seq<Call<K, V>>, err: bool, after: map<K, V>)
    requires Refreshed(before, target, calls, err, after)
    ensures NoFailure(calls) ==> !err && after == target
    ensures !err && after == target ==> FailedRemoves(calls) == {}
  {
    if NoFailure(calls) {
      assert FailedPuts(calls) == {} && FailedRemoves(calls) == {};
    }
    if k :| k in FailedRemoves(calls) && !err {
      assert k in RemoveKeys(calls) && k in after && k !in target;
    }
  }

  /**
   * What a refresh could not delete, and what it left because an update failed first, the next refresh without a
   * failing update tries to delete again; it is then gone unless that call failed too.
   */
  lemma FailedDeletesAreRetried<K, V>(before: map<K, V>, target: map<K, V>, calls: seq<Call<K, V>>, err: bool, between: map<K, V>,
                                            target': map<K, V>, calls': seq<Call<K, V>>, err': bool, after: map<K, V>, k: K)
    requires Refreshed(before, target, calls, err, between) && Refreshed(between, target', calls', err', after)
    requires k in Stale(before, target) && (err || k in FailedRemoves(calls))
    ensures k in between
    ensures !err' && k !in target' ==> k in RemoveKeys(calls') && (k in after <==> k in FailedRemoves(calls'))
  {
  }

  // ----- the two loops of a refresh

  /** Updates only so far, all of them successful. */
  ghost predicate Putting<K(!new), V>(before: map<K, V>, target: map<K, V>, calls: seq<Call<K, V>>, contents: map<K, V>) {
    && RemoveKeys(calls) == FailedRemoves(calls) == FailedPuts(calls) == {} && PutKeys(calls) <= Changed(before, target)
    && contents == Written(before, target, PutKeys(calls)) && Covers(contents, before, target)
  }

  lemma NothingPut<K(!new), V>(before: map<K, V>, target: map<K, V>)
    ensures Putting(before, target, [], before)
  {
    assert forall k :: CoversAt(before, before, target, k);
    assert Written(before, target, {}) == before;
  }

  lemma WriteOne<K(!new), V>(before: map<K, V>, target: map<K, V>, keys: set<K>, k: K)
    requires k in target
    ensures Written(before, target, keys)[k := target[k]] == Written(before, target, keys + {k})
    ensures Covers(Written(before, target, keys + {k}), before, target)
  {
    var m := Written(before, target, keys + {k});
    assert forall j :: CoversAt(m, before, target, j);
  }

  lemma PutOne<K(!new), V>(before: map<K, V>, target: map<K, V>, calls: seq<Call<K, V>>, contents: map<K, V>, k: K)
    requires Putting(before, target, calls, contents) && k in Changed(before, target)
    ensures var more := calls + [Call(k, Put(target[k]), false)];
            Putting(before, target, more, contents[k := target[k]]) && PutKeys(more) == PutKeys(calls) + {k}
  {
    OneCallMore(calls, Call(k, Put(target[k]), false));
    WriteOne(before, target, PutKeys(calls), k);
  }

  lemma PutFails<K(!new), V>(before: map<K, V>, target: map<K, V>, calls: seq<Call<K, V>>, contents: map<K, V>, k: K)
    requires Putting(before, target, calls, contents) && k in Changed(before, target) && k !in PutKeys(calls)
    ensures Refreshed(before, target, calls + [Call(k, Put(target[k]), true)], true, contents)
  {
    var more := calls + [Call(k, Put(target[k]), true)];
    OneCallMore(calls, Call(k, Put(target[k]), true));
    assert PutKeys(more) - FailedPuts(more) == PutKeys(calls);
  }

  /** All updates done, some of the stale keys tried. */
  ghost predicate Deleting<K(!new), V>(before: map<K, V>, target: map<K, V>, calls: seq<Call<K, V>>, contents: map<K, V>) {
    && FailedPuts(calls) == {} && PutKeys(calls) == Changed(before, target)
    && FailedRemoves(calls) <= RemoveKeys(calls) <= Stale(before, target)
    && contents == WithLeftovers(before, target, Remaining(before, target, calls)) && Covers(contents, before, target)
  }

  /** The stale keys not tried yet or tried in vain. */
  ghost function Remaining<K, V>(before: map<K, V>, target: map<K, V>, calls: seq<Call<K, V>>): set<K> {
    Stale(before, target) - RemoveKeys(calls) + FailedRemoves(calls)
  }

  lemma AllPut<K(!new), V>(before: map<K, V>, target: map<K, V>, calls: seq<Call<K, V>>, contents: map<K, V>)
    requires Putting(before, target, calls, contents) && PutKeys(calls) == Changed(before, target)
    ensures Deleting(before, target, calls, contents)
  {
    assert Remaining(before, target, calls) == Stale(before, target);
    assert Written(before, target, Changed(before, target)) == WithLeftovers(before, target, Stale(before, target));
  }

  lemma DropOne<K(!new), V>(before: map<K, V>, target: map<K, V>, kept: set<K>, k: K)
    requires k !in target
    ensures WithLeftovers(before, target, kept) - {k} == WithLeftovers(before, target, kept - {k})
    ensures Covers(WithLeftovers(before, target, kept - {k}), before, target)
  {
    var m := WithLeftovers(before, target, kept - {k});
    assert forall j :: CoversAt(m, before, target, j);
  }

  lemma RemoveOne<K(!new), V>(before: map<K, V>, target: map<K, V>, calls: seq<Call<K, V>>, contents: map<K, V>, k: K,
                              failed: bool)
    requires Deleting(before, target, calls, contents) && k in Stale(before, target) && k !in RemoveKeys(calls)
    ensures var more := calls + [Call(k, Remove, failed)];
            && Deleting(before, target, more, if failed then contents else contents - {k})
            && RemoveKeys(more) == RemoveKeys(calls) + {k}
  {
    var more := calls + [Call(k, Remove, failed)];
    OneCallMore(calls, Call(k, Remove, failed));
    if failed {
      assert Remaining(before, target, more) == Remaining(before, target, calls);
    } else {
      assert Remaining(before, target, more) == Remaining(before, target, calls) - {k};
      DropOne(before, target, Remaining(before, target, calls), k);
    }
  }

  lemma NothingTried<K(!new), V>(before: map<K, V>, target: map<K, V>, calls: seq<Call<K, V>>, contents: map<K, V>)
    requires Deleting(before, target, calls, contents) && RemoveKeys(calls) == {}
    ensures contents.Keys - target.Keys == Stale(before, target)
  {
    assert Remaining(before, target, calls) == Stale(before, target);
  }

  lemma AllTried<K(!new), V>(before: map<K, V>, target: map<K, V>, calls: seq<Call<K, V>>, contents: map<K, V>)
    requires Deleting(before, target, calls, contents) && RemoveKeys(calls) == Stale(before, target)
    ensures Refreshed(before, target, calls, false, contents)
  {
    assert Remaining(before, target, calls) == FailedRemoves(calls);
  }

  class InMemoryBpfMap<K(!new,==), V(==)> {
    const bpfMap: KernelMap<K, V>
    var contents: map<K, V>

    ghost predicate Valid()
      reads this, bpfMap
    {
      bpfMap.Valid() && contents == bpfMap.entries
    }

    constructor (bpfMap: KernelMap<K, V>)
      ensures this.bpfMap == bpfMap && contents == map[]
    {
      this.bpfMap, contents := bpfMap, map[];
    }

    /** The shadow as cached by an earlier call. */
    constructor Cached(bpfMap: KernelMap<K, V>, contents: map<K, V>)
      ensures this.bpfMap == bpfMap && this.contents == contents
    {
      this.bpfMap, this.contents := bpfMap, contents;
    }

    /** `loadFromKernel`: reads every entry, and gives up at the first failing read. */
    method LoadFromKernel() returns (err: bool)
      requires bpfMap.Valid()
      modifies this, bpfMap`failedReads
      ensures err <==> bpfMap.failedReads != old(bpfMap.failedReads)
      ensures !err ==> Valid()
    {
      contents := map[];
      var walked := bpfMap.GetAllMapKeys();
      if walked.None? {
        return true;
      }
      var keys := walked.value;
      while keys != {}
        invariant keys <= bpfMap.entries.Keys && bpfMap.failedReads == old(bpfMap.failedReads)
        invariant contents == map k | k in bpfMap.entries.Keys - keys :: bpfMap.entries[k]
        decreases keys
      {
        var k :| k in keys;
        var value := bpfMap.GetMapEntry(k);
        if value.None? {
          return true;
        }
        contents := contents[k := value.value];
        keys := keys - {k};
      }
      return false;
    }

    /** `BulkRefresh`: adds and changes first, then deletes; a failed update stops it, a failed delete does not. */
    method BulkRefresh(target: map<K, V>) returns (err: bool, calls: seq<Call<K, V>>)
      requires Valid()
      modifies this, bpfMap
      ensures Valid() && bpfMap.calls == old(bpfMap.calls) + calls && bpfMap.failedReads == old(bpfMap.failedReads)
      ensures Refreshed(old(contents), target, calls, err, contents)
      ensures SeenCovers(bpfMap.seen, |old(bpfMap.calls)|, old(contents), target)
    {
      err, calls := AddAll(target);
      if !err {
        AllPut(old(contents), target, calls, contents);
        calls := DeleteAll(old(contents), target, old(bpfMap.calls), calls);
      }
    }

    method AddAll(target: map<K, V>) returns (err: bool, calls: seq<Call<K, V>>)
      requires Valid()
      modifies this, bpfMap
      ensures Valid() && bpfMap.calls == old(bpfMap.calls) + calls && bpfMap.failedReads == old(bpfMap.failedReads)
      ensures SeenCovers(bpfMap.seen, |old(bpfMap.calls)|, old(contents), target)
      ensures if err then Refreshed(old(contents), target, calls, true, contents)
              else Putting(old(contents), target, calls, contents) && PutKeys(calls) == Changed(old(contents), target)
    {
      ghost var before := contents;
      calls := [];
      var toAdd := Changed(contents, target);
      NothingPut(before, target);
      var rest := toAdd;
      while rest != {}
        invariant Valid() && rest <= toAdd && SeenCovers(bpfMap.seen, |old(bpfMap.calls)|, before, target)
        invariant bpfMap.calls == old(bpfMap.calls) + calls && bpfMap.failedReads == old(bpfMap.failedReads)
        invariant Putting(before, target, calls, contents) && PutKeys(calls) == toAdd - rest
        decreases rest
      {
        var k :| k in rest;
        err := bpfMap.UpdateMapEntry(k, target[k]);
        if err {
          PutFails(before, target, calls, contents, k);
          calls := calls + [Call(k, Put(target[k]), true)];
          return;
        }
        PutOne(before, target, calls, contents, k);
        calls := calls + [Call(k, Put(target[k]), false)];
        contents := contents[k := target[k]];
        rest := rest - {k};
      }
      err := false;
    }

    method DeleteAll(ghost before: map<K, V>, target: map<K, V>, ghost earlier: seq<Call<K, V>>, puts: seq<Call<K, V>>)
      returns (calls: seq<Call<K, V>>)
      requires Valid() && Deleting(before, target, puts, contents) && RemoveKeys(puts) == {}
      requires bpfMap.calls == earlier + puts && SeenCovers(bpfMap.seen, |earlier|, before, target)
      modifies this, bpfMap
      ensures Valid() && bpfMap.calls == earlier + calls && bpfMap.failedReads == old(bpfMap.failedReads)
      ensures Refreshed(before, target, calls, false, contents) && SeenCovers(bpfMap.seen, |earlier|, before, target)
    {
      calls := puts;
      var toDelete := contents.Keys - target.Keys;
      NothingTried(before, target, puts, contents);
      var rest := toDelete;
      while rest != {}
        invariant Valid() && rest <= toDelete && SeenCovers(bpfMap.seen, |earlier|, before, target)
        invariant bpfMap.calls == earlier + calls && bpfMap.failedReads == old(bpfMap.failedReads)
        invariant Deleting(before, target, calls, contents) && RemoveKeys(calls) == toDelete - rest
        decreases rest
      {
        var k :| k in rest;
        calls := DeleteOne(k, before, target, earlier, calls);
        rest := rest - {k};
      }
      AllTried(before, target, calls, contents);
    }

    /** A failed delete is passed over. */
    method DeleteOne(k: K, ghost before: map<K, V>, ghost target: map<K, V>, ghost earlier: seq<Call<K, V>>,
                     calls: seq<Call<K, V>>)
      returns (more: seq<Call<K, V>>)
      requires Valid() && Deleting(before, target, calls, contents) && k in Stale(before, target) && k !in RemoveKeys(calls)
      requires bpfMap.calls == earlier + calls && SeenCovers(bpfMap.seen, |earlier|, before, target)
      modifies this, bpfMap
      ensures Valid() && Deleting(before, target, more, contents) && RemoveKeys(more) == RemoveKeys(calls) + {k}
      ensures bpfMap.calls == earlier + more && SeenCovers(bpfMap.seen, |earlier|, before, target)
      ensures bpfMap.failedReads == old(bpfMap.failedReads)
    {
      var err := bpfMap.DeleteMapEntry(k);
      RemoveOne(before, target, calls, contents, k, err);
      more := calls + [Call(k, Remove, err)];
      if !err {
        contents := contents - {k};
      }
    }
  }

  /** `NewInMemoryBpfMap`: a shadow equal to the kernel map, or none exactly when a read failed. */
  method NewInMemoryBpfMap<K(!new,==), V(==)>(bpfMap: KernelMap<K, V>) returns (shadow: Option<InMemoryBpfMap<K, V>>)
    requires bpfMap.Valid()
    modifies bpfMap`failedReads
    ensures shadow.None? <==> bpfMap.failedReads != old(bpfMap.failedReads)
    ensures shadow.Some? ==> fresh(shadow.value) && shadow.value.bpfMap == bpfMap && shadow.value.Valid()
  {
    var m := new InMemoryBpfMap(bpfMap);
    var err := m.LoadFromKernel();
    return if err then None else Some(m);
  }
}
