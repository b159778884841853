/** The two-phase garbage collector of the flow table, with traffic going on between any two of its steps. */
module ConntrackCollector {
  import opened Basics
  import opened FlowEvaluation
  import opened KernelConntrack
  import opened Conntrack

  // ----- what every run guarantees of a deletion

  ghost predicate Untouched(log: seq<Event>, from: nat, to: nat, k: FlowKey)
    requires to <= |log|
  {
    forall i | from <= i < to :: !Touches(log[i], k)
  }

  /** An entry found older than a clock read was touched by no packet between the two. */
  lemma StaleMeansUntouched(log: seq<Event>, clock: nat, reread: nat, k: FlowKey)
    requires (forall m, n :: ReadSeenAt(log, m, n)) && forall m, n :: LaterAt(log, m, n)
    requires clock < reread < |log| && log[clock].ClockRead? && IsFind(log[reread], k)
    ensures log[reread].result.entry.lastSeen < log[clock].time ==> Untouched(log, clock, reread, k)
  {
    forall i | clock <= i < reread
      ensures Touches(log[i], k) ==> log[clock].time <= log[reread].result.entry.lastSeen
    {
      assert ReadSeenAt(log, i, reread) && LaterAt(log, clock, i);
    }
  }

  /**
   * In every run, what the collector deletes was in the table when hydrated, had no flow in the last listing, and was
   * touched by no packet between the last clock read and the last re-read. Neither the clock read nor the listing failed.
   */
  lemma DeletionsAreSafe(log: seq<Event>, table: Table, clock: nat, origin: map<FlowKey, nat>, history: seq<Table>, n: nat)
    requires Inv(log, table, clock, origin, history)
    ensures n < |log| && log[n].Collected? ==>
              var k, v := log[n].key, log[n].evidence;
              && v.hydrated < v.clock < v.listing < v.reread < n
              && k in history[v.hydrated]
              && log[v.clock].ClockRead? && log[v.listing].FlowsListed? && !Listed(k, log[v.listing].flows)
              && Calm(log, v.clock + 1, v.listing) && Calm(log, v.listing + 1, n)
              && k in history[v.reread] && history[v.reread][k].lastSeen < log[v.clock].time
              && Untouched(log, v.clock, v.reread, k)
              && history[n + 1] == history[n] - {k}
  {
    assert DeleteAt(log, n) && HistoryAt(log, history, n);
    if n < |log| && log[n].Collected? {
      var v := log[n].evidence;
      assert ReadAt(log, history, v.hydrated) && ReadAt(log, history, v.reread);
      StaleMeansUntouched(log, v.clock, v.reread, log[n].key);
    }
  }

  /**
   * After a failed clock read, listing or opening of the map nothing is deleted until the clock is read and the flows
   * are listed anew; after a failed or fresh re-read of a key, the key is not deleted until read again.
   */
  lemma FailuresDeleteNothing(log: seq<Event>, f: nat, n: nat)
    requires (forall i :: DeleteAt(log, i)) && f < n < |log| && log[n].Collected?
    ensures var v := log[n].evidence;
            && v.clock < v.listing < v.reread < n && log[v.clock].ClockRead? && log[v.listing].FlowsListed?
            && (log[f].OpenFailed? || log[f].ClockFailed? || log[f].ListingFailed? ==> f < v.clock)
            && (log[f].Read? && log[f].key == log[n].key && !IsStaleRead(log[f], log[v.clock].time) ==> f < v.reread)
  {
    assert DeleteAt(log, n);
  }

  // ----- the collector

  /** Key `k` of the snapshot was found by step `at[k]`. */
  ghost predicate SnapshotAt(log: seq<Event>, local: set<FlowKey>, at: map<FlowKey, nat>, k: FlowKey) {
    k in local ==> k in at && at[k] < |log| && IsFind(log[at[k]], k)
  }

  /** How a cycle went. */
  datatype Outcome = NoMap | HydrationFailed | Hydrated | NoClock | NoListing | Swept(flows: seq<KernelFlow>)

  /** No delete call for the key since step `from`. */
  ghost predicate NoDelete(log: seq<Event>, from: nat, k: FlowKey) {
    forall n | from <= n < |log| :: !(IsDelete(log[n]) && log[n].key == k)
  }

  ghost predicate NoDeletes(log: seq<Event>, from: nat) {
    forall n | from <= n < |log| :: !IsDelete(log[n])
  }

  /** The read found an entry that no packet had touched since `start`. */
  predicate IsStaleRead(e: Event, start: nat)
    requires e.Read?
  {
    e.result.Found? && e.result.entry.lastSeen < start
  }

  /** The key was last read at step `r`, and a delete call followed exactly if it was found older than the clock read. */
  ghost predicate Judged(log: seq<Event>, from: nat, clock: nat, k: FlowKey, r: nat)
    requires clock < |log| && log[clock].ClockRead?
  {
    && clock < r < |log| && log[r].Read? && log[r].key == k
    && NoRead(log, r + 1, |log|, k)
    && if IsStaleRead(log[r], log[clock].time) then DeletedAfter(log, r, k) else NoDelete(log, from, k)
  }

  ghost predicate DeletedAfter(log: seq<Event>, r: nat, k: FlowKey) {
    exists n :: r < n < |log| && IsDelete(log[n]) && log[n].key == k
  }

  /** What a sweep owes a snapshot key: nothing if its flow is listed, otherwise a re-read and what follows from it. */
  ghost predicate Settled(log: seq<Event>, from: nat, clock: nat, flows: seq<KernelFlow>, k: FlowKey)
    requires clock < |log| && log[clock].ClockRead?
  {
    if Listed(k, flows) then NoDelete(log, from, k) else exists r :: Judged(log, from, clock, k, r)
  }

  /** Steps that neither read nor delete the key leave it settled. */
  lemma SettledStays(log: seq<Event>, log': seq<Event>, from: nat, clock: nat, flows: seq<KernelFlow>, k: FlowKey)
    requires clock < |log| && log[clock].ClockRead? && log <= log'
    requires NoDelete(log', |log|, k) && NoRead(log', |log|, |log'|, k)
    requires Settled(log, from, clock, flows, k)
    ensures Settled(log', from, clock, flows, k)
  {
    if !Listed(k, flows) {
      var r: nat :| Judged(log, from, clock, k, r);
      if IsStaleRead(log[r], log[clock].time) {
        var n :| r < n < |log| && IsDelete(log[n]) && log[n].key == k;
        assert r < n < |log'| && IsDelete(log'[n]) && log'[n].key == k;
      }
      assert Judged(log', from, clock, k, r);
    }
  }

  predicate IsBadRead(e: Event) {
    e.WalkFailed? || (e.Read? && e.result.Failed?)
  }

  /** No walk or read has failed since step `from`. */
  ghost predicate ReadsWell(log: seq<Event>, from: nat) {
    forall n | from <= n < |log| :: !IsBadRead(log[n])
  }

  /** A step of a hydration: nothing is deleted, and a key that a read finds is in the snapshot. */
  predicate IsHydrateStep(e: Event, local: set<FlowKey>) {
    IsCalm(e) && !IsDelete(e) && (e.Read? && e.result.Found? ==> e.key in local)
  }

  ghost predicate Hydrating(log: seq<Event>, from: nat, local: set<FlowKey>) {
    forall n | from <= n < |log| :: IsHydrateStep(log[n], local)
  }

  /** Steps of a sweep: traffic, and reads and delete calls for `keys`, these resting on this clock read and listing. */
  predicate IsSweepStep(e: Event, keys: set<FlowKey>, clock: nat, listing: nat) {
    && IsCalm(e) && (e.Read? ==> e.key in keys)
    && (IsDelete(e) ==> e.key in keys && e.evidence.clock == clock && e.evidence.listing == listing)
  }

  ghost predicate Sweeping(log: seq<Event>, from: nat, keys: set<FlowKey>, clock: nat, listing: nat) {
    forall n | from <= n < |log| :: IsSweepStep(log[n], keys, clock, listing)
  }

  /** The clock read and the listing of the cycle, and only calm steps besides. */
  ghost predicate InSweep(log: seq<Event>, clock: nat, listing: nat) {
    && clock < listing < |log| && log[clock].ClockRead? && log[listing].FlowsListed?
    && Calm(log, clock + 1, listing) && Calm(log, listing + 1, |log|)
  }

  /**
   * A complete sweep since step `from`: one clock read, one listing, delete calls resting on these two and for snapshot
   * keys only, and every snapshot key settled.
   */
  ghost predicate SweptAll(log: seq<Event>, from: nat, local: set<FlowKey>, clock: nat, listing: nat, flows: seq<KernelFlow>) {
    && from <= clock && InSweep(log, clock, listing) && log[listing].flows == flows
    && Calm(log, from, clock) && Sweeping(log, listing + 1, local, clock, listing)
    && forall k | k in local :: Settled(log, from, clock, flows, k)
  }

  /** After a complete sweep a snapshot key has had a delete call iff its flow is not listed and its last read found it stale. */
  lemma DeletedIffStale(log: seq<Event>, from: nat, local: set<FlowKey>, clock: nat, listing: nat, flows: seq<KernelFlow>,
                        k: FlowKey, r: nat)
    requires SweptAll(log, from, local, clock, listing, flows) && k in local
    requires clock < r < |log| && log[r].Read? && log[r].key == k && NoRead(log, r + 1, |log|, k)
    ensures (exists n | from <= n < |log| :: IsDelete(log[n]) && log[n].key == k)
       <==> !Listed(k, flows) && log[r].result.Found? && log[r].result.entry.lastSeen < log[clock].time
  {
    assert Settled(log, from, clock, flows, k);
    if !Listed(k, flows) {
      var last: nat :| Judged(log, from, clock, k, last);
      assert last == r;
    }
  }

  // ----- the walk of the first phase

  ghost predicate IsReadLater(log: seq<Event>, n: nat) {
    n < |log| && log[n].Walked? && exists m | n < m < |log| :: log[m].Read? && log[m].key == log[n].key
  }

  /** Every key walked to since `from` has been read, but for the one walked to at step `but`. */
  ghost predicate WalkIsRead(log: seq<Event>, from: nat, but: int) {
    forall n | from <= n < |log| && n != but && log[n].Walked? :: IsReadLater(log, n)
  }

  lemma WalkedOneMore(log: seq<Event>, log': seq<Event>, from: nat, but: int)
    requires log <= log' && WalkIsRead(log, from, but) && from <= |log|
    requires forall n | |log| <= n < |log'| && n != but :: !log'[n].Walked?
    ensures WalkIsRead(log', from, but)
  {
    forall n | from <= n < |log'| && n != but && log'[n].Walked?
      ensures IsReadLater(log', n)
    {
      assert IsReadLater(log, n);
      var m :| n < m < |log| && log[m].Read? && log[m].key == log[n].key;
      assert log'[m].Read? && log'[m].key == log'[n].key;
    }
  }

  /** The walk went on to its end, or to a key that had vanished. */
  predicate IsWalkEnd(e: Event) {
    e.WalkEnded? || (e.Read? && e.result.Missing?)
  }

  /** Neither a packet nor an eviction since `from`. */
  ghost predicate Quiet(log: seq<Event>, from: nat) {
    forall n | from <= n < |log| :: !log[n].Handled? && !log[n].Evicted? && !log[n].Collected?
  }

  lemma {:induction false} QuietKeepsTable(log: seq<Event>, history: seq<Table>, from: nat, n: nat)
    requires (forall i :: HistoryAt(log, history, i)) && |history| == |log| + 1 && Quiet(log, from) && from <= n <= |log|
    ensures history[n] == history[from]
  {
    if n > from {
      QuietKeepsTable(log, history, from, n - 1);
      assert HistoryAt(log, history, n - 1);
    }
  }

  /** Over a quiet table, a walk that comes to every key makes the snapshot the set of all keys. */
  lemma QuietWalkIsComplete(log: seq<Event>, table: Table, clock: nat, origin: map<FlowKey, nat>, history: seq<Table>,
                            from: nat, local: set<FlowKey>, at: map<FlowKey, nat>)
    requires Inv(log, table, clock, origin, history) && from <= |log| && Quiet(log, from)
    requires Hydrating(log, from, local) && ReadsWell(log, from) && WalkIsRead(log, from, -1)
    requires (forall k :: SnapshotAt(log, local, at, k)) && forall k | k in local :: k in at && from <= at[k]
    requires forall k | k in table :: exists n | from <= n < |log| :: log[n] == Walked(k)
    ensures local == table.Keys
  {
    forall k
      ensures k in local <==> k in table
    {
      if k in local {
        assert SnapshotAt(log, local, at, k) && ReadAt(log, history, at[k]);
        QuietKeepsTable(log, history, from, at[k]);
        QuietKeepsTable(log, history, from, |log|);
      } else if k in table {
        var n :| from <= n < |log| && log[n] == Walked(k);
        assert IsReadLater(log, n);
        var m :| n < m < |log| && log[m].Read? && log[m].key == k;
        assert ReadAt(log, history, m) && !IsBadRead(log[m]) && IsHydrateStep(log[m], local);
        QuietKeepsTable(log, history, from, m);
        QuietKeepsTable(log, history, from, |log|);
        assert false;
      }
    }
  }

  class Collector {
    const flows: FlowTable
    var hydrate: bool
    var local: set<FlowKey>
    ghost var at: map<FlowKey, nat>

    ghost predicate Valid()
      reads this, flows
    {
      flows.Valid() && forall k :: SnapshotAt(flows.log, local, at, k)
    }

    constructor (flows: FlowTable)
      requires flows.Valid()
      ensures Valid() && this.flows == flows && hydrate
    {
      this.flows, hydrate, local, at := flows, true, {}, map[];
    }

    lemma KeepSnapshot(before: seq<Event>)
      requires before <= flows.log && forall k :: SnapshotAt(before, local, at, k)
      ensures forall k :: SnapshotAt(flows.log, local, at, k)
    {
      forall k
        ensures SnapshotAt(flows.log, local, at, k)
      {
        assert SnapshotAt(before, local, at, k);
      }
    }

    /** Traffic leaves the snapshot a snapshot. */
    method Wait()
      requires Valid()
      modifies flows
      ensures Valid() && old(flows.log) <= flows.log && flows.OnlyTraffic(|old(flows.log)|)
    {
      flows.Traffic();
      KeepSnapshot(old(flows.log));
    }

    /** The map lookup, keeping the snapshot. */
    method Lookup(key: FlowKey) returns (read: ReadResult)
      requires Valid()
      modifies flows
      ensures Valid() && flows.log == old(flows.log) + [Read(key, read)]
    {
      read := flows.GetMapEntry(key);
      KeepSnapshot(old(flows.log));
    }

    /** Adds a key that the last step found. */
    method Note(key: FlowKey)
      requires Valid() && flows.log != [] && IsFind(flows.log[|flows.log| - 1], key)
      modifies `local, `at
      ensures Valid() && local == old(local) + {key} && at == old(at)[key := |flows.log| - 1]
    {
      local, at := local + {key}, at[key := |flows.log| - 1];
      forall k
        ensures SnapshotAt(flows.log, local, at, k)
      {
        assert SnapshotAt(flows.log, old(local), old(at), k);
      }
    }

    /** Reads one key of the walk, and notes it if it is there. */
    method NoteNext(key: FlowKey, ghost from: nat) returns (read: ReadResult)
      requires Valid() && from < |flows.log| && flows.log[|flows.log| - 1] == Walked(key)
      requires WalkIsRead(flows.log, from, |flows.log| - 1)
      requires ReadsWell(flows.log, from) && Hydrating(flows.log, from, local)
      requires forall k | k in local :: k in at && from <= at[k]
      modifies `local, `at, flows
      ensures Valid() && old(flows.log) <= flows.log && Hydrating(flows.log, from, local)
      ensures ReadsWell(flows.log, from) <==> !read.Failed?
      ensures WalkIsRead(flows.log, from, -1) && IsWalkEnd(flows.log[|flows.log| - 1]) == read.Missing?
      ensures forall k | k in local :: k in at && from <= at[k]
    {
      ghost var before, walked := flows.log, |flows.log| - 1;
      Wait();
      read := Lookup(key);
      WalkedOneMore(before, flows.log, from, walked);
      assert IsReadLater(flows.log, walked) by {
        assert flows.log[|flows.log| - 1].Read? && flows.log[|flows.log| - 1].key == key;
      }
      assert IsBadRead(flows.log[|flows.log| - 1]) == read.Failed?;
      if read.Found? {
        Note(key);
      }
    }

    /** Asks for the next key of the walk. */
    method Advance(more: bool, ghost from: nat) returns (next: Option<FlowKey>)
      requires Valid() && from < |flows.log|
      requires WalkIsRead(flows.log, from, -1) && ReadsWell(flows.log, from) && Hydrating(flows.log, from, local)
      modifies flows
      ensures Valid() && old(flows.log) <= flows.log && |flows.log| == |old(flows.log)| + 1 && (!more ==> next.None?)
      ensures ReadsWell(flows.log, from) && Hydrating(flows.log, from, local)
      ensures flows.log[|flows.log| - 1] == if next.None? then WalkEnded else Walked(next.value)
      ensures WalkIsRead(flows.log, from, if next.None? then -1 else |flows.log| - 1)
    {
      ghost var before := flows.log;
      next := flows.GetNextKey(more);
      KeepSnapshot(before);
      forall n | from <= n < |before| && before[n].Walked?
        ensures IsReadLater(flows.log, n)
      {
        assert IsReadLater(before, n);
        var m :| n < m < |before| && before[m].Read? && before[m].key == before[n].key;
        assert flows.log[m].Read? && flows.log[m].key == flows.log[n].key;
      }
    }

    /** One round of the walk: reads and notes the key, and asks for the next one. */
    method WalkOn(key: FlowKey, more: bool, ghost from: nat) returns (read: ReadResult, next: Option<FlowKey>)
      requires Valid() && from < |flows.log| && flows.log[|flows.log| - 1] == Walked(key)
      requires WalkIsRead(flows.log, from, |flows.log| - 1)
      requires ReadsWell(flows.log, from) && Hydrating(flows.log, from, local)
      requires forall k | k in local :: k in at && from <= at[k]
      modifies `local, `at, flows
      ensures Valid() && old(flows.log) <= flows.log && Hydrating(flows.log, from, local) && (!more ==> next.None?)
      ensures ReadsWell(flows.log, from) <==> !read.Failed?
      ensures forall k | k in local :: k in at && from <= at[k]
      ensures next.Some? ==> !read.Failed? && flows.log[|flows.log| - 1] == Walked(next.value)
      ensures WalkIsRead(flows.log, from, if next.None? then -1 else |flows.log| - 1)
      ensures next.None? && !read.Failed? ==> IsWalkEnd(flows.log[|flows.log| - 1])
    {
      next := None;
      read := NoteNext(key, from);
      if read.Found? {
        next := Advance(more, from);
      }
    }

    /** The rounds of the walk from its first key on. */
    method Walk(first: FlowKey, ghost from: nat) returns (failed: bool)
      requires Valid() && from < |flows.log| && flows.log[|flows.log| - 1] == Walked(first)
      requires WalkIsRead(flows.log, from, |flows.log| - 1) && ReadsWell(flows.log, from)
      requires Hydrating(flows.log, from, local) && local == {}
      modifies `local, `at, flows
      ensures Valid() && old(flows.log) <= flows.log && Hydrating(flows.log, from, local)
      ensures ReadsWell(flows.log, from) <==> !failed
      ensures WalkIsRead(flows.log, from, -1) && (!failed ==> IsWalkEnd(flows.log[|flows.log| - 1]))
      ensures forall k | k in local :: k in at && from <= at[k]
    {
      var limit: int := *;  // how far the walk gets
      var n, next := 0, Some(first);
      failed := false;
      while next.Some?
        invariant Valid() && old(flows.log) <= flows.log && Hydrating(flows.log, from, local)
        invariant ReadsWell(flows.log, from) <==> !failed
        invariant next.Some? ==> !failed && flows.log[|flows.log| - 1] == Walked(next.value)
        invariant WalkIsRead(flows.log, from, if next.None? then -1 else |flows.log| - 1)
        invariant next.None? && !failed ==> IsWalkEnd(flows.log[|flows.log| - 1])
        invariant forall k | k in local :: k in at && from <= at[k]
        decreases if next.Some? then 1 else 0, limit - n
      {
        var read;
        read, next := WalkOn(next.value, n < limit, from);
        failed, n := read.Failed?, n + 1;
      }
    }

    /** First phase: walks the map, noting the keys it can read. */
    method Hydrate() returns (outcome: Outcome)
      requires Valid() && hydrate
      modifies this, flows
      ensures Valid() && old(flows.log) <= flows.log && Hydrating(flows.log, |old(flows.log)|, local)
      ensures outcome == (if hydrate then HydrationFailed else Hydrated)
      ensures hydrate <==> !ReadsWell(flows.log, |old(flows.log)|)
      ensures |old(flows.log)| < |flows.log|
      ensures flows.log[|old(flows.log)|].WalkFailed? || flows.log[|old(flows.log)|].Walked?
      ensures WalkIsRead(flows.log, |old(flows.log)|, -1) && (!hydrate ==> IsWalkEnd(flows.log[|flows.log| - 1]))
      ensures forall k | k in local :: k in at && |old(flows.log)| <= at[k]
    {
      local, at := {}, map[];
      var first := flows.GetFirstKey();
      KeepSnapshot(old(flows.log));
      if first.None? {
        assert flows.log[|old(flows.log)|].WalkFailed?;
        return HydrationFailed;
      }
      assert flows.log[|old(flows.log)|].Walked?;
      hydrate := Walk(first.value, |old(flows.log)|);
      return if hydrate then HydrationFailed else Hydrated;
    }

    /** Second phase for one snapshot key that no kernel flow stands for: re-read it, and delete it if it is stale. */
    method Expire(key: FlowKey, gcStart: nat, ghost from: nat, ghost clock: nat, ghost listing: nat)
      requires Valid() && key in local && key in at && at[key] < clock
      requires InSweep(flows.log, clock, listing) && flows.log[clock].time == gcStart
      requires !Listed(key, flows.log[listing].flows) && from <= clock && NoDelete(flows.log, from, key)
      modifies flows
      ensures Valid() && old(flows.log) <= flows.log && InSweep(flows.log, clock, listing)
      ensures Sweeping(flows.log, |old(flows.log)|, {key}, clock, listing)
      ensures exists r :: Judged(flows.log, from, clock, key, r)
    {
      Wait();
      ghost var r := |flows.log|;
      var read := Lookup(key);
      if EntryActiveFromRead(read, gcStart) {
        assert Judged(flows.log, from, clock, key, r);
        return;
      }
      Wait();
      Remove(key, Evidence(at[key], clock, listing, r));
      assert IsDelete(flows.log[|flows.log| - 1]);
      assert Judged(flows.log, from, clock, key, r);
    }

    /** The delete call, resting on what the cycle has found out so far. */
    method Remove(key: FlowKey, ghost v: Evidence)
      requires Valid() && key in local && key in at && v.hydrated == at[key] < v.clock < v.listing < v.reread < |flows.log|
      requires InSweep(flows.log, v.clock, v.listing) && !Listed(key, flows.log[v.listing].flows)
      requires IsFind(flows.log[v.reread], key) && NoRead(flows.log, v.reread + 1, |flows.log|, key)
      requires flows.log[v.reread].result.entry.lastSeen < flows.log[v.clock].time
      modifies flows
      ensures Valid() && exists e :: flows.log == old(flows.log) + [e] && (e == Collected(key, v) || e == DeleteFailed(key, v))
    {
      assert SnapshotAt(flows.log, local, at, key);
      ghost var e := flows.DeleteMapEntry(key, v);
      KeepSnapshot(old(flows.log));
    }

    /** Second phase: every snapshot key is settled. */
    method SweepAll(cache: set<FlowKey>, gcStart: nat, ghost listed: seq<KernelFlow>, ghost from: nat, ghost clock: nat,
                    ghost listing: nat)
      requires Valid() && InSweep(flows.log, clock, listing)
      requires flows.log[clock].time == gcStart && flows.log[listing].flows == listed
      requires forall k :: Comparable(k) in cache <==> Listed(k, listed)
      requires (forall k | k in local :: k in at && at[k] < clock) && from <= clock && NoDeletes(flows.log, from)
      modifies flows
      ensures Valid() && old(flows.log) <= flows.log && InSweep(flows.log, clock, listing)
      ensures Sweeping(flows.log, |old(flows.log)|, local, clock, listing)
      ensures forall k | k in local :: Settled(flows.log, from, clock, listed, k)
    {
      var rest := local;
      while rest != {}
        invariant Valid() && old(flows.log) <= flows.log && InSweep(flows.log, clock, listing) && rest <= local
        invariant Sweeping(flows.log, |old(flows.log)|, local, clock, listing)
        invariant forall k | k in local && k !in rest :: Settled(flows.log, from, clock, listed, k)
        invariant forall k | k in rest :: NoDelete(flows.log, from, k)
        decreases rest
      {
        var key :| key in rest;
        rest := rest - {key};
        if Comparable(key) !in cache {
          ghost var log := flows.log;
          Expire(key, gcStart, from, clock, listing);
          forall k | k in local && k !in rest && k != key
            ensures Settled(flows.log, from, clock, listed, k)
          {
            SettledStays(log, flows.log, from, clock, listed, k);
          }
        }
      }
    }

    /** The clock read and the listing that a sweep begins with; either may fail. */
    method BeginSweep() returns (gcStart: Option<nat>, listed: Option<seq<KernelFlow>>, ghost clock: nat, ghost listing: nat)
      requires Valid()
      modifies flows
      ensures Valid() && old(flows.log) <= flows.log && NoDeletes(flows.log, |old(flows.log)|)
      ensures |old(flows.log)| <= clock < |flows.log| && (listed.Some? ==> gcStart.Some?)
      ensures gcStart.None? ==> flows.log[clock].ClockFailed? && |flows.log| == clock + 1
      ensures gcStart.None? ==> Calm(flows.log, |old(flows.log)|, clock)
      ensures gcStart.Some? ==>
                && flows.log[clock] == ClockRead(gcStart.value) && clock < listing == |flows.log| - 1
                && Calm(flows.log, |old(flows.log)|, clock) && Calm(flows.log, clock + 1, listing)
                && flows.log[listing] == (if listed.Some? then FlowsListed(listed.value) else ListingFailed)
    {
      listed, clock, listing := None, |flows.log|, 0;
      gcStart := flows.KtimeGetNs();
      KeepSnapshot(old(flows.log));
      if gcStart.None? {
        return;
      }
      Wait();
      ghost var before := flows.log;
      listing := |before|;
      listed := flows.ConntrackTableList();
      KeepSnapshot(before);
    }

    /** The second phase as a whole. */
    method Sweep() returns (outcome: Outcome, ghost clock: nat, ghost listing: nat)
      requires Valid()
      modifies `hydrate, flows
      ensures Valid() && old(flows.log) <= flows.log && OutcomeFits(flows.log, |old(flows.log)|, outcome)
      ensures if outcome.NoListing? then hydrate == old(hydrate) else hydrate && (outcome.NoClock? || outcome.Swept?)
      ensures !outcome.Swept? ==> NoDeletes(flows.log, |old(flows.log)|)
      ensures outcome.Swept? ==> SweptAll(flows.log, |old(flows.log)|, local, clock, listing, outcome.flows)
    {
      SnapshotIsPast();
      var gcStart, listed;
      gcStart, listed, clock, listing := BeginSweep();
      if gcStart.None? {
        hydrate := true;
        return NoClock, clock, listing;
      }
      if listed.None? {
        return NoListing, clock, listing;
      }
      var cache := KernelCache(listed.value);
      SweepAll(cache, gcStart.value, listed.value, |old(flows.log)|, clock, listing);
      hydrate := true;
      outcome := Swept(listed.value);
    }

    /** `CleanupConntrackMap`: one cycle, hydrating and sweeping in turn. */
    method Cleanup() returns (outcome: Outcome, ghost clock: nat, ghost listing: nat)
      requires Valid()
      modifies this, flows
      ensures Valid() && old(flows.log) <= flows.log
      ensures OutcomeFits(flows.log, |old(flows.log)|, outcome)
      ensures !outcome.Swept? ==> NoDeletes(flows.log, |old(flows.log)|)
      ensures outcome.Hydrated? || outcome.HydrationFailed? ==> old(hydrate)
      ensures outcome.Swept? || outcome.NoClock? || outcome.NoListing? ==> !old(hydrate) && local == old(local) && at == old(at)
      ensures hydrate == (if outcome.NoMap? then old(hydrate) else outcome.HydrationFailed? || outcome.NoClock? || outcome.Swept?)
      ensures outcome.Swept? ==> SweptAll(flows.log, |old(flows.log)|, local, clock, listing, outcome.flows)
    {
      clock, listing := 0, 0;
      var noMap := flows.OpenMap();
      KeepSnapshot(old(flows.log));
      if noMap {
        assert flows.log[|old(flows.log)|].OpenFailed?;
        return NoMap, 0, 0;
      }
      if hydrate {
        outcome := Hydrate();
      } else {
        outcome, clock, listing := Sweep();
      }
    }

    lemma SnapshotIsPast()
      requires Valid()
      ensures forall k | k in local :: k in at && at[k] < |flows.log|
    {
      forall k | k in local
        ensures k in at && at[k] < |flows.log|
      {
        assert SnapshotAt(flows.log, local, at, k);
      }
    }

    /** Any number of cycles, with traffic before, between and during them. */
    method Run(cycles: nat)
      requires Valid()
      modifies this, flows
      ensures Valid() && old(flows.log) <= flows.log
    {
      for n := 0 to cycles
        invariant Valid() && old(flows.log) <= flows.log
      {
        Wait();
        var _, _, _ := Cleanup();
      }
    }
  }

  /** The outcome says which of the cycle's calls failed, if any did. */
  ghost predicate OutcomeFits(log: seq<Event>, from: nat, outcome: Outcome) {
    && (outcome.NoMap? <==> exists n :: from <= n < |log| && log[n].OpenFailed?)
    && (outcome.NoClock? <==> exists n :: from <= n < |log| && log[n].ClockFailed?)
    && (outcome.NoListing? <==> exists n :: from <= n < |log| && log[n].ListingFailed?)
    && (outcome.Hydrated? || outcome.HydrationFailed? ==> Calm(log, from, |log|))
  }
}
