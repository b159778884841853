/** Runs of the cluster-policy reconciler as sequences of states: what a failed cleanup leaves behind, and who retries it. */
module ClusterRuns {
  import opened Basics
  import opened PolicyTypes
  import opened ClusterState
  import opened ClusterPass

  /** One step of a run: a completed pass, or (None) API changes and reconciles that got no further than their first call. */
  ghost predicate IsMove(s: State, s': State, m: Option<Pass>, nodeIP: string, local: Identifier -> bool) {
    if m.None? then s' == s.(store := s'.store, queue := s'.queue, used := s'.used) else PassStep(s, s', m.value, nodeIP, local)
  }

  ghost predicate MoveAt(states: seq<State>, moves: seq<Option<Pass>>, nodeIP: string, local: Identifier -> bool, k: nat) {
    k < |moves| && k + 1 < |states| ==> IsMove(states[k], states[k + 1], moves[k], nodeIP, local)
  }

  ghost predicate IsRun(states: seq<State>, moves: seq<Option<Pass>>, nodeIP: string, local: Identifier -> bool) {
    |states| == |moves| + 1 && forall k :: MoveAt(states, moves, nodeIP, local, k)
  }

  lemma RunGrows(states: seq<State>, moves: seq<Option<Pass>>, nodeIP: string, local: Identifier -> bool, s: State,
                 m: Option<Pass>)
    requires IsRun(states, moves, nodeIP, local) && IsMove(states[|moves|], s, m, nodeIP, local)
    ensures IsRun(states + [s], moves + [m], nodeIP, local)
  {
    forall k
      ensures MoveAt(states + [s], moves + [m], nodeIP, local, k)
    {
      assert MoveAt(states, moves, nodeIP, local, k);
    }
  }

  /** The pass was run for a slice of another parent. */
  predicate IsElsewhere(m: Option<Pass>, parent: string) {
    m.Some? ==> ParentOf(m.value.name) != parent
  }

  lemma ElsewhereKeepsRecord(s: State, s': State, p: Pass, nodeIP: string, local: Identifier -> bool, n: CpeName)
    requires PassStep(s, s', p, nodeIP, local) && ParentOf(p.name) != ParentOf(n)
    ensures PodIds(s'.podsOf, n) == PodIds(s.podsOf, n)
  {
    PassSays(s, s', p, nodeIP, local);
    assert n !in p.slices && n != p.name;
  }

  /** What is recorded under a slice lasts until the next pass of its parent. */
  lemma {:induction false} RecordLasts(states: seq<State>, moves: seq<Option<Pass>>, nodeIP: string, local: Identifier -> bool,
                                       first: nat, last: nat, n: CpeName)
    requires IsRun(states, moves, nodeIP, local) && first <= last <= |moves|
    requires forall k | first <= k < last :: IsElsewhere(moves[k], ParentOf(n))
    ensures PodIds(states[last].podsOf, n) == PodIds(states[first].podsOf, n)
    decreases last
  {
    if first < last {
      RecordLasts(states, moves, nodeIP, local, first, last - 1, n);
      assert MoveAt(states, moves, nodeIP, local, last - 1);
      if moves[last - 1].Some? {
        assert IsElsewhere(moves[last - 1], ParentOf(n));
        ElsewhereKeepsRecord(states[last - 1], states[last], moves[last - 1].value, nodeIP, local, n);
      }
    }
  }

  /** The slices a pass leaves its failed cleanups under: those of the listing and, in the delete flow, the deleted one. */
  predicate Retains(p: Pass, n: CpeName) {
    n in p.slices || (p.deleted && n == p.name)
  }

  lemma FailedIsRetained(s: State, s': State, p: Pass, nodeIP: string, local: Identifier -> bool, n: CpeName, i: Identifier)
    requires PassStep(s, s', p, nodeIP, local) && Retains(p, n) && i in p.failed
    ensures i in PodIds(s'.podsOf, n)
  {
    PassSays(s, s', p, nodeIP, local);
  }

  lemma RecordedIsHandled(s: State, s': State, q: Pass, nodeIP: string, local: Identifier -> bool, n: CpeName, i: Identifier)
    requires PassStep(s, s', q, nodeIP, local) && n in q.slices + {q.name} && i in PodIds(s.podsOf, n)
    ensures i in q.cleaned || i in q.targets
  {
    PassSays(s, s', q, nodeIP, local);
    assert i in Tracking(s.podsOf, q.slices + {q.name});
  }

  /**
   * In every run: an identifier whose cleanup failed in pass `k` is cleaned up again, or selected again, by the next pass of
   * the parent over any slice it was left under, whatever passes of other parents and failed listings come in between.
   */
  lemma FailedCleanupIsRetried(states: seq<State>, moves: seq<Option<Pass>>, nodeIP: string, local: Identifier -> bool,
                               k: nat, l: nat, n: CpeName, i: Identifier)
    requires IsRun(states, moves, nodeIP, local) && k < l < |moves| && moves[k].Some? && moves[l].Some?
    requires Retains(moves[k].value, n) && n in moves[l].value.slices + {moves[l].value.name}
    requires forall j | k < j < l :: IsElsewhere(moves[j], ParentOf(n))
    ensures i in moves[k].value.failed ==> i in moves[l].value.cleaned || i in moves[l].value.targets
  {
    var p, q := moves[k].value, moves[l].value;
    if i in p.failed {
      assert MoveAt(states, moves, nodeIP, local, k) && MoveAt(states, moves, nodeIP, local, l);
      FailedIsRetained(states[k], states[k + 1], p, nodeIP, local, n, i);
      RecordLasts(states, moves, nodeIP, local, k + 1, l, n);
      RecordedIsHandled(states[l], states[l + 1], q, nodeIP, local, n, i);
    }
  }
}
