/** The calls of the cluster-policy reconciler that failed, and whose they were. */
module ClusterFaults {
  import opened Basics
  import opened PolicyTypes
  import opened ClusterState

  /** A failed call: reading a slice (for an identifier's rules, or to look the event up), listing, writing, attaching. */
  datatype Fault =
    | GetFault(slice: CpeName, whose: Option<Identifier>)
    | ListFault
    | WriteFault(i: Identifier)
    | AttachFault(i: Identifier)

  /** The identifier whose handling the call belonged to. */
  function Owner(f: Fault): Option<Identifier> {
    match f
    case GetFault(_, whose) => whose
    case ListFault => None
    case WriteFault(i) => Some(i)
    case AttachFault(i) => Some(i)
  }

  function Owners(faults: seq<Fault>): set<Identifier> {
    set f | f in faults && Owner(f).Some? :: Owner(f).value
  }

  /** Exactly the identifiers `ids` had a call fail since `before`, and no other call failed. */
  ghost predicate FaultsOf(before: seq<Fault>, after: seq<Fault>, ids: set<Identifier>) {
    forall n :: FaultAt(before, after, ids, n)
  }

  ghost predicate FaultAt(before: seq<Fault>, after: seq<Fault>, ids: set<Identifier>, n: nat) {
    && before <= after && Owners(after[|before|..]) == ids
    && (|before| <= n < |after| ==> Owner(after[n]).Some?)
  }

  lemma OwnFault(before: seq<Fault>, f: Fault, i: Identifier)
    requires Owner(f) == Some(i)
    ensures FaultsOf(before, before + [f], {i})
  {
    assert (before + [f])[|before|..] == [f];
    assert forall n :: FaultAt(before, before + [f], {i}, n);
  }

  lemma NoFault(before: seq<Fault>, after: seq<Fault>)
    ensures FaultsOf(before, after, {}) <==> before == after
  {
    if before == after {
      assert after[|before|..] == [];
      assert forall n :: FaultAt(before, after, {}, n);
    }
    if FaultsOf(before, after, {}) {
      assert FaultAt(before, after, {}, |before|);
      var rest := after[|before|..];
      forall n | 0 <= n < |rest|
        ensures Owner(rest[n]).Some?
      {
        assert FaultAt(before, after, {}, |before| + n);
      }
      NoOwners(rest);
      assert after == before + rest;
    }
  }

  lemma NoOwners(faults: seq<Fault>)
    requires forall n | 0 <= n < |faults| :: Owner(faults[n]).Some?
    ensures Owners(faults) == {} <==> faults == []
  {
    if faults != [] {
      assert Owner(faults[0]).value in Owners(faults);
    }
  }

  lemma FaultsGrow(before: seq<Fault>, after: seq<Fault>, ids: set<Identifier>)
    requires FaultsOf(before, after, ids)
    ensures before <= after
  {
    assert FaultAt(before, after, ids, 0);
  }

  lemma FaultsThen(a: seq<Fault>, b: seq<Fault>, c: seq<Fault>, ids: set<Identifier>, ids': set<Identifier>)
    requires FaultsOf(a, b, ids) && FaultsOf(b, c, ids')
    ensures FaultsOf(a, c, ids + ids')
  {
    assert FaultAt(a, b, ids, 0) && FaultAt(b, c, ids', 0);
    assert c[|a|..] == b[|a|..] + c[|b|..];
    forall n
      ensures FaultAt(a, c, ids + ids', n)
    {
      assert FaultAt(a, b, ids, n) && FaultAt(b, c, ids', n);
    }
  }

  /** Two groups of identifiers handled one after the other. */
  lemma FaultsOfPass(a: seq<Fault>, b: seq<Fault>, c: seq<Fault>, ids: set<Identifier>, ids': set<Identifier>)
    requires FaultsOf(a, b, ids) && FaultsOf(b, c, ids')
    ensures FaultsOf(a, c, ids + ids') && FaultsOf(a, c, ids' + ids)
    ensures c != a <==> ids != {} || ids' != {}
  {
    FaultsThen(a, b, c, ids, ids');
    assert ids + ids' == ids' + ids;
    NoFault(a, c);
    assert ids == {} && ids' == {} ==> ids + ids' == {};
    if a == c {
      assert FaultAt(a, c, {}, 0) && FaultAt(a, c, ids + ids', 0);
    }
  }
}
