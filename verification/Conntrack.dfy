/** The flow table shared by the ingress and egress programs, and everything that happens to it. */
module Conntrack {
  import opened Basics
  import opened PolicyTypes
  import opened FlowEvaluation
  import opened KernelConntrack

  /** `struct conntrack_value`. */
  datatype Entry = Entry(val: int, lastSeen: nat)

  type Table = map<FlowKey, Entry>

  /** How a packet was decided; `origin` is the step that stored the entry it was accepted by. */
  datatype Reason = NoState | ByEvaluation | ByForward(origin: nat) | ByReverse(origin: nat)

  datatype ReadResult = Found(entry: Entry) | Missing | Failed

  /** Where in the run a deletion's evidence is: the hydrating read, the clock read, the listing and the re-read. */
  datatype Evidence = Evidence(hydrated: nat, clock: nat, listing: nat, reread: nat)

  /**
   * One step: a packet, an eviction by the LRU map, or a call of the garbage collector with its result. The
   * collector's calls append their own events; a deletion also says which earlier events it rests on.
   */
  datatype Event =
    | Handled(frame: Frame, d: Direction, policy: Policy, time: nat, accepted: bool, reason: Reason)
    | Evicted(key: FlowKey)
    | OpenFailed
    | WalkFailed
    | Walked(key: FlowKey)
    | WalkEnded
    | ClockRead(time: nat)
    | ClockFailed
    | FlowsListed(flows: seq<KernelFlow>)
    | ListingFailed
    | Read(key: FlowKey, result: ReadResult)
    | Collected(key: FlowKey, evidence: Evidence)
    | DeleteFailed(key: FlowKey, evidence: Evidence)

  /** The event is a packet that stored or refreshed the entry of `k`. */
  predicate Touches(e: Event, k: FlowKey) {
    e.Handled? && e.accepted && k == Touched(e)
  }

  function Touched(e: Event): FlowKey
    requires e.Handled?
  {
    if e.reason.ByReverse? then ReverseKey(e.frame, e.d) else ForwardKey(e.frame, e.d)
  }

  // ----- what holds of every run

  /** The step accepted the packet by evaluating the policy, and so stored `val` under `k`. */
  ghost predicate Stores(e: Event, k: FlowKey, val: int) {
    && e.Handled? && e.accepted && e.reason == ByEvaluation && Accepts(e.policy, e.frame, e.d)
    && ForwardKey(e.frame, e.d) == k && CodeOf(e.policy) == Some(val)
  }

  ghost predicate StoresSome(e: Event, k: FlowKey) {
    e.Handled? && CodeOf(e.policy).Some? && Stores(e, k, CodeOf(e.policy).value)
  }

  /** The entry of `k` was stored by an accepting evaluation under the code it records. */
  ghost predicate OriginAt(log: seq<Event>, table: Table, origin: map<FlowKey, nat>, k: FlowKey) {
    k in table ==> k in origin && origin[k] < |log| && Stores(log[origin[k]], k, table[k].val)
  }

  predicate IsTimed(e: Event) {
    e.Handled? || e.ClockRead?
  }

  /** The entry of `k` was last seen no earlier than any packet that touched it. */
  ghost predicate SeenAt(log: seq<Event>, table: Table, k: FlowKey, n: nat) {
    n < |log| && k in table && Touches(log[n], k) ==> log[n].time <= table[k].lastSeen
  }

  ghost predicate PastAt(log: seq<Event>, clock: nat, n: nat) {
    n < |log| && IsTimed(log[n]) ==> log[n].time <= clock
  }

  /** Both sides read one clock, and it never goes back. */
  ghost predicate LaterAt(log: seq<Event>, m: nat, n: nat) {
    m < n < |log| && IsTimed(log[m]) && IsTimed(log[n]) ==> log[m].time <= log[n].time
  }

  /** A read returned what the table held. */
  ghost predicate ReadAt(log: seq<Event>, history: seq<Table>, n: nat) {
    n < |log| && n < |history| && log[n].Read? ==> ReadOk(history[n], log[n])
  }

  ghost predicate ReadOk(table: Table, e: Event)
    requires e.Read?
  {
    && (e.result.Missing? ==> e.key !in table)
    && (e.result.Found? ==> e.key in table && e.result.entry == table[e.key])
  }

  /** What a read found was last seen no earlier than any packet before it that touched the entry. */
  ghost predicate ReadSeenAt(log: seq<Event>, m: nat, n: nat) {
    m < n < |log| && log[n].Read? && log[n].result.Found? && Touches(log[m], log[n].key) ==>
      log[m].time <= log[n].result.entry.lastSeen
  }

  /** A packet's verdict has one of the reasons the design allows. */
  ghost predicate VerdictAt(log: seq<Event>, n: nat) {
    n < |log| && log[n].Handled? ==> VerdictOk(log, n, log[n])
  }

  ghost predicate VerdictOk(log: seq<Event>, n: nat, e: Event)
    requires n <= |log| && e.Handled?
  {
    match e.reason
    case NoState => !e.accepted && CodeOf(e.policy).None?
    case ByEvaluation => e.accepted == Accepts(e.policy, e.frame, e.d) && CodeOf(e.policy).Some?
    case ByForward(m) =>
      e.accepted && m < n && CodeOf(e.policy).Some? && Stores(log[m], ForwardKey(e.frame, e.d), CodeOf(e.policy).value)
    case ByReverse(m) => e.accepted && m < n && StoresSome(log[m], ReverseKey(e.frame, e.d))
  }

  /** A read of the key that found an entry. */
  predicate IsFind(e: Event, k: FlowKey) {
    e.Read? && e.key == k && e.result.Found?
  }

  /** The entry must be kept: seen since the cycle's clock read, or not readable. */
  predicate EntryActiveFromRead(read: ReadResult, gcStart: nat) {
    !read.Found? || read.entry.lastSeen >= gcStart
  }

  /** No other clock read or listing, and none that failed. */
  predicate IsCalm(e: Event) {
    !e.OpenFailed? && !e.ClockRead? && !e.ClockFailed? && !e.FlowsListed? && !e.ListingFailed?
  }

  ghost predicate Calm(log: seq<Event>, from: nat, to: nat) {
    forall i | from <= i < to && i < |log| :: IsCalm(log[i])
  }

  ghost predicate NoRead(log: seq<Event>, from: nat, to: nat, k: FlowKey) {
    forall i | from <= i < to && i < |log| :: !(log[i].Read? && log[i].key == k)
  }

  predicate IsDelete(e: Event) {
    e.Collected? || e.DeleteFailed?
  }

  /** A delete call before step `n`, successful or not, rests on calls made in the cycle that it ends. */
  ghost predicate DeleteAt(log: seq<Event>, n: nat) {
    n < |log| && IsDelete(log[n]) ==> DeleteOk(log, n, log[n].key, log[n].evidence)
  }

  /**
   * The key was found while hydrating; then came the last clock read and the last listing, both successful; the
   * listing has no flow of the key; and the last read of the key found it older than the clock read.
   */
  ghost predicate DeleteOk(log: seq<Event>, n: nat, k: FlowKey, v: Evidence) {
    && v.hydrated < v.clock < v.listing < v.reread < n <= |log| && IsFind(log[v.hydrated], k)
    && log[v.clock].ClockRead? && Calm(log, v.clock + 1, v.listing)
    && log[v.listing].FlowsListed? && !Listed(k, log[v.listing].flows) && Calm(log, v.listing + 1, n)
    && IsFind(log[v.reread], k) && log[v.reread].result.entry.lastSeen < log[v.clock].time
    && NoRead(log, v.reread + 1, n, k)
  }

  /** What a step does to the table. */
  function Apply(table: Table, e: Event): Table {
    match e
    case Handled(frame, d, policy, time, accepted, reason) =>
      if reason == ByEvaluation then
        if accepted && CodeOf(policy).Some? then table[ForwardKey(frame, d) := Entry(CodeOf(policy).value, time)]
        else table - {ForwardKey(frame, d)}
      else if accepted && Touched(e) in table then table[Touched(e) := table[Touched(e)].(lastSeen := time)]
      else table
    case Evicted(key) => table - {key}
    case Collected(key, _) => table - {key}
    case _ => table
  }

  ghost predicate HistoryAt(log: seq<Event>, history: seq<Table>, n: nat) {
    n < |log| && n + 1 < |history| ==> history[n + 1] == Apply(history[n], log[n])
  }

  ghost predicate Inv(log: seq<Event>, table: Table, clock: nat, origin: map<FlowKey, nat>, history: seq<Table>) {
    && (forall k :: OriginAt(log, table, origin, k))
    && (forall k, n :: SeenAt(log, table, k, n))
    && (forall n :: PastAt(log, clock, n))
    && (forall n :: VerdictAt(log, n))
    && (forall n :: DeleteAt(log, n))
    && (forall n :: HistoryAt(log, history, n))
    && (forall n :: ReadAt(log, history, n))
    && (forall m, n :: ReadSeenAt(log, m, n))
    && (forall m, n :: LaterAt(log, m, n))
    && |history| == |log| + 1 && history[|log|] == table
  }

  lemma RemoveAbsent(table: Table, k: FlowKey)
    ensures k !in table ==> table - {k} == table
  {
  }

  // ----- one step keeps the invariant

  ghost function OriginAfter(log: seq<Event>, origin: map<FlowKey, nat>, e: Event): map<FlowKey, nat> {
    if e.Handled? && e.accepted && e.reason == ByEvaluation then origin[Touched(e) := |log|] else origin
  }

  lemma OriginsKept(log: seq<Event>, table: Table, origin: map<FlowKey, nat>, e: Event)
    requires forall k :: OriginAt(log, table, origin, k)
    requires e.Handled? ==> VerdictOk(log, |log|, e)
    ensures forall k :: OriginAt(log + [e], Apply(table, e), OriginAfter(log, origin, e), k)
  {
    forall k
      ensures OriginAt(log + [e], Apply(table, e), OriginAfter(log, origin, e), k)
    {
      assert OriginAt(log, table, origin, k);
    }
  }

  lemma SeenKept(log: seq<Event>, table: Table, clock: nat, e: Event)
    requires (forall k, n :: SeenAt(log, table, k, n)) && forall n :: PastAt(log, clock, n)
    requires IsTimed(e) ==> e.time == clock
    requires e.Handled? && e.accepted ==> if e.reason == ByEvaluation then CodeOf(e.policy).Some? else Touched(e) in table
    ensures forall k, n :: SeenAt(log + [e], Apply(table, e), k, n)
    ensures forall n :: PastAt(log + [e], clock, n)
  {
    forall k, n
      ensures SeenAt(log + [e], Apply(table, e), k, n)
    {
      assert SeenAt(log, table, k, n) && PastAt(log, clock, n);
    }
    forall n
      ensures PastAt(log + [e], clock, n)
    {
      assert PastAt(log, clock, n);
    }
  }

  lemma VerdictsKept(log: seq<Event>, e: Event)
    requires forall n :: VerdictAt(log, n)
    requires e.Handled? ==> VerdictOk(log, |log|, e)
    ensures forall n :: VerdictAt(log + [e], n)
  {
    forall n
      ensures VerdictAt(log + [e], n)
    {
      assert VerdictAt(log, n);
    }
  }

  lemma DeletesKept(log: seq<Event>, e: Event)
    requires forall n :: DeleteAt(log, n)
    requires IsDelete(e) ==> DeleteOk(log, |log|, e.key, e.evidence)
    ensures forall n :: DeleteAt(log + [e], n)
  {
    forall n
      ensures DeleteAt(log + [e], n)
    {
      assert DeleteAt(log, n);
    }
  }

  lemma ReadsKept(log: seq<Event>, history: seq<Table>, e: Event, table: Table)
    requires (forall n :: ReadAt(log, history, n)) && |history| == |log| + 1
    requires e.Read? ==> ReadOk(history[|log|], e)
    ensures forall n :: ReadAt(log + [e], history + [table], n)
  {
    forall n
      ensures ReadAt(log + [e], history + [table], n)
    {
      assert ReadAt(log, history, n);
    }
  }

  lemma ReadSeenKept(log: seq<Event>, table: Table, e: Event)
    requires (forall m, n :: ReadSeenAt(log, m, n)) && forall k, n :: SeenAt(log, table, k, n)
    requires e.Read? ==> ReadOk(table, e)
    ensures forall m, n :: ReadSeenAt(log + [e], m, n)
  {
    forall m, n
      ensures ReadSeenAt(log + [e], m, n)
    {
      assert ReadSeenAt(log, m, n);
      assert n == |log| && e.Read? ==> SeenAt(log, table, e.key, m);
    }
  }

  lemma LaterKept(log: seq<Event>, clock: nat, e: Event)
    requires (forall m, n :: LaterAt(log, m, n)) && forall n :: PastAt(log, clock, n)
    requires IsTimed(e) ==> e.time == clock
    ensures forall m, n :: LaterAt(log + [e], m, n)
  {
    forall m, n
      ensures LaterAt(log + [e], m, n)
    {
      assert LaterAt(log, m, n) && PastAt(log, clock, m);
    }
  }

  lemma HistoryKept(log: seq<Event>, history: seq<Table>, e: Event)
    requires (forall n :: HistoryAt(log, history, n)) && |history| == |log| + 1
    ensures forall n :: HistoryAt(log + [e], history + [Apply(history[|log|], e)], n)
  {
    forall n
      ensures HistoryAt(log + [e], history + [Apply(history[|log|], e)], n)
    {
      assert HistoryAt(log, history, n);
    }
  }

  // ----- what the invariant means

  /**
   * An accepted packet is accepted by the policy now, or an earlier packet of the same flow was accepted
   * by the policy under the same state code, or the mirrored packet was accepted by the opposite program.
   */
  lemma AcceptedPacketsAreJustified(log: seq<Event>, n: nat)
    requires (forall i :: VerdictAt(log, i)) && n < |log| && log[n].Handled? && log[n].accepted
    ensures CodeOf(log[n].policy).Some? || log[n].reason.ByReverse?
    ensures match log[n].reason
            case NoState => false
            case ByEvaluation => Accepts(log[n].policy, log[n].frame, log[n].d)
            case ByForward(m) =>
              && m < n && log[m].Handled? && Accepts(log[m].policy, log[m].frame, log[m].d)
              && ForwardKey(log[m].frame, log[m].d) == ForwardKey(log[n].frame, log[n].d)
              && CodeOf(log[m].policy) == CodeOf(log[n].policy)
            case ByReverse(m) =>
              && m < n && log[m].Handled? && Accepts(log[m].policy, log[m].frame, log[m].d)
              && (log[n].frame.srcIp != log[n].frame.destIp ==>
                    log[m].d == Opposite(log[n].d) && log[m].frame == Swapped(log[n].frame))
  {
    assert VerdictAt(log, n);
    if log[n].reason.ByReverse? {
      var m := log[n].reason.origin;
      ReverseKeyIsOpposite(log[n].frame, log[n].d, log[m].frame, log[m].d);
    }
  }

  /** The step whose evaluation a packet's acceptance rests on. */
  function Basis(e: Event, n: nat): nat {
    if e.Handled? && (e.reason.ByForward? || e.reason.ByReverse?) then e.reason.origin else n
  }

  /**
   * With tables compiled from rules, an accepted packet rests on rules: it, or an earlier packet of its flow, or the mirror
   * of one that the opposite program saw, is accepted by the rules of that moment.
   */
  lemma AcceptedPacketsHaveRules(log: seq<Event>, n: nat, source: Policy -> Source)
    requires (forall i :: VerdictAt(log, i)) && n < |log| && log[n].Handled? && log[n].accepted
    requires forall e | e in log && e.Handled? :: IsFrom(e.policy, source(e.policy), e.frame, e.d)
    ensures var m := Basis(log[n], n);
            && m <= n && log[m].Handled? && CodeOf(log[m].policy).Some?
            && RulesAccept(source(log[m].policy), log[m].frame, log[m].d, log[m].policy.network.value)
            && ForwardKey(log[m].frame, log[m].d) == Touched(log[n])
  {
    var m := Basis(log[n], n);
    assert VerdictAt(log, n);
    assert log[m] in log;
    AcceptsMeansRules(log[m].policy, source(log[m].policy), log[m].frame, log[m].d);
  }

  /** The reason fits what the program found in the table. */
  ghost predicate Decided(table: Table, e: Event)
    requires e.Handled?
  {
    var key, p := ForwardKey(e.frame, e.d), e.policy;
    if p.network.None? || p.cluster.None? then e.reason == NoState
    else if key in table && table[key].val == StateCode(p.network.value, p.cluster.value) then e.reason.ByForward?
    else if key in table then e.reason == ByEvaluation
    else if ReverseKey(e.frame, e.d) in table then e.reason.ByReverse?
    else e.reason == ByEvaluation
  }

  /** After a packet whose forward entry carries another code, the entry is rewritten or gone. */
  lemma MismatchEndsEntry(table: Table, e: Event, log: seq<Event>)
    requires e.Handled? && Decided(table, e) && VerdictOk(log, |log|, e) && CodeOf(e.policy).Some?
    ensures var key := ForwardKey(e.frame, e.d);
            key in table && table[key].val != CodeOf(e.policy).value ==>
              if Accepts(e.policy, e.frame, e.d)
              then e.accepted && Apply(table, e) == table[key := Entry(CodeOf(e.policy).value, e.time)]
              else !e.accepted && Apply(table, e) == table - {key}
  {
  }

  /**
   * What a packet does to the table, entry by entry: an accepted one leaves its entry in the table with the packet's time, and
   * under the current code unless it is a response; a rejected one leaves no entry of its own; no other entry changes.
   */
  lemma HandledMeans(table: Table, e: Event, log: seq<Event>, k: FlowKey)
    requires e.Handled? && Decided(table, e) && VerdictOk(log, |log|, e)
    ensures var after, p := Apply(table, e), e.policy;
            if p.network.None? || p.cluster.None? then !e.accepted && after == table
            else if k == (if e.reason.ByReverse? then ReverseKey(e.frame, e.d) else ForwardKey(e.frame, e.d)) then
              if e.accepted then
                && k in after && after[k].lastSeen == e.time
                && after[k].val == if e.reason.ByReverse? then table[k].val else StateCode(p.network.value, p.cluster.value)
              else k !in after
            else (k in after <==> k in table) && (k in table ==> after[k] == table[k])
  {
  }

  /** The event is this packet, decided between two readings of the clock. */
  ghost predicate IsHandling(e: Event, f: Frame, d: Direction, p: Policy, accepted: bool, before: nat, after: nat) {
    && e.Handled? && e.frame == f && e.d == d && e.policy == p && e.accepted == accepted
    && before <= e.time <= after
  }

  class FlowTable {
    var table: Table
    var clock: nat  // the monotonic clock both sides read
    ghost var log: seq<Event>
    ghost var origin: map<FlowKey, nat>
    ghost var history: seq<Table>  // history[n] is the table before event n

    ghost predicate Valid()
      reads this
    {
      Inv(log, table, clock, origin, history)
    }

    constructor ()
      ensures Valid() && table == map[] && log == [] && clock == 0
    {
      table, clock, log, origin, history := map[], 0, [], map[], [map[]];
    }

    /** Reads the clock, which may have advanced. */
    method Now() returns (time: nat)
      requires Valid()
      modifies `clock
      ensures Valid() && time == clock >= old(clock)
    {
      var advance: int := *;
      if advance > 0 {
        clock := clock + advance;
      }
      time := clock;
      forall n
        ensures PastAt(log, clock, n)
      {
        assert PastAt(log, old(clock), n);
      }
    }

    /** Takes note of a step whose effect the table already shows. */
    ghost method Record(e: Event, before: Table)
      requires Inv(log, before, clock, origin, history) && table == Apply(before, e)
      requires (e.Handled? ==> VerdictOk(log, |log|, e)) && (IsTimed(e) ==> e.time == clock) && (e.Read? ==> ReadOk(before, e))
      requires e.Handled? && e.accepted ==> if e.reason == ByEvaluation then CodeOf(e.policy).Some? else Touched(e) in before
      requires IsDelete(e) ==> DeleteOk(log, |log|, e.key, e.evidence)
      modifies `log, `origin, `history
      ensures Valid() && log == old(log) + [e] && history == old(history) + [table]
    {
      OriginsKept(log, before, origin, e);
      SeenKept(log, before, clock, e);
      VerdictsKept(log, e);
      DeletesKept(log, e);
      ReadsKept(log, history, e, table);
      ReadSeenKept(log, before, e);
      LaterKept(log, clock, e);
      HistoryKept(log, history, e);
      origin, log, history := OriginAfter(log, origin, e), log + [e], history + [table];
    }

    /** `evaluateFlow`: an accepted flow is stored under the current code. */
    method EvaluateFlow(f: Frame, d: Direction, p: Policy, time: nat) returns (accepted: bool)
      requires WellFormed(p) && CodeOf(p).Some?
      modifies `table
      ensures accepted == Accepts(p, f, d)
      ensures table == if accepted then old(table)[ForwardKey(f, d) := Entry(CodeOf(p).value, time)] else old(table)
    {
      accepted := Evaluate(p, f, d);
      if accepted {
        table := table[ForwardKey(f, d) := Entry(StateCode(p.network.value, p.cluster.value), time)];
      }
    }

    /** The packet's own flow is in the table: accepted under the same code, otherwise evaluated again. */
    method HandleKnown(f: Frame, d: Direction, p: Policy) returns (accepted: bool, ghost e: Event)
      requires Valid() && WellFormed(p) && CodeOf(p).Some? && ForwardKey(f, d) in table
      modifies this
      ensures Valid() && log == old(log) + [e] && history == old(history) + [table]
      ensures IsHandling(e, f, d, p, accepted, old(clock), clock)
      ensures Decided(old(table), e) && table == Apply(old(table), e)
    {
      var key := ForwardKey(f, d);
      var time := Now();
      if table[key].val == StateCode(p.network.value, p.cluster.value) {
        assert OriginAt(log, table, origin, key);
        e := Handled(f, d, p, time, true, ByForward(origin[key]));
        table := table[key := table[key].(lastSeen := time)];
        accepted := true;
        Record(e, old(table));
      } else {
        accepted, e := EvaluateAfresh(f, d, p, time);
      }
    }

    /** Evaluates; what is accepted is stored under the current code, and no entry is left of what is not. */
    method EvaluateAfresh(f: Frame, d: Direction, p: Policy, time: nat) returns (accepted: bool, ghost e: Event)
      requires Valid() && WellFormed(p) && CodeOf(p).Some? && time == clock
      modifies `table, `log, `origin, `history
      ensures Valid() && log == old(log) + [e] && history == old(history) + [table]
      ensures e == Handled(f, d, p, time, accepted, ByEvaluation) && table == Apply(old(table), e)
    {
      accepted := EvaluateFlow(f, d, p, time);
      if !accepted {
        RemoveAbsent(table, ForwardKey(f, d));
        if ForwardKey(f, d) in table {
          table := table - {ForwardKey(f, d)};
        }
      }
      e := Handled(f, d, p, time, accepted, ByEvaluation);
      Record(e, old(table));
    }

    /** The packet's own flow is not in the table: accepted as a response, or evaluated. */
    method HandleUnknown(f: Frame, d: Direction, p: Policy) returns (accepted: bool, ghost e: Event)
      requires Valid() && WellFormed(p) && CodeOf(p).Some? && ForwardKey(f, d) !in table
      modifies this
      ensures Valid() && log == old(log) + [e] && history == old(history) + [table]
      ensures IsHandling(e, f, d, p, accepted, old(clock), clock)
      ensures Decided(old(table), e) && table == Apply(old(table), e)
    {
      var reverse := ReverseKey(f, d);
      var time := Now();
      if reverse in table {
        assert OriginAt(log, table, origin, reverse);
        e := Handled(f, d, p, time, true, ByReverse(origin[reverse]));
        table := table[reverse := table[reverse].(lastSeen := time)];
        accepted := true;
        Record(e, old(table));
      } else {
        accepted, e := EvaluateAfresh(f, d, p, time);
      }
    }

    /** The flow-table part of `handle_ingress` and `handle_egress`, under the policy in force now. */
    method Handle(f: Frame, d: Direction, p: Policy) returns (accepted: bool, ghost e: Event)
      requires Valid() && WellFormed(p)
      modifies this
      ensures Valid() && log == old(log) + [e] && history == old(history) + [table]
      ensures IsHandling(e, f, d, p, accepted, old(clock), clock)
      ensures Decided(old(table), e) && table == Apply(old(table), e)
    {
      if p.network.None? || p.cluster.None? {
        e := Handled(f, d, p, clock, false, NoState);
        Record(e, table);
        accepted := false;
      } else if ForwardKey(f, d) in table {
        accepted, e := HandleKnown(f, d, p);
      } else {
        accepted, e := HandleUnknown(f, d, p);
      }
    }

    /** The LRU map drops any entry at any time. */
    method Evict(key: FlowKey)
      requires Valid()
      modifies this
      ensures Valid() && log == old(log) + [Evicted(key)] && history == old(history) + [table]
      ensures clock == old(clock) && table == old(table) - {key}
    {
      table := table - {key};
      Record(Evicted(key), old(table));
    }

    // ----- the collector's calls

    /** Opening the pinned map, which may fail. */
    method OpenMap() returns (err: bool)
      requires Valid()
      modifies `log, `origin, `history
      ensures Valid() && log == old(log) + (if err then [OpenFailed] else []) && old(history) <= history
    {
      err := *;
      if err {
        Record(OpenFailed, table);
      }
    }

    /** `KtimeGetNs`: the same clock as the programs', which may fail to be read. */
    method KtimeGetNs() returns (time: Option<nat>)
      requires Valid()
      modifies `clock, `log, `origin, `history
      ensures Valid() && old(history) <= history && clock >= old(clock)
      ensures log == old(log) + [if time.Some? then ClockRead(time.value) else ClockFailed]
      ensures time.Some? ==> time.value == clock
    {
      var fails: bool := *;
      if fails {
        Record(ClockFailed, table);
        return None;
      }
      var now := Now();
      Record(ClockRead(now), table);
      return Some(now);
    }

    /** The kernel's listing of its own flows, which may fail. */
    method ConntrackTableList() returns (flows: Option<seq<KernelFlow>>)
      requires Valid()
      modifies `log, `origin, `history
      ensures Valid() && old(history) <= history
      ensures log == old(log) + [if flows.Some? then FlowsListed(flows.value) else ListingFailed]
    {
      var fails: bool, listed: seq<KernelFlow> := *, *;
      if fails {
        Record(ListingFailed, table);
        return None;
      }
      Record(FlowsListed(listed), table);
      return Some(listed);
    }

    /** The first key of the map, which may fail to be read or not be there; both end the walk with an error. */
    method GetFirstKey() returns (key: Option<FlowKey>)
      requires Valid()
      modifies `log, `origin, `history
      ensures Valid() && old(history) <= history
      ensures log == old(log) + [if key.None? then WalkFailed else Walked(key.value)]
    {
      var fails: bool, first: FlowKey := *, *;
      if fails {
        Record(WalkFailed, table);
        return None;
      }
      Record(Walked(first), table);
      return Some(first);
    }

    /** The next key of the walk; there is none at its end, and a failure ends it just so. */
    method GetNextKey(more: bool) returns (key: Option<FlowKey>)
      requires Valid()
      modifies `log, `origin, `history
      ensures Valid() && old(history) <= history && (!more ==> key.None?)
      ensures log == old(log) + [if key.None? then WalkEnded else Walked(key.value)]
    {
      var ends: bool, next: FlowKey := *, *;
      if ends || !more {
        Record(WalkEnded, table);
        return None;
      }
      Record(Walked(next), table);
      return Some(next);
    }

    /** The map lookup of user space: it may fail, and finds no entry where there is none. */
    method GetMapEntry(key: FlowKey) returns (result: ReadResult)
      requires Valid()
      modifies `log, `origin, `history
      ensures Valid() && old(history) <= history && log == old(log) + [Read(key, result)]
    {
      var fails: bool := *;
      result := if fails then Failed else if key in table then Found(table[key]) else Missing;
      Record(Read(key, result), table);
    }

    /** The collector's delete, which may fail. */
    method DeleteMapEntry(key: FlowKey, ghost v: Evidence) returns (ghost e: Event)
      requires Valid() && DeleteOk(log, |log|, key, v)
      modifies this
      ensures Valid() && clock == old(clock) && old(history) <= history
      ensures log == old(log) + [e] && (e == Collected(key, v) || e == DeleteFailed(key, v)) && table == Apply(old(table), e)
    {
      var fails: bool := *;
      if fails {
        e := DeleteFailed(key, v);
      } else {
        table := table - {key};
        e := Collected(key, v);
      }
      Record(e, old(table));
    }

    /** Every step since `from` is a packet or an eviction. */
    ghost predicate OnlyTraffic(from: nat)
      reads this
    {
      forall n | from <= n < |log| :: log[n].Handled? || log[n].Evicted?
    }

    /** Any packets and evictions, under any policies. */
    method Traffic()
      requires Valid()
      modifies this
      ensures Valid() && old(log) <= log && old(history) <= history && clock >= old(clock)
      ensures OnlyTraffic(|old(log)|)
    {
      var steps: int := *;
      var n := 0;
      while n < steps
        invariant Valid() && old(log) <= log && old(history) <= history && clock >= old(clock)
        invariant OnlyTraffic(|old(log)|)
      {
        var isPacket: bool := *;
        if isPacket {
          var frame: Frame, d: Direction, policy: Policy := *, *, *;
          if WellFormed(policy) {
            var _, _ := Handle(frame, d, policy);
          }
        } else {
          var key: FlowKey := *;
          Evict(key);
        }
        n := n + 1;
      }
    }
  }
}
