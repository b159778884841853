/** The ref-counted keyed mutex as interleaved steps of any number of threads over any number of keys. */
module KeyedMutex {
  import opened Basics

  type Thread = nat
  type Key = string
  type Mutex = nat

  /** Where a thread is in Lock or Unlock; `own` is the inner mutex its Lock acquired. */
  datatype Pc =
    | Idle
    | LockWaitsMu(key: Key)                     // waiting for the outer mutex
    | LockHasMu(key: Key)
    | LockCounted(key: Key, own: Mutex)         // counted in refs, outer mutex still held
    | Waiting(key: Key, own: Mutex)             // waiting for the inner mutex
    | Holding(key: Key, own: Mutex)             // Lock has returned
    | UnlockWaitsMu(key: Key, own: Mutex)
    | UnlockHasMu(key: Key, own: Mutex)
    | UnlockCounted(key: Key, own: Mutex, found: Mutex)
    | Releasing(key: Key, own: Mutex, found: Mutex)  // outer mutex released, inner one not yet
    | Panicked

  datatype State = State(
    threads: map<Thread, Pc>,
    mu: Option<Thread>,        // who holds the outer mutex
    locks: map<Key, Mutex>,
    refs: map<Mutex, int>,
    locked: map<Mutex, Thread>,  // inner mutexes that are locked, and by whom
    next: Mutex)               // mutex objects not created yet

  function PcOf(s: State, t: Thread): Pc {
    if t in s.threads then s.threads[t] else Idle
  }

  function At(s: State, t: Thread, pc: Pc): State {
    s.(threads := s.threads[t := pc])
  }

  ghost predicate Init(s: State) {
    s == State(map[], None, map[], map[], map[], 0)
  }

  // ----- steps

  predicate CallLock(s: State, s': State, t: Thread, key: Key) {
    PcOf(s, t) == Idle && s' == At(s, t, LockWaitsMu(key))
  }

  predicate AcquireMu(s: State, s': State, t: Thread) {
    && s.mu == None
    && match PcOf(s, t)
       case LockWaitsMu(key) => s' == At(s, t, LockHasMu(key)).(mu := Some(t))
       case UnlockWaitsMu(key, own) => s' == At(s, t, UnlockHasMu(key, own)).(mu := Some(t))
       case _ => false
  }

  /** Look up the key's mutex, or create it, and count this thread. */
  predicate LockBody(s: State, s': State, t: Thread) {
    match PcOf(s, t)
    case LockHasMu(key) =>
      if key in s.locks && s.locks[key] in s.refs then
        var m := s.locks[key];
        s' == At(s, t, LockCounted(key, m)).(refs := s.refs[m := s.refs[m] + 1])
      else
        var m := s.next;
        s' == At(s, t, LockCounted(key, m)).(locks := s.locks[key := m], refs := s.refs[m := 1], next := m + 1)
    case _ => false
  }

  predicate ReleaseMu(s: State, s': State, t: Thread) {
    match PcOf(s, t)
    case LockCounted(key, own) => s' == At(s, t, Waiting(key, own)).(mu := None)
    case UnlockCounted(key, own, found) => s' == At(s, t, Releasing(key, own, found)).(mu := None)
    case _ => false
  }

  predicate AcquireInner(s: State, s': State, t: Thread) {
    match PcOf(s, t)
    case Waiting(key, own) => own !in s.locked && s' == At(s, t, Holding(key, own)).(locked := s.locked[own := t])
    case _ => false
  }

  predicate CallUnlock(s: State, s': State, t: Thread) {
    match PcOf(s, t)
    case Holding(key, own) => s' == At(s, t, UnlockWaitsMu(key, own))
    case _ => false
  }

  /** Look the mutex up again, stop counting this thread, and forget the key when nobody is left. */
  predicate UnlockBody(s: State, s': State, t: Thread) {
    match PcOf(s, t)
    case UnlockHasMu(key, own) =>
      if key in s.locks && s.locks[key] in s.refs then
        var m := s.locks[key];
        s' == At(s, t, UnlockCounted(key, own, m)).(refs := s.refs[m := s.refs[m] - 1],
                                                    locks := if s.refs[m] - 1 == 0 then s.locks - {key} else s.locks)
      else s' == At(s, t, Panicked).(mu := None)
    case _ => false
  }

  /** Unlocking a mutex that is not locked is a fatal error. */
  predicate ReleaseInner(s: State, s': State, t: Thread) {
    match PcOf(s, t)
    case Releasing(key, own, found) =>
      if found in s.locked then s' == At(s, t, Idle).(locked := s.locked - {found}) else s' == At(s, t, Panicked)
    case _ => false
  }

  predicate ThreadStep(s: State, s': State, t: Thread) {
    || AcquireMu(s, s', t) || LockBody(s, s', t) || ReleaseMu(s, s', t) || AcquireInner(s, s', t)
    || CallUnlock(s, s', t) || UnlockBody(s, s', t) || ReleaseInner(s, s', t)
  }

  ghost predicate Next(s: State, s': State) {
    (exists t, key :: CallLock(s, s', t, key)) || (exists t :: ThreadStep(s, s', t))
  }

  // ----- the invariant

  /** Counted in refs: waiting for the inner mutex, holding it, or on the way out but not yet uncounted. */
  predicate Counted(pc: Pc) {
    pc.LockCounted? || pc.Waiting? || pc.Holding? || pc.UnlockWaitsMu? || pc.UnlockHasMu?
  }

  /** Has the inner mutex. */
  predicate HasInner(pc: Pc) {
    pc.Holding? || pc.UnlockWaitsMu? || pc.UnlockHasMu? || pc.UnlockCounted? || pc.Releasing?
  }

  predicate HasMu(pc: Pc) {
    pc.LockHasMu? || pc.LockCounted? || pc.UnlockHasMu? || pc.UnlockCounted?
  }

  function Users(s: State, key: Key): set<Thread> {
    set t | t in s.threads && Counted(s.threads[t]) && s.threads[t].key == key
  }

  ghost predicate GoodThread(s: State, t: Thread) {
    var pc := PcOf(s, t);
    && !pc.Panicked?
    && (HasMu(pc) <==> s.mu == Some(t))
    && (Counted(pc) ==> pc.key in s.locks && s.locks[pc.key] == pc.own)
    && (HasInner(pc) ==> pc.own in s.locked && s.locked[pc.own] == t)
    && (pc.UnlockCounted? || pc.Releasing? ==> pc.found == pc.own)
  }

  ghost predicate GoodKey(s: State, key: Key) {
    if key in s.locks then
      var m := s.locks[key];
      m in s.refs && s.refs[m] == |Users(s, key)| && s.refs[m] > 0 && m < s.next
    else Users(s, key) == {}
  }

  ghost predicate Inv(s: State) {
    && (forall t :: GoodThread(s, t))
    && (forall key :: GoodKey(s, key))
    && (forall k, l | k in s.locks && l in s.locks && s.locks[k] == s.locks[l] :: k == l)
    && (forall m | m in s.locked :: m < s.next && HasInner(PcOf(s, s.locked[m])) && PcOf(s, s.locked[m]).own == m)
  }

  // ----- what the invariant says to the caller

  /** Between Lock's return and Unlock's call at most one thread is inside for a key. */
  lemma MutualExclusion(s: State, t: Thread, u: Thread)
    requires Inv(s) && PcOf(s, t).Holding? && PcOf(s, u).Holding? && PcOf(s, t).key == PcOf(s, u).key
    ensures t == u
  {
    assert GoodThread(s, t) && GoodThread(s, u);
  }

  /** Holders and waiters of a key share one mutex, refs is their number, and the key is stored iff there are any. */
  lemma OneMutexPerKey(s: State, key: Key)
    requires Inv(s)
    ensures key in s.locks <==> Users(s, key) != {}
    ensures key in s.locks ==> s.locks[key] in s.refs && s.refs[s.locks[key]] == |Users(s, key)|
    ensures forall t | t in Users(s, key) :: key in s.locks && s.threads[t].own == s.locks[key]
  {
    assert GoodKey(s, key);
    forall t | t in Users(s, key)
      ensures key in s.locks && s.threads[t].own == s.locks[key]
    {
      assert GoodThread(s, t);
    }
  }

  // ----- preservation

  lemma UsersOtherwise(s: State, s': State, t: Thread, pc: Pc, key: Key)
    requires s'.threads == s.threads[t := pc]
    ensures Users(s', key) == Users(s, key) - {t} + if Counted(pc) && pc.key == key then {t} else {}
    ensures t in Users(s, key) <==> Counted(PcOf(s, t)) && PcOf(s, t).key == key
  {
  }

  /** Steps that change neither locks, refs nor who is counted for which key. */
  lemma QuietStep(s: State, s': State, t: Thread, pc: Pc)
    requires Inv(s) && s'.threads == s.threads[t := pc] && s'.locks == s.locks && s'.refs == s.refs && s'.next == s.next
    requires Counted(pc) == Counted(PcOf(s, t)) && (Counted(pc) ==> pc.key == PcOf(s, t).key && pc.own == PcOf(s, t).own)
    requires GoodThread(s', t)
    requires s'.mu == s.mu || (s.mu == None && s'.mu == Some(t)) || (s.mu == Some(t) && s'.mu == None)
    requires forall m | m in s.locked && s.locked[m] != t :: m in s'.locked && s'.locked[m] == s.locked[m]
    requires forall m | m in s'.locked :: m < s.next && HasInner(PcOf(s', s'.locked[m])) && PcOf(s', s'.locked[m]).own == m
    ensures Inv(s')
  {
    forall u
      ensures GoodThread(s', u)
    {
      assert GoodThread(s, u);
    }
    forall key
      ensures GoodKey(s', key)
    {
      assert GoodKey(s, key);
      UsersOtherwise(s, s', t, pc, key);
      assert Users(s', key) == Users(s, key);
    }
  }

  lemma CallLockKeepsInv(s: State, s': State, t: Thread, key: Key)
    requires Inv(s) && CallLock(s, s', t, key)
    ensures Inv(s')
  {
    assert GoodThread(s, t);
    QuietStep(s, s', t, LockWaitsMu(key));
  }

  lemma AcquireMuKeepsInv(s: State, s': State, t: Thread)
    requires Inv(s) && AcquireMu(s, s', t)
    ensures Inv(s')
  {
    assert GoodThread(s, t);
    QuietStep(s, s', t, PcOf(s', t));
  }

  lemma ReleaseMuKeepsInv(s: State, s': State, t: Thread)
    requires Inv(s) && ReleaseMu(s, s', t)
    ensures Inv(s')
  {
    assert GoodThread(s, t);
    QuietStep(s, s', t, PcOf(s', t));
  }

  lemma AcquireInnerKeepsInv(s: State, s': State, t: Thread)
    requires Inv(s) && AcquireInner(s, s', t)
    ensures Inv(s')
  {
    assert GoodThread(s, t) && GoodKey(s, PcOf(s, t).key);
    QuietStep(s, s', t, PcOf(s', t));
  }

  lemma CallUnlockKeepsInv(s: State, s': State, t: Thread)
    requires Inv(s) && CallUnlock(s, s', t)
    ensures Inv(s')
  {
    assert GoodThread(s, t);
    QuietStep(s, s', t, PcOf(s', t));
  }

  lemma ReleaseInnerKeepsInv(s: State, s': State, t: Thread)
    requires Inv(s) && ReleaseInner(s, s', t)
    ensures Inv(s')
  {
    assert GoodThread(s, t);
    QuietStep(s, s', t, PcOf(s', t));
  }

  lemma LockBodyThread(s: State, s': State, t: Thread, u: Thread)
    requires LockBody(s, s', t) && GoodThread(s, t) && GoodThread(s, u) && GoodKey(s, PcOf(s, t).key)
    ensures GoodThread(s', u)
  {
    assert u != t && Counted(PcOf(s, u)) && PcOf(s, u).key == PcOf(s, t).key ==> u in Users(s, PcOf(s, t).key);
  }

  lemma LockBodyKey(s: State, s': State, t: Thread, key: Key)
    requires LockBody(s, s', t) && GoodKey(s, PcOf(s, t).key) && GoodKey(s, key)
    requires key in s.locks && PcOf(s, t).key in s.locks && s.locks[key] == s.locks[PcOf(s, t).key] ==> key == PcOf(s, t).key
    ensures GoodKey(s', key)
  {
    if key != PcOf(s, t).key {
      LockOtherKey(s, s', t, key);
    } else {
      LockOwnKey(s, s', t);
    }
  }

  lemma LockOtherKey(s: State, s': State, t: Thread, key: Key)
    requires LockBody(s, s', t) && GoodKey(s, key) && key != PcOf(s, t).key
    requires key in s.locks && PcOf(s, t).key in s.locks ==> s.locks[key] != s.locks[PcOf(s, t).key]
    ensures GoodKey(s', key)
  {
    UsersOtherwise(s, s', t, PcOf(s', t), key);
    assert Users(s', key) == Users(s, key);
  }

  lemma LockOwnKey(s: State, s': State, t: Thread)
    requires LockBody(s, s', t) && GoodKey(s, PcOf(s, t).key)
    ensures GoodKey(s', PcOf(s, t).key)
  {
    var key := PcOf(s, t).key;
    UsersOtherwise(s, s', t, PcOf(s', t), key);
    assert t !in Users(s, key) && |Users(s', key)| == |Users(s, key)| + 1;
  }

  lemma LockBodyKeepsInv(s: State, s': State, t: Thread)
    requires Inv(s) && LockBody(s, s', t)
    ensures Inv(s')
  {
    assert GoodThread(s, t) && GoodKey(s, PcOf(s, t).key);
    forall u ensures GoodThread(s', u) {
      assert GoodThread(s, u);
      LockBodyThread(s, s', t, u);
    }
    forall k ensures GoodKey(s', k) {
      assert GoodKey(s, k);
      LockBodyKey(s, s', t, k);
    }
    forall k, l | k in s'.locks && l in s'.locks && s'.locks[k] == s'.locks[l]
      ensures k == l
    {
      assert GoodKey(s, k) && GoodKey(s, l);
    }
  }

  lemma UnlockBodyThread(s: State, s': State, t: Thread, u: Thread)
    requires UnlockBody(s, s', t) && GoodThread(s, t) && GoodThread(s, u) && GoodKey(s, PcOf(s, t).key)
    ensures GoodThread(s', u)
  {
    assert t in Users(s, PcOf(s, t).key);
    UncountedKeyIsUnused(s, t, u, PcOf(s, t).key);
  }

  lemma UnlockBodyKey(s: State, s': State, t: Thread, key: Key)
    requires UnlockBody(s, s', t) && GoodThread(s, t) && GoodKey(s, PcOf(s, t).key) && GoodKey(s, key)
    requires key in s.locks && s.locks[key] == s.locks[PcOf(s, t).key] ==> key == PcOf(s, t).key
    ensures GoodKey(s', key)
  {
    if key != PcOf(s, t).key {
      UsersOtherwise(s, s', t, PcOf(s', t), key);
      assert Users(s', key) == Users(s, key);
    } else {
      UnlockOwnKey(s, s', t);
    }
  }

  lemma UnlockOwnKey(s: State, s': State, t: Thread)
    requires UnlockBody(s, s', t) && GoodThread(s, t) && GoodKey(s, PcOf(s, t).key)
    ensures GoodKey(s', PcOf(s, t).key)
  {
    var key := PcOf(s, t).key;
    UsersOtherwise(s, s', t, PcOf(s', t), key);
    assert t in Users(s, key) && |Users(s', key)| == |Users(s, key)| - 1;
  }

  lemma UnlockBodyKeepsInv(s: State, s': State, t: Thread)
    requires Inv(s) && UnlockBody(s, s', t)
    ensures Inv(s')
  {
    assert GoodThread(s, t) && GoodKey(s, PcOf(s, t).key);
    forall u ensures GoodThread(s', u) {
      assert GoodThread(s, u);
      UnlockBodyThread(s, s', t, u);
    }
    forall k ensures GoodKey(s', k) {
      assert GoodKey(s, k);
      UnlockBodyKey(s, s', t, k);
    }
  }

  /** When the count drops to zero no other thread is counted for the key. */
  lemma UncountedKeyIsUnused(s: State, t: Thread, u: Thread, key: Key)
    requires GoodKey(s, key) && key in s.locks && t in Users(s, key)
    ensures s.refs[s.locks[key]] == 1 && u != t ==> !(Counted(PcOf(s, u)) && PcOf(s, u).key == key)
  {
    if s.refs[s.locks[key]] == 1 && u != t && Counted(PcOf(s, u)) && PcOf(s, u).key == key {
      assert {t, u} <= Users(s, key);
      SubsetSize({t, u}, Users(s, key));
    }
  }

  lemma SubsetSize(a: set<Thread>, b: set<Thread>)
    requires a <= b
    ensures |a| <= |b|
  {
    if a != {} {
      var x :| x in a;
      SubsetSize(a - {x}, b - {x});
    }
  }

  lemma NextKeepsInv(s: State, s': State)
    requires Inv(s) && Next(s, s')
    ensures Inv(s')
  {
    if t, key :| CallLock(s, s', t, key) {
      CallLockKeepsInv(s, s', t, key);
    } else {
      var t :| ThreadStep(s, s', t);
      if AcquireMu(s, s', t) {
        AcquireMuKeepsInv(s, s', t);
      } else if LockBody(s, s', t) {
        LockBodyKeepsInv(s, s', t);
      } else if ReleaseMu(s, s', t) {
        ReleaseMuKeepsInv(s, s', t);
      } else if AcquireInner(s, s', t) {
        AcquireInnerKeepsInv(s, s', t);
      } else if CallUnlock(s, s', t) {
        CallUnlockKeepsInv(s, s', t);
      } else if UnlockBody(s, s', t) {
        UnlockBodyKeepsInv(s, s', t);
      } else {
        ReleaseInnerKeepsInv(s, s', t);
      }
    }
  }

  // ----- every run

  ghost predicate IsRun(run: seq<State>) {
    run != [] && Init(run[0]) && forall i | 0 <= i < |run| - 1 :: Next(run[i], run[i + 1])
  }

  lemma {:induction false} RunKeepsInv(run: seq<State>, i: nat)
    requires IsRun(run) && i < |run|
    ensures Inv(run[i])
  {
    if i == 0 {
      assert forall key :: Users(run[0], key) == {};
    } else {
      RunKeepsInv(run, i - 1);
      assert Next(run[i - 1], run[i - 1 + 1]);
      NextKeepsInv(run[i - 1], run[i]);
    }
  }

  /** In every reachable state the lock excludes, counts and stores exactly, and nobody panicked. */
  lemma RunsAreSafe(run: seq<State>, i: nat)
    requires IsRun(run) && i < |run|
    ensures forall t, u | PcOf(run[i], t).Holding? && PcOf(run[i], u).Holding?
                          && PcOf(run[i], t).key == PcOf(run[i], u).key :: t == u
    ensures forall key :: key in run[i].locks <==> Users(run[i], key) != {}
    ensures forall key | key in run[i].locks ::
              run[i].locks[key] in run[i].refs && run[i].refs[run[i].locks[key]] == |Users(run[i], key)|
    ensures forall t :: !PcOf(run[i], t).Panicked?
  {
    RunKeepsInv(run, i);
    forall t, u | PcOf(run[i], t).Holding? && PcOf(run[i], u).Holding? && PcOf(run[i], t).key == PcOf(run[i], u).key
      ensures t == u
    {
      MutualExclusion(run[i], t, u);
    }
    forall key
      ensures key in run[i].locks <==> Users(run[i], key) != {}
      ensures key in run[i].locks ==> run[i].locks[key] in run[i].refs && run[i].refs[run[i].locks[key]] == |Users(run[i], key)|
    {
      OneMutexPerKey(run[i], key);
    }
    forall t
      ensures !PcOf(run[i], t).Panicked?
    {
      assert GoodThread(run[i], t);
    }
  }

  // ----- progress

  ghost predicate CanStep(s: State, t: Thread) {
    exists s' :: ThreadStep(s, s', t)
  }

  /** Nothing is in the thread's way. */
  predicate IsFree(s: State, t: Thread) {
    match PcOf(s, t)
    case Idle => false
    case LockWaitsMu(_) => s.mu == None
    case UnlockWaitsMu(_, _) => s.mu == None
    case Waiting(_, own) => own !in s.locked
    case Panicked => false
    case _ => true
  }

  /** Only the outer mutex and the key's own mutex ever keep a thread from its next step, and nothing keeps it from calling. */
  lemma FreeCanStep(s: State, t: Thread, key: Key)
    ensures CanStep(s, t) <==> IsFree(s, t)
    ensures PcOf(s, t) == Idle ==> exists s' :: CallLock(s, s', t, key)
  {
    if IsFree(s, t) {
      var s' := Stepped(s, t);
      assert ThreadStep(s, s', t);
    }
    if PcOf(s, t) == Idle {
      assert CallLock(s, At(s, t, LockWaitsMu(key)), t, key);
    }
  }

  /** The state after the thread's next step. */
  ghost function Stepped(s: State, t: Thread): (s': State)
    requires IsFree(s, t)
    ensures ThreadStep(s, s', t) && s'.threads == s.threads[t := PcOf(s', t)]
  {
    match PcOf(s, t)
    case LockWaitsMu(key) => At(s, t, LockHasMu(key)).(mu := Some(t))
    case LockHasMu(key) =>
      if key in s.locks && s.locks[key] in s.refs then
        At(s, t, LockCounted(key, s.locks[key])).(refs := s.refs[s.locks[key] := s.refs[s.locks[key]] + 1])
      else At(s, t, LockCounted(key, s.next)).(locks := s.locks[key := s.next], refs := s.refs[s.next := 1], next := s.next + 1)
    case LockCounted(key, own) => At(s, t, Waiting(key, own)).(mu := None)
    case Waiting(key, own) => At(s, t, Holding(key, own)).(locked := s.locked[own := t])
    case Holding(key, own) => At(s, t, UnlockWaitsMu(key, own))
    case UnlockWaitsMu(key, own) => At(s, t, UnlockHasMu(key, own)).(mu := Some(t))
    case UnlockHasMu(key, own) =>
      if key in s.locks && s.locks[key] in s.refs then
        var m := s.locks[key];
        At(s, t, UnlockCounted(key, own, m)).(refs := s.refs[m := s.refs[m] - 1],
                                              locks := if s.refs[m] - 1 == 0 then s.locks - {key} else s.locks)
      else At(s, t, Panicked).(mu := None)
    case UnlockCounted(key, own, found) => At(s, t, Releasing(key, own, found)).(mu := None)
    case Releasing(key, own, found) =>
      if found in s.locked then At(s, t, Idle).(locked := s.locked - {found}) else At(s, t, Panicked)
  }

  /** The thread waits for a key while another thread is between Lock's return and Unlock's call for that key. */
  predicate WaitsForHolder(s: State, t: Thread) {
    var pc := PcOf(s, t);
    && pc.Waiting? && pc.own in s.locked
    && PcOf(s, s.locked[pc.own]).Holding? && PcOf(s, s.locked[pc.own]).key == pc.key
  }

  /** A thread inside Lock or Unlock waits for a holder of its own key, or some thread that holds no key can step. */
  lemma OnlyHoldersBlock(s: State, t: Thread)
    requires Inv(s) && PcOf(s, t) != Idle && !PcOf(s, t).Holding? && !WaitsForHolder(s, t)
    ensures exists u :: !PcOf(s, u).Holding? && CanStep(s, u)
  {
    assert GoodThread(s, t);
    if s.mu.Some? {
      var u := s.mu.value;
      assert GoodThread(s, u);
      FreeCanStep(s, u, "");
    } else {
      FreeCanStep(s, t, "");
      if !IsFree(s, t) {
        var u := s.locked[PcOf(s, t).own];
        assert GoodThread(s, u);
        FreeCanStep(s, u, "");
      }
    }
  }

  /** Whatever else is held: a key that nobody holds has nobody stuck on it. */
  lemma KeysAreIndependent(s: State, key: Key)
    requires Inv(s) && forall u :: PcOf(s, u).Holding? ==> PcOf(s, u).key != key
    ensures forall t | PcOf(s, t) != Idle && !PcOf(s, t).Panicked? && PcOf(s, t).key == key ::
              exists u :: !PcOf(s, u).Holding? && CanStep(s, u)
  {
    forall t | PcOf(s, t) != Idle && !PcOf(s, t).Panicked? && PcOf(s, t).key == key
      ensures exists u :: !PcOf(s, u).Holding? && CanStep(s, u)
    {
      OnlyHoldersBlock(s, t);
    }
  }

  lemma NoDeadlock(s: State, t: Thread)
    requires Inv(s) && PcOf(s, t) != Idle
    ensures exists u :: CanStep(s, u)
  {
    if PcOf(s, t).Holding? {
      FreeCanStep(s, t, "");
    } else if WaitsForHolder(s, t) {
      FreeCanStep(s, s.locked[PcOf(s, t).own], "");
    } else {
      OnlyHoldersBlock(s, t);
    }
  }

  /** The steps a thread has left until its Unlock has returned. */
  function StepsLeft(pc: Pc): nat {
    match pc
    case LockWaitsMu(_) => 9
    case LockHasMu(_) => 8
    case LockCounted(_, _) => 7
    case Waiting(_, _) => 6
    case Holding(_, _) => 5
    case UnlockWaitsMu(_, _) => 4
    case UnlockHasMu(_, _) => 3
    case UnlockCounted(_, _, _) => 2
    case Releasing(_, _, _) => 1
    case Idle => 0
    case Panicked => 0
  }

  /** The steps that the threads below `n` have left. */
  function AllStepsLeft(s: State, n: nat): nat {
    if n == 0 then 0 else AllStepsLeft(s, n - 1) + StepsLeft(PcOf(s, n - 1))
  }

  lemma StepCounts(s: State, s': State, t: Thread)
    requires Inv(s) && ThreadStep(s, s', t)
    ensures StepsLeft(PcOf(s', t)) == StepsLeft(PcOf(s, t)) - 1 && forall u | u != t :: PcOf(s', u) == PcOf(s, u)
    ensures t in s.threads && s'.threads.Keys == s.threads.Keys
  {
    StepIsThat(s, s', t);
    SteppedCounts(s, t);
  }

  lemma SteppedCounts(s: State, t: Thread)
    requires Inv(s) && IsFree(s, t)
    ensures StepsLeft(PcOf(Stepped(s, t), t)) == StepsLeft(PcOf(s, t)) - 1
  {
    assert GoodThread(s, t);
    if PcOf(s, t).UnlockHasMu? {
      assert GoodKey(s, PcOf(s, t).key);
    }
  }

  lemma StepIsThat(s: State, s': State, t: Thread)
    requires ThreadStep(s, s', t)
    ensures IsFree(s, t) && s' == Stepped(s, t)
  {
  }

  lemma {:induction false} AllStepsCount(s: State, s': State, t: Thread, n: nat)
    requires StepsLeft(PcOf(s', t)) == StepsLeft(PcOf(s, t)) - 1 && forall u | u != t :: PcOf(s', u) == PcOf(s, u)
    ensures AllStepsLeft(s', n) == AllStepsLeft(s, n) - if t < n then 1 else 0
  {
    if n > 0 {
      AllStepsCount(s, s', t, n - 1);
    }
  }

  ghost predicate SomeStep(s: State, s': State) {
    exists t :: ThreadStep(s, s', t)
  }

  /** A run in which nobody calls Lock any more. */
  ghost predicate IsEnding(run: seq<State>) {
    run != [] && forall i | 0 <= i < |run| - 1 :: SomeStep(run[i], run[i + 1])
  }

  /** Such a run uses up the steps the threads have left, one by one. */
  lemma {:induction false} EndingCounts(run: seq<State>, n: nat, i: nat)
    requires IsEnding(run) && Inv(run[0]) && (forall t | t in run[0].threads :: t < n) && i < |run|
    ensures Inv(run[i]) && run[i].threads.Keys == run[0].threads.Keys
    ensures i + AllStepsLeft(run[i], n) == AllStepsLeft(run[0], n)
  {
    if i > 0 {
      EndingCounts(run, n, i - 1);
      var s, s' := run[i - 1], run[i - 1 + 1];
      assert SomeStep(s, s');
      var t :| ThreadStep(s, s', t);
      NextKeepsInv(s, s');
      StepCounts(s, s', t);
      AllStepsCount(s, s', t, n);
    }
  }

  /**
   * From every state of every run: if no new calls are made, the threads go on for at most the number of steps they have left,
   * and they only stop when all of them have had the lock and left. If holders keep their keys, they only stop when everyone
   * else waits for one of these keys.
   */
  lemma EveryoneIsServed(run: seq<State>, k: nat, ending: seq<State>, n: nat)
    requires IsRun(run) && k < |run| && IsEnding(ending) && ending[0] == run[k] && forall t | t in run[k].threads :: t < n
    ensures |ending| <= AllStepsLeft(run[k], n) + 1
    ensures var s := ending[|ending| - 1];
            (forall t :: !CanStep(s, t)) ==> forall t :: PcOf(s, t) == Idle
    ensures var s := ending[|ending| - 1];
            (forall t :: PcOf(s, t).Holding? || !CanStep(s, t)) ==>
              forall t :: PcOf(s, t) == Idle || PcOf(s, t).Holding? || WaitsForHolder(s, t)
  {
    RunKeepsInv(run, k);
    EndingCounts(ending, n, |ending| - 1);
    var s := ending[|ending| - 1];
    forall t
      ensures (forall u :: !CanStep(s, u)) ==> PcOf(s, t) == Idle
      ensures (forall u :: PcOf(s, u).Holding? || !CanStep(s, u)) ==>
                PcOf(s, t) == Idle || PcOf(s, t).Holding? || WaitsForHolder(s, t)
    {
      if PcOf(s, t) != Idle {
        NoDeadlock(s, t);
        if !PcOf(s, t).Holding? && !WaitsForHolder(s, t) {
          OnlyHoldersBlock(s, t);
        }
      }
    }
  }
}
