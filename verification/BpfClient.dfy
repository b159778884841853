/** The per-identifier life of eBPF programs: attach, delete and update, each atomic under the identifier's lock. */
module BpfClient {
  import opened Basics
  import opened PolicyTypes
  import opened TrieEncoding
  import opened ShadowMap
  import PodNames

  datatype Pod = Pod(name: string, namespace: string)

  function IdOf(p: Pod): Identifier {
    Identifier(PodNames.PodIdentifier(p.name, p.namespace))
  }

  /** Pods share programs iff they are of one workload of one namespace. */
  lemma IdMeansWorkload(p: Pod, q: Pod)
    requires PodNames.IsDns(p.name) && PodNames.IsDns(p.namespace) && PodNames.IsDns(q.name) && PodNames.IsDns(q.namespace)
    ensures IdOf(p) == IdOf(q) <==> PodNames.Base(p.name) == PodNames.Base(q.name) && p.namespace == q.namespace
  {
    PodNames.IdentifierIdentity(p.name, p.namespace, q.name, q.namespace);
  }

  /** A loaded program with its maps; file descriptor 0 means there is none. */
  datatype Program = Program(fd: nat, rules: nat, clusterRules: nat)

  const NO_PROGRAM := Program(0, 0, 0)

  datatype Context = Context(ingress: Program, egress: Program)
  type Contexts = map<Identifier, Context>

  function On(context: Context, d: Direction): Program {
    if d.Ingress? then context.ingress else context.egress
  }

  function ContextOf(contexts: Contexts, i: Identifier): Context {
    if i in contexts then contexts[i] else Context(NO_PROGRAM, NO_PROGRAM)
  }

  function Fd(contexts: Contexts, i: Identifier, d: Direction): nat {
    On(ContextOf(contexts, i), d).fd
  }

  /** Both programs are loaded. */
  predicate Complete(contexts: Contexts, i: Identifier) {
    Fd(contexts, i, Ingress) != 0 && Fd(contexts, i, Egress) != 0
  }

  ghost predicate Apart(contexts: Contexts, nextId: nat, i: Identifier, j: Identifier, d: Direction) {
    Fd(contexts, i, d) < nextId && (Fd(contexts, i, d) == Fd(contexts, j, d) != 0 ==> i == j)
  }

  /** Programs are never shared by identifiers, and their numbers have been given out. */
  ghost predicate DistinctPrograms(contexts: Contexts, nextId: nat) {
    nextId > 0 && forall i, j, d :: Apart(contexts, nextId, i, j, d)
  }

  /** A program that was loaded is still the same. */
  ghost predicate Lasts(before: Contexts, after: Contexts, i: Identifier, d: Direction) {
    Fd(before, i, d) != 0 ==> On(ContextOf(after, i), d) == On(ContextOf(before, i), d)
  }

  /** Only the context of `i` may have changed, and only by gaining programs. */
  ghost predicate Extends(before: Contexts, after: Contexts, i: Identifier) {
    && before.Keys <= after.Keys && before - {i} == after - {i}
    && Lasts(before, after, i, Ingress) && Lasts(before, after, i, Egress)
  }

  lemma ExtendsElsewhere(before: Contexts, after: Contexts, i: Identifier, j: Identifier)
    requires Extends(before, after, i)
    ensures j != i ==> ContextOf(after, j) == ContextOf(before, j)
    ensures forall d :: Lasts(before, after, j, d)
  {
    assert j != i ==> (j in before <==> j in before - {i}) && (j in after <==> j in after - {i});
  }

  lemma ExtendsTransitive(a: Contexts, b: Contexts, c: Contexts, i: Identifier)
    requires Extends(a, b, i) && Extends(b, c, i)
    ensures Extends(a, c, i)
  {
  }

  function WithProgram(contexts: Contexts, i: Identifier, d: Direction, program: Program): Contexts {
    var context := ContextOf(contexts, i);
    contexts[i := if d.Ingress? then context.(ingress := program) else context.(egress := program)]
  }

  lemma LoadExtends(contexts: Contexts, i: Identifier, d: Direction, program: Program, nextId: nat)
    requires DistinctPrograms(contexts, program.fd) && program.fd < nextId && Fd(contexts, i, d) == 0
    ensures DistinctPrograms(WithProgram(contexts, i, d, program), nextId)
    ensures Extends(contexts, WithProgram(contexts, i, d, program), i)
  {
    var after := WithProgram(contexts, i, d, program);
    forall j, e
      ensures Fd(after, j, e) == if j == i && e == d then program.fd else Fd(contexts, j, e)
    {
    }
    forall j, k, e
      ensures Apart(after, nextId, j, k, e)
    {
      assert Apart(contexts, program.fd, j, k, e) && Apart(contexts, program.fd, k, j, e);
    }
  }

  // ----- the pod caches of one direction

  datatype Caches = Caches(progOf: map<Pod, nat>, podsOf: map<nat, set<Pod>>)

  function PodsWith(progOf: map<Pod, nat>, fd: nat): set<Pod> {
    set p | p in progOf && progOf[p] == fd
  }

  ghost predicate InverseAt(c: Caches, fd: nat) {
    if PodsWith(c.progOf, fd) == {} then fd !in c.podsOf else fd in c.podsOf && c.podsOf[fd] == PodsWith(c.progOf, fd)
  }

  /** Pod to program and program to pods are inverse, and no program has an empty pod set. */
  ghost predicate Inverse(c: Caches) {
    forall fd :: InverseAt(c, fd)
  }

  lemma InverseBothWays(c: Caches, p: Pod, fd: nat)
    requires Inverse(c)
    ensures p in c.progOf && c.progOf[p] == fd <==> fd in c.podsOf && p in c.podsOf[fd]
    ensures fd in c.podsOf ==> c.podsOf[fd] != {}
  {
    assert InverseAt(c, fd);
    assert p in PodsWith(c.progOf, fd) <==> p in c.progOf && c.progOf[p] == fd;
  }

  function AddPod(c: Caches, p: Pod, fd: nat): Caches {
    Caches(c.progOf[p := fd], c.podsOf[fd := (if fd in c.podsOf then c.podsOf[fd] else {}) + {p}])
  }

  lemma AddPodKeepsInverse(c: Caches, p: Pod, fd: nat)
    requires Inverse(c) && p !in c.progOf
    ensures Inverse(AddPod(c, p, fd))
  {
    forall g
      ensures InverseAt(AddPod(c, p, fd), g)
    {
      assert InverseAt(c, g);
      assert PodsWith(c.progOf[p := fd], g) == PodsWith(c.progOf, g) + if g == fd then {p} else {};
    }
  }

  function RemovePod(c: Caches, p: Pod): Caches {
    if p !in c.progOf then c
    else
      var fd := c.progOf[p];
      Caches(c.progOf - {p},
             if fd !in c.podsOf then c.podsOf
             else if c.podsOf[fd] - {p} == {} then c.podsOf - {fd}
             else c.podsOf[fd := c.podsOf[fd] - {p}])
  }

  lemma RemovePodKeepsInverse(c: Caches, p: Pod)
    requires Inverse(c)
    ensures Inverse(RemovePod(c, p)) && RemovePod(c, p).progOf == c.progOf - {p}
  {
    if p in c.progOf {
      var fd := c.progOf[p];
      assert p in PodsWith(c.progOf, fd);
      forall g
        ensures InverseAt(RemovePod(c, p), g)
      {
        assert InverseAt(c, g);
        assert PodsWith(c.progOf - {p}, g) == PodsWith(c.progOf, g) - if g == fd then {p} else {};
      }
    }
  }

  ghost predicate AttachedAt(contexts: Contexts, c: Caches, d: Direction, p: Pod) {
    p in c.progOf ==> c.progOf[p] == Fd(contexts, IdOf(p), d) != 0
  }

  /** Every attached pod's program is the one of its identifier's context. */
  ghost predicate Attached(contexts: Contexts, c: Caches, d: Direction) {
    forall p :: AttachedAt(contexts, c, d, p)
  }

  lemma AddPodKeepsAttached(contexts: Contexts, c: Caches, d: Direction, pod: Pod)
    requires Attached(contexts, c, d) && Fd(contexts, IdOf(pod), d) != 0
    ensures Attached(contexts, AddPod(c, pod, Fd(contexts, IdOf(pod), d)), d)
  {
    forall p
      ensures AttachedAt(contexts, AddPod(c, pod, Fd(contexts, IdOf(pod), d)), d, p)
    {
      assert AttachedAt(contexts, c, d, p);
    }
  }

  lemma RemovePodKeepsAttached(contexts: Contexts, c: Caches, d: Direction, pod: Pod)
    requires Attached(contexts, c, d)
    ensures Attached(contexts, RemovePod(c, pod), d)
  {
    forall p
      ensures AttachedAt(contexts, RemovePod(c, pod), d, p)
    {
      assert AttachedAt(contexts, c, d, p);
    }
  }

  lemma ExtendsKeepsAttached(before: Contexts, after: Contexts, i: Identifier, c: Caches, d: Direction)
    requires Extends(before, after, i) && Attached(before, c, d)
    ensures Attached(after, c, d)
  {
    forall p
      ensures AttachedAt(after, c, d, p)
    {
      assert AttachedAt(before, c, d, p);
      ExtendsElsewhere(before, after, i, IdOf(p));
      assert Lasts(before, after, IdOf(p), d);
    }
  }

  lemma DropKeepsAttached(contexts: Contexts, i: Identifier, c: Caches, d: Direction)
    requires Attached(contexts, c, d) && PodsOf(c.progOf, i) == {}
    ensures Attached(contexts - {i}, c, d)
  {
    forall p
      ensures AttachedAt(contexts - {i}, c, d, p)
    {
      assert AttachedAt(contexts, c, d, p);
      assert p in c.progOf && IdOf(p) == i ==> p in PodsOf(c.progOf, i);
    }
  }

  /** The attached pods of an identifier. */
  function PodsOf(progOf: map<Pod, nat>, i: Identifier): set<Pod> {
    set p | p in progOf && IdOf(p) == i
  }

  /** The pod is attached, and no other pod of its identifier is. */
  predicate IsLast(progOf: map<Pod, nat>, pod: Pod) {
    PodsOf(progOf, IdOf(pod)) == {pod}
  }

  lemma LastIsPlain(progOf: map<Pod, nat>, pod: Pod)
    ensures IsLast(progOf, pod) <==> pod in progOf && forall q | q in progOf && IdOf(q) == IdOf(pod) :: q == pod
  {
    var pods := PodsOf(progOf, IdOf(pod));
    if pod in progOf && forall q | q in progOf && IdOf(q) == IdOf(pod) :: q == pod {
      assert pods == {pod};
    } else if pods == {pod} {
      assert pod in pods;
      forall q | q in progOf && IdOf(q) == IdOf(pod)
        ensures q == pod
      {
        assert q in pods;
      }
    }
  }

  /** The size of the program's pod set tells whether the pod is its identifier's last. */
  lemma SharedMeansNotLast(contexts: Contexts, c: Caches, d: Direction, nextId: nat, pod: Pod)
    requires Inverse(c) && Attached(contexts, c, d) && DistinctPrograms(contexts, nextId) && pod in c.progOf
    ensures c.progOf[pod] in c.podsOf && (|c.podsOf[c.progOf[pod]]| > 1 <==> !IsLast(c.progOf, pod))
  {
    var i := IdOf(pod);
    var pods := PodsWith(c.progOf, c.progOf[pod]);
    assert AttachedAt(contexts, c, d, pod) && InverseAt(c, c.progOf[pod]);
    assert pod in pods;
    assert |pods - {pod}| == |pods| - 1;
    forall q
      ensures q in pods <==> q in PodsOf(c.progOf, i)
    {
      assert AttachedAt(contexts, c, d, q) && Apart(contexts, nextId, IdOf(q), i, d);
    }
    assert pods == PodsOf(c.progOf, i);
    assert |pods| > 1 <==> pods - {pod} != {};
    assert pods == {pod} <==> pods - {pod} == {};
  }

  // ----- shadow maps

  /** One of the four shadow caches, and an identifier in it. */
  datatype CacheKey = CacheKey(i: Identifier, d: Direction, cluster: bool)

  /** A cached shadow: the kernel map it wraps, and its contents. */
  datatype Shadow = Shadow(mapId: nat, contents: MapContents)

  type Shadows = map<CacheKey, Shadow>
  type Kernel = map<nat, MapContents>

  function MapOf(program: Program, cluster: bool): nat {
    if cluster then program.clusterRules else program.rules
  }

  /** The kernel map that a cache's shadow for an identifier has to wrap. */
  function MapIdOf(contexts: Contexts, k: CacheKey): nat {
    MapOf(On(ContextOf(contexts, k.i), k.d), k.cluster)
  }

  predicate IsLoaded(contexts: Contexts, k: CacheKey) {
    Fd(contexts, k.i, k.d) != 0
  }

  /** A cached shadow wraps the current kernel map of a loaded program and equals it. */
  ghost predicate WrapsAt(shadows: Shadows, contexts: Contexts, kernel: Kernel, k: CacheKey) {
    k in shadows ==>
      && IsLoaded(contexts, k) && shadows[k].mapId == MapIdOf(contexts, k)
      && shadows[k].mapId in kernel && shadows[k].contents == kernel[shadows[k].mapId]
  }

  ghost predicate ShadowsWrap(shadows: Shadows, contexts: Contexts, kernel: Kernel) {
    forall k :: WrapsAt(shadows, contexts, kernel, k)
  }

  /** The maps of loaded programs exist, and no two programs share one. */
  ghost predicate MapsAt(contexts: Contexts, kernel: Kernel, nextId: nat, k: CacheKey, l: CacheKey) {
    IsLoaded(contexts, k) ==>
      && MapIdOf(contexts, k) in kernel && MapIdOf(contexts, k) < nextId
      && (IsLoaded(contexts, l) && MapIdOf(contexts, k) == MapIdOf(contexts, l) ==> k == l)
  }

  ghost predicate DistinctMaps(contexts: Contexts, kernel: Kernel, nextId: nat) {
    forall k, l :: MapsAt(contexts, kernel, nextId, k, l)
  }

  /** The new program's maps are fresh and empty. */
  function WithMaps(kernel: Kernel, program: Program): Kernel {
    kernel[program.rules := map[]][program.clusterRules := map[]]
  }

  /** The program was just loaded: its map IDs are new. */
  predicate IsFresh(program: Program, nextId: nat, nextId': nat) {
    nextId <= program.rules < program.clusterRules < nextId'
  }

  lemma LoadKeepsMaps(contexts: Contexts, kernel: Kernel, nextId: nat, nextId': nat, i: Identifier, d: Direction,
                      program: Program)
    requires DistinctMaps(contexts, kernel, nextId) && IsFresh(program, nextId, nextId') && Fd(contexts, i, d) == 0
    ensures DistinctMaps(WithProgram(contexts, i, d, program), WithMaps(kernel, program), nextId')
  {
    var after, kernel' := WithProgram(contexts, i, d, program), WithMaps(kernel, program);
    forall k, l
      ensures MapsAt(after, kernel', nextId', k, l)
    {
      assert MapsAt(contexts, kernel, nextId, k, l) && MapsAt(contexts, kernel, nextId, l, k);
    }
  }

  lemma LoadKeepsShadows(shadows: Shadows, contexts: Contexts, kernel: Kernel, nextId: nat, nextId': nat, i: Identifier,
                         d: Direction, program: Program)
    requires ShadowsWrap(shadows, contexts, kernel) && DistinctMaps(contexts, kernel, nextId)
    requires IsFresh(program, nextId, nextId') && Fd(contexts, i, d) == 0
    ensures ShadowsWrap(shadows, WithProgram(contexts, i, d, program), WithMaps(kernel, program))
  {
    var after, kernel' := WithProgram(contexts, i, d, program), WithMaps(kernel, program);
    forall k
      ensures WrapsAt(shadows, after, kernel', k)
    {
      assert WrapsAt(shadows, contexts, kernel, k) && MapsAt(contexts, kernel, nextId, k, k);
    }
  }

  function WithoutIdentifier(shadows: Shadows, i: Identifier): Shadows {
    shadows - {CacheKey(i, Ingress, false), CacheKey(i, Egress, false), CacheKey(i, Ingress, true), CacheKey(i, Egress, true)}
  }

  lemma WithoutMeans(shadows: Shadows, i: Identifier, k: CacheKey)
    ensures k in WithoutIdentifier(shadows, i) <==> k in shadows && k.i != i
  {
    assert k.i == i ==> k == CacheKey(i, if k.d.Ingress? then Ingress else Egress, k.cluster);
  }

  lemma DropKeepsShadows(contexts: Contexts, kernel: Kernel, i: Identifier, shadows: Shadows)
    requires ShadowsWrap(shadows, contexts, kernel)
    ensures ShadowsWrap(WithoutIdentifier(shadows, i), contexts - {i}, kernel)
  {
    forall k
      ensures WrapsAt(WithoutIdentifier(shadows, i), contexts - {i}, kernel, k)
    {
      assert WrapsAt(shadows, contexts, kernel, k);
    }
  }

  lemma DropKeepsDistinct(contexts: Contexts, kernel: Kernel, i: Identifier, nextId: nat)
    requires DistinctPrograms(contexts, nextId) && DistinctMaps(contexts, kernel, nextId)
    ensures DistinctPrograms(contexts - {i}, nextId) && DistinctMaps(contexts - {i}, kernel, nextId)
  {
    forall j, k, d
      ensures Apart(contexts - {i}, nextId, j, k, d)
    {
      assert Apart(contexts, nextId, j, k, d);
    }
    forall k, l
      ensures MapsAt(contexts - {i}, kernel, nextId, k, l)
    {
      assert MapsAt(contexts, kernel, nextId, k, l);
    }
  }

  /** Writing one shadow through to its own map disturbs no other. */
  lemma WriteKeepsShadows(shadows: Shadows, contexts: Contexts, kernel: Kernel, nextId: nat, k: CacheKey, contents: MapContents)
    requires ShadowsWrap(shadows, contexts, kernel) && DistinctMaps(contexts, kernel, nextId) && IsLoaded(contexts, k)
    ensures var id := MapIdOf(contexts, k);
            && ShadowsWrap(shadows[k := Shadow(id, contents)], contexts, kernel[id := contents])
            && DistinctMaps(contexts, kernel[id := contents], nextId)
  {
    var id := MapIdOf(contexts, k);
    var shadows', kernel' := shadows[k := Shadow(id, contents)], kernel[id := contents];
    forall l
      ensures WrapsAt(shadows', contexts, kernel', l)
    {
      assert WrapsAt(shadows, contexts, kernel, l) && MapsAt(contexts, kernel, nextId, k, l);
    }
    forall l, m
      ensures MapsAt(contexts, kernel', nextId, l, m)
    {
      assert MapsAt(contexts, kernel, nextId, l, m);
    }
  }

  // ----- first-pod reports

  function Count(firsts: map<Identifier, nat>, i: Identifier): nat {
    if i in firsts then firsts[i] else 0
  }

  ghost predicate ReportedAt(contexts: Contexts, firsts: map<Identifier, nat>, lateErrors: set<Identifier>, i: Identifier) {
    Count(firsts, i) + (if i in lateErrors then 1 else 0) == if Complete(contexts, i) then 1 else 0
  }

  /** One "first" report per complete program set, unless the attach that completed it failed. */
  ghost predicate Reported(contexts: Contexts, firsts: map<Identifier, nat>, lateErrors: set<Identifier>) {
    forall i :: ReportedAt(contexts, firsts, lateErrors, i)
  }

  lemma ExtendsKeepsReported(before: Contexts, after: Contexts, firsts: map<Identifier, nat>, firsts': map<Identifier, nat>,
                             lateErrors: set<Identifier>, lateErrors': set<Identifier>, i: Identifier)
    requires Extends(before, after, i) && Reported(before, firsts, lateErrors)
    requires firsts' - {i} == firsts - {i} && lateErrors' - {i} == lateErrors - {i}
    requires Count(firsts', i) + (if i in lateErrors' then 1 else 0)
          == Count(firsts, i) + (if i in lateErrors then 1 else 0) + if Complete(after, i) && !Complete(before, i) then 1 else 0
    ensures Reported(after, firsts', lateErrors')
  {
    forall j
      ensures ReportedAt(after, firsts', lateErrors', j)
    {
      assert ReportedAt(before, firsts, lateErrors, j);
      ExtendsElsewhere(before, after, i, j);
      if j != i {
        assert j in lateErrors' - {i} <==> j in lateErrors - {i};
        assert j in firsts' - {i} <==> j in firsts - {i};
        assert j in firsts ==> (firsts' - {i})[j] == (firsts - {i})[j];
      }
    }
  }

  lemma DropKeepsReported(contexts: Contexts, firsts: map<Identifier, nat>, lateErrors: set<Identifier>, i: Identifier)
    requires Reported(contexts, firsts, lateErrors)
    ensures Reported(contexts - {i}, firsts - {i}, lateErrors - {i})
  {
    forall j
      ensures ReportedAt(contexts - {i}, firsts - {i}, lateErrors - {i}, j)
    {
      assert ReportedAt(contexts, firsts, lateErrors, j);
    }
  }

  class Client {
    var contexts: Contexts
    var ingress: Caches
    var egress: Caches
    var shadows: Shadows
    var kernel: Kernel  // the contents of the kernel maps, by ID
    var deletedPods: set<Pod>
    var nextId: nat  // the SDK's next file descriptor or map ID
    // Successful attaches that reported "first" since the identifier's context was created, and
    // identifiers whose program set was completed by an attach that then failed.
    ghost var firsts: map<Identifier, nat>
    ghost var lateErrors: set<Identifier>
    ghost var failedReads: nat  // hydrations that failed
    // Calls of an attach that failed: interface count, veth lookup, program load, TC attach; and the TC filters attached.
    ghost var failedCalls: nat
    ghost var hooks: set<Hook>

    ghost predicate Valid()
      reads this
    {
      && Inverse(ingress) && Inverse(egress) && ingress.progOf.Keys == egress.progOf.Keys
      && Attached(contexts, ingress, Ingress) && Attached(contexts, egress, Egress)
      && DistinctPrograms(contexts, nextId) && DistinctMaps(contexts, kernel, nextId) && ShadowsWrap(shadows, contexts, kernel)
      && Reported(contexts, firsts, lateErrors)
    }

    constructor ()
      ensures Valid() && contexts == map[] && ingress.progOf == map[] && shadows == map[] && deletedPods == {}
    {
      contexts, kernel, deletedPods, nextId, firsts, lateErrors := map[], map[], {}, 1, map[], {};
      failedReads, failedCalls, hooks := 0, 0, {};
      ingress, egress := Caches(map[], map[]), Caches(map[], map[]);
      shadows := map[];
    }

    /** `loadBPFProgram`: fails, or returns a program with fresh identifiers. */
    method Load() returns (program: Option<Program>)
      requires nextId > 0
      modifies `nextId, `failedCalls
      ensures program.None? ==> nextId == old(nextId)
      ensures program.Some? ==> program.value.fd == old(nextId) && IsFresh(program.value, old(nextId), nextId)
      ensures failedCalls == old(failedCalls) + if program.None? then 1 else 0
    {
      var fails: bool := *;
      if fails {
        failedCalls := failedCalls + 1;
        return None;
      }
      program := Some(Program(nextId, nextId + 1, nextId + 2));
      nextId := nextId + 3;
    }

    /** `GetHostVethName` for one interface of the pod. */
    method FindVeth() returns (found: bool)
      modifies `failedCalls
      ensures failedCalls == old(failedCalls) + if found then 0 else 1
    {
      found := *;
      if !found {
        failedCalls := failedCalls + 1;
      }
    }

    /** The TC attach, with its detach and retry. */
    method AttachFilter(hook: Hook) returns (err: bool)
      modifies `failedCalls, `hooks
      ensures failedCalls == old(failedCalls) + (if err then 1 else 0) && hooks == old(hooks) + if err then {} else {hook}
    {
      err := *;
      if err {
        failedCalls := failedCalls + 1;
      } else {
        hooks := hooks + {hook};
      }
    }

    /** `getInterfaceCountForPod`: given, one, or what the multi-NIC cache says, which may be nothing. */
    method InterfaceCount(interfaces: nat) returns (count: nat)
      modifies `failedCalls
      ensures interfaces > 0 ==> count == interfaces
      ensures failedCalls == old(failedCalls) + if count == 0 then 1 else 0
    {
      count := interfaces;
      if interfaces == 0 {
        var known: int := *;
        if known <= 0 {
          failedCalls := failedCalls + 1;
          return 0;
        }
        count := known;
      }
    }

    /** What loading a program relies on and keeps. */
    ghost predicate Loadable()
      reads this
    {
      DistinctPrograms(contexts, nextId) && DistinctMaps(contexts, kernel, nextId) && ShadowsWrap(shadows, contexts, kernel)
    }

    /** Attaches one direction on one interface, loading the program first if the identifier has none. */
    method AttachDirection(pod: Pod, index: nat, i: Identifier, d: Direction) returns (err: bool, fd: nat)
      requires Loadable()
      modifies `contexts, `kernel, `nextId, `failedCalls, `hooks
      ensures Loadable() && Extends(old(contexts), contexts, i)
      ensures !err ==> fd == Fd(contexts, i, d) != 0 && hooks == old(hooks) + {Hook(pod, index, d, fd)}
      ensures err ==> hooks == old(hooks)
      ensures failedCalls == old(failedCalls) + if err then 1 else 0
    {
      fd := Fd(contexts, i, d);
      if fd == 0 {
        var loaded := Load();
        if loaded.None? {
          return true, 0;
        }
        fd := loaded.value.fd;
        LoadExtends(contexts, i, d, loaded.value, nextId);
        LoadKeepsMaps(contexts, kernel, old(nextId), nextId, i, d, loaded.value);
        LoadKeepsShadows(shadows, contexts, kernel, old(nextId), nextId, i, d, loaded.value);
        kernel := WithMaps(kernel, loaded.value);
        contexts := WithProgram(contexts, i, d, loaded.value);
      }
      err := AttachFilter(Hook(pod, index, d, fd));
    }

    /** Attaches both directions on every interface. */
    method AttachInterfaces(pod: Pod, i: Identifier, count: nat) returns (err: bool, fd: nat, egressFd: nat)
      requires Loadable() && count > 0
      modifies `contexts, `kernel, `nextId, `failedCalls, `hooks
      ensures Loadable() && Extends(old(contexts), contexts, i)
      ensures !err ==> fd == Fd(contexts, i, Ingress) != 0 && egressFd == Fd(contexts, i, Egress) != 0
      ensures !err ==> Hooked(hooks, pod, count, fd, egressFd)
      ensures failedCalls == old(failedCalls) + if err then 1 else 0
    {
      fd, egressFd := 0, 0;
      for index := 0 to count
        invariant Loadable() && Extends(old(contexts), contexts, i)
        invariant index > 0 ==> fd == Fd(contexts, i, Ingress) != 0 && egressFd == Fd(contexts, i, Egress) != 0
        invariant failedCalls == old(failedCalls) && Hooked(hooks, pod, index, fd, egressFd)
      {
        var found := FindVeth();
        if !found {
          return true, 0, 0;
        }
        ghost var before, was, egressWas := contexts, fd, egressFd;
        err, fd := AttachDirection(pod, index, i, Ingress);
        ExtendsTransitive(old(contexts), before, contexts, i);
        if err {
          return true, 0, 0;
        }
        before := contexts;
        err, egressFd := AttachDirection(pod, index, i, Egress);
        ExtendsTransitive(old(contexts), before, contexts, i);
        if err {
          return true, 0, 0;
        }
      }
      err := false;
    }

    /** `AttacheBPFProbes`; `skipped` says that the pod was already known to be deleted. */
    method Attach(pod: Pod, interfaces: nat, confirmedLive: bool) returns (first: bool, err: bool, skipped: bool)
      requires Valid()
      modifies this
      ensures Valid() && Extends(old(contexts), contexts, IdOf(pod)) && shadows == old(shadows)
      ensures deletedPods == old(deletedPods) - if confirmedLive then {pod} else {}
      ensures skipped <==> !confirmedLive && pod in old(deletedPods)
      ensures skipped || err ==> !first && ingress == old(ingress) && egress == old(egress)
      ensures !skipped && !err ==>
                && ingress.progOf.Keys == old(ingress.progOf.Keys) + {pod}
                && first == !Complete(old(contexts), IdOf(pod)) && Complete(contexts, IdOf(pod))
      ensures firsts == if first then old(firsts)[IdOf(pod) := Count(old(firsts), IdOf(pod)) + 1] else old(firsts)
      ensures lateErrors == old(lateErrors)
                + if err && !Complete(old(contexts), IdOf(pod)) && Complete(contexts, IdOf(pod)) then {IdOf(pod)} else {}
      ensures failedCalls == old(failedCalls) + if err then 1 else 0
      ensures first <==> && !skipped && !err
                         && !(IdOf(pod) in old(contexts)
                              && old(contexts)[IdOf(pod)].ingress.fd != 0 && old(contexts)[IdOf(pod)].egress.fd != 0)
      ensures !skipped && !err ==> contexts[IdOf(pod)].ingress.fd != 0 && contexts[IdOf(pod)].egress.fd != 0
      ensures !skipped && !err && pod !in old(ingress.progOf) ==>
                exists count | count > 0 && (interfaces > 0 ==> count == interfaces) ::
                  Hooked(hooks, pod, count, Fd(contexts, IdOf(pod), Ingress), Fd(contexts, IdOf(pod), Egress))
    {
      var i := IdOf(pod);
      skipped, err := false, false;
      if confirmedLive {
        deletedPods := deletedPods - {pod};
      } else if pod in deletedPods {
        return false, false, true;
      }
      first := !Complete(contexts, i);
      assert pod in ingress.progOf.Keys <==> pod in egress.progOf.Keys;
      // The two caches have the same domain, so from here on neither or both directions are attached.
      if pod in ingress.progOf && pod in egress.progOf {
        assert AttachedAt(contexts, ingress, Ingress, pod) && AttachedAt(contexts, egress, Egress, pod);
        return first, false, false;
      }
      var count := InterfaceCount(interfaces);
      if count == 0 {
        return false, true, false;
      }
      err := AttachNew(pod, count, first);
      first := first && !err;
    }

    /** Attaches a pod that is not attached yet. */
    method AttachNew(pod: Pod, count: nat, first: bool) returns (err: bool)
      requires Valid() && pod !in ingress.progOf && pod !in egress.progOf && count > 0
      requires first == !Complete(contexts, IdOf(pod))
      modifies `contexts, `kernel, `nextId, `ingress, `egress, `firsts, `lateErrors, `failedCalls, `hooks
      ensures Valid() && Extends(old(contexts), contexts, IdOf(pod))
      ensures err ==> ingress == old(ingress) && egress == old(egress)
      ensures !err ==> ingress.progOf.Keys == old(ingress.progOf.Keys) + {pod} && Complete(contexts, IdOf(pod))
      ensures firsts == if first && !err then old(firsts)[IdOf(pod) := Count(old(firsts), IdOf(pod)) + 1] else old(firsts)
      ensures lateErrors == old(lateErrors) + if err && first && Complete(contexts, IdOf(pod)) then {IdOf(pod)} else {}
      ensures failedCalls == old(failedCalls) + if err then 1 else 0
      ensures !err ==> Hooked(hooks, pod, count, Fd(contexts, IdOf(pod), Ingress), Fd(contexts, IdOf(pod), Egress))
    {
      var i := IdOf(pod);
      var fd, egressFd;
      err, fd, egressFd := AttachInterfaces(pod, i, count);
      Carry(old(contexts), i);
      if !err {
        Record(pod, fd, egressFd);
      }
      NoteReport(i, first, err, old(contexts));
    }

    /** Counts a "first" report, or notes that the attach completing the program set failed. */
    ghost method NoteReport(i: Identifier, first: bool, err: bool, before: Contexts)
      requires Reported(before, firsts, lateErrors) && Extends(before, contexts, i)
      requires first == !Complete(before, i) && (!err ==> Complete(contexts, i))
      modifies `firsts, `lateErrors
      ensures Reported(contexts, firsts, lateErrors)
      ensures firsts == if first && !err then old(firsts)[i := Count(old(firsts), i) + 1] else old(firsts)
      ensures lateErrors == old(lateErrors) + if err && first && Complete(contexts, i) then {i} else {}
    {
      assert ReportedAt(before, firsts, lateErrors, i);
      if err {
        if first && Complete(contexts, i) {
          lateErrors := lateErrors + {i};
        }
      } else if first {
        firsts := firsts[i := Count(firsts, i) + 1];
      }
      ExtendsKeepsReported(before, contexts, old(firsts), firsts, old(lateErrors), lateErrors, i);
    }

    /** Notes a newly attached pod in the caches of both directions. */
    method Record(pod: Pod, fd: nat, egressFd: nat)
      requires Inverse(ingress) && Inverse(egress) && pod !in ingress.progOf && pod !in egress.progOf
      requires Attached(contexts, ingress, Ingress) && Attached(contexts, egress, Egress)
      requires fd == Fd(contexts, IdOf(pod), Ingress) != 0 && egressFd == Fd(contexts, IdOf(pod), Egress) != 0
      modifies `ingress, `egress
      ensures Inverse(ingress) && Inverse(egress)
      ensures Attached(contexts, ingress, Ingress) && Attached(contexts, egress, Egress)
      ensures ingress.progOf == old(ingress.progOf)[pod := fd] && egress.progOf == old(egress.progOf)[pod := egressFd]
    {
      AddPodKeepsInverse(ingress, pod, fd);
      AddPodKeepsInverse(egress, pod, egressFd);
      AddPodKeepsAttached(contexts, ingress, Ingress, pod);
      AddPodKeepsAttached(contexts, egress, Egress, pod);
      ingress, egress := AddPod(ingress, pod, fd), AddPod(egress, pod, egressFd);
    }

    /** What is cached about the old contexts still holds of the extended ones. */
    lemma Carry(before: Contexts, i: Identifier)
      requires Extends(before, contexts, i)
      requires Attached(before, ingress, Ingress) && Attached(before, egress, Egress)
      ensures Attached(contexts, ingress, Ingress) && Attached(contexts, egress, Egress)
    {
      ExtendsKeepsAttached(before, contexts, i, ingress, Ingress);
      ExtendsKeepsAttached(before, contexts, i, egress, Egress);
    }

    // ----- deletion

    /** `isProgFdShared`; None stands for "pod not found". */
    method IsProgFdShared(pod: Pod) returns (shared: Option<bool>)
      requires Valid()
      ensures shared == if pod in ingress.progOf then Some(!IsLast(ingress.progOf, pod)) else None
    {
      if pod in ingress.progOf {
        SharedMeansNotLast(contexts, ingress, Ingress, nextId, pod);
        return Some(|ingress.podsOf[ingress.progOf[pod]]| > 1);
      }
      // The egress caches come next; their domain is the same, so there is nothing to find.
      return None;
    }

    /** `DeleteBPFProbes`: the context goes exactly with the last attached pod of its identifier. */
    method Delete(pod: Pod)
      requires Valid()
      modifies this
      ensures Valid() && deletedPods == old(deletedPods) + {pod}
      ensures ingress.progOf == old(ingress.progOf) - {pod} && egress.progOf == old(egress.progOf) - {pod}
      ensures var torn := IsLast(old(ingress.progOf), pod);
              && contexts == (if torn then old(contexts) - {IdOf(pod)} else old(contexts))
              && shadows == (if torn then WithoutIdentifier(old(shadows), IdOf(pod)) else old(shadows))
              && firsts == (if torn then old(firsts) - {IdOf(pod)} else old(firsts))
              && lateErrors == (if torn then old(lateErrors) - {IdOf(pod)} else old(lateErrors))
      ensures IdOf(pod) in contexts <==>
                IdOf(pod) in old(contexts)
                && (pod in old(ingress.progOf) ==> exists q | q in ingress.progOf :: IdOf(q) == IdOf(pod))
    {
      var i := IdOf(pod);
      var shared := IsProgFdShared(pod);
      RemovePodKeepsInverse(ingress, pod);
      RemovePodKeepsInverse(egress, pod);
      RemovePodKeepsAttached(contexts, ingress, Ingress, pod);
      RemovePodKeepsAttached(contexts, egress, Egress, pod);
      ingress, egress := RemovePod(ingress, pod), RemovePod(egress, pod);
      deletedPods := deletedPods + {pod};
      if shared == Some(false) {
        DropKeepsAttached(contexts, i, ingress, Ingress);
        DropKeepsAttached(contexts, i, egress, Egress);
        DropKeepsShadows(contexts, kernel, i, shadows);
        DropKeepsDistinct(contexts, kernel, i, nextId);
        DropKeepsReported(contexts, firsts, lateErrors, i);
        shadows := WithoutIdentifier(shadows, i);
        contexts := contexts - {i};
        firsts, lateErrors := firsts - {i}, lateErrors - {i};
      }
    }

    // ----- map updates

    /** `shadowMapForLocked`: finds the shadow of the map in use or builds it, which a failing read prevents. */
    method ShadowFor(k: CacheKey) returns (err: bool)
      requires Loadable() && IsLoaded(contexts, k)
      modifies `shadows, `failedReads
      ensures Loadable() && (err <==> failedReads != old(failedReads)) && old(failedReads) <= failedReads
      ensures if err then shadows == old(shadows)
              else && k in shadows && MapIdOf(contexts, k) in kernel
                   && shadows == old(shadows)[k := Shadow(MapIdOf(contexts, k), kernel[MapIdOf(contexts, k)])]
    {
      var id := MapIdOf(contexts, k);
      assert WrapsAt(shadows, contexts, kernel, k) && MapsAt(contexts, kernel, nextId, k, k);
      WriteKeepsShadows(shadows, contexts, kernel, nextId, k, kernel[id]);
      assert kernel[id := kernel[id]] == kernel;
      if k in shadows {
        assert shadows == shadows[k := shadows[k]];
        return false;
      }
      var bpfMap := new KernelMap(kernel[id]);
      var loaded := NewInMemoryBpfMap(bpfMap);
      if loaded.None? {
        failedReads := failedReads + 1;
        return true;
      }
      shadows := shadows[k := Shadow(id, loaded.value.contents)];
      err := false;
    }

    /** `refreshShadowMap`: writes the compiled table through the shadow, or reports that compiling it failed. */
    method Refresh(k: CacheKey, target: Option<MapContents>) returns (err: bool, ghost calls: seq<Call<seq<Byte>, seq<Byte>>>)
      requires Loadable() && IsLoaded(contexts, k) && k in shadows
      modifies `shadows, `kernel
      ensures Loadable() && k in shadows && shadows - {k} == old(shadows) - {k}
      ensures Rewrote(old(kernel), kernel, MapIdOf(contexts, k), target, err, calls)
    {
      var id := MapIdOf(contexts, k);
      assert WrapsAt(shadows, contexts, kernel, k);
      calls := [];
      if target.None? {
        return true, [];
      }
      var bpfMap := new KernelMap(kernel[id]);
      var shadow := new InMemoryBpfMap.Cached(bpfMap, shadows[k].contents);
      err, calls := shadow.BulkRefresh(target.value);
      WriteKeepsShadows(shadows, contexts, kernel, nextId, k, shadow.contents);
      kernel := kernel[id := bpfMap.entries];
      shadows := shadows[k := Shadow(id, shadow.contents)];
    }

    /** One direction of an update: the shadow, and then the write through it. */
    method UpdateDirection(k: CacheKey, target: Option<MapContents>)
      returns (err: bool, ghost calls: seq<Call<seq<Byte>, seq<Byte>>>)
      requires Loadable() && IsLoaded(contexts, k)
      modifies `shadows, `kernel, `failedReads
      ensures Loadable() && old(failedReads) <= failedReads && shadows - {k} == old(shadows) - {k}
      ensures if failedReads != old(failedReads) then err && kernel == old(kernel) && calls == []
              else k in shadows && Rewrote(old(kernel), kernel, MapIdOf(contexts, k), target, err, calls)
    {
      calls := [];
      err := ShadowFor(k);
      if !err {
        err, calls := Refresh(k, target);
      }
    }

    /**
     * `UpdateEbpfMaps` and `UpdateClusterPolicyEbpfMaps`: without a context nothing changes and the call fails. Otherwise both
     * directions are tried, and if no read, compilation or map call fails, each loaded program's map is the compiled table.
     */
    method Update(i: Identifier, cluster: bool, ingressTable: Option<MapContents>, egressTable: Option<MapContents>)
      returns (err: bool, ghost calls: seq<Call<seq<Byte>, seq<Byte>>>, ghost egressCalls: seq<Call<seq<Byte>, seq<Byte>>>)
      requires Valid()
      modifies `shadows, `kernel, `failedReads
      ensures Valid() && old(failedReads) <= failedReads
      ensures i !in contexts ==> shadows == old(shadows) && kernel == old(kernel)
      ensures err <==> || i !in contexts || failedReads != old(failedReads)
                       || (contexts[i].ingress.fd != 0 && (ingressTable.None? || FailedPuts(calls) != {}))
                       || (contexts[i].egress.fd != 0 && (egressTable.None? || FailedPuts(egressCalls) != {}))
      ensures var ingressKey, egressKey := CacheKey(i, Ingress, cluster), CacheKey(i, Egress, cluster);
              && shadows - {ingressKey} - {egressKey} == old(shadows) - {ingressKey} - {egressKey}
              && kernel - {MapIdOf(contexts, ingressKey)} - {MapIdOf(contexts, egressKey)}
                 == old(kernel) - {MapIdOf(contexts, ingressKey)} - {MapIdOf(contexts, egressKey)}
      ensures i in contexts && failedReads == old(failedReads) && ingressTable.Some? && egressTable.Some?
              && NoFailure(calls) && NoFailure(egressCalls) ==>
                && !err
                && (contexts[i].ingress.fd != 0 ==> Holds(CacheKey(i, Ingress, cluster), ingressTable.value))
                && (contexts[i].egress.fd != 0 ==> Holds(CacheKey(i, Egress, cluster), egressTable.value))
    {
      err, calls, egressCalls := false, [], [];
      if i !in contexts {
        return true, [], [];
      }
      var ingressKey, egressKey := CacheKey(i, Ingress, cluster), CacheKey(i, Egress, cluster);
      if contexts[i].ingress.fd != 0 {
        err, calls := UpdateDirection(ingressKey, ingressTable);
        RewriteSays(old(kernel), kernel, MapIdOf(contexts, ingressKey), ingressTable, err, calls);
        assert WrapsAt(shadows, contexts, kernel, ingressKey);
      }
      label second:
      if contexts[i].egress.fd != 0 {
        var egressErr;
        egressErr, egressCalls := UpdateDirection(egressKey, egressTable);
        RewriteSays(old@second(kernel), kernel, MapIdOf(contexts, egressKey), egressTable, egressErr, egressCalls);
        err := err || egressErr;
        assert WrapsAt(shadows, contexts, kernel, egressKey) && WrapsAt(shadows, contexts, kernel, ingressKey);
        assert MapsAt(contexts, kernel, nextId, egressKey, ingressKey);
      }
      TwoWrites(old(shadows), old@second(shadows), shadows, ingressKey, egressKey);
      TwoWrites(old(kernel), old@second(kernel), kernel, MapIdOf(contexts, ingressKey), MapIdOf(contexts, egressKey));
    }

    /** The cached shadow and the kernel map it wraps both are the table. */
    ghost predicate Holds(k: CacheKey, table: MapContents)
      reads this
    {
      k in shadows && shadows[k].contents == table && MapIdOf(contexts, k) in kernel && kernel[MapIdOf(contexts, k)] == table
    }

    /** Old markers of deleted pods are dropped. */
    method ForgetDeleted(pods: set<Pod>)
      requires Valid()
      modifies `deletedPods
      ensures Valid() && deletedPods == old(deletedPods) - pods
    {
      deletedPods := deletedPods - pods;
    }

    /** What the invariant says of a pod, a shadow and an identifier. */
    lemma ValidMeans(p: Pod, k: CacheKey, i: Identifier)
      requires Valid()
      ensures p in ingress.progOf <==> p in egress.progOf
      ensures p in ingress.progOf ==>
                && Complete(contexts, IdOf(p)) && ingress.progOf[p] == contexts[IdOf(p)].ingress.fd
                && egress.progOf[p] == contexts[IdOf(p)].egress.fd
                && ingress.progOf[p] in ingress.podsOf && p in ingress.podsOf[ingress.progOf[p]]
                && egress.progOf[p] in egress.podsOf && p in egress.podsOf[egress.progOf[p]]
      ensures k in shadows ==> k.i in contexts && shadows[k].mapId == MapOf(On(contexts[k.i], k.d), k.cluster)
      ensures k in shadows ==> shadows[k].mapId in kernel && shadows[k].contents == kernel[shadows[k].mapId]
      ensures Count(firsts, i) <= 1
      ensures Complete(contexts, i) && i !in lateErrors ==> Count(firsts, i) == 1
    {
      assert p in ingress.progOf.Keys <==> p in egress.progOf.Keys;
      assert AttachedAt(contexts, ingress, Ingress, p) && AttachedAt(contexts, egress, Egress, p);
      if p in ingress.progOf {
        InverseBothWays(ingress, p, ingress.progOf[p]);
        InverseBothWays(egress, p, egress.progOf[p]);
      }
      assert WrapsAt(shadows, contexts, kernel, k);
      assert ReportedAt(contexts, firsts, lateErrors, i);
    }

    /** Any sequence of operations, with any failures. */
    method Run(operations: seq<Operation>)
      requires Valid()
      modifies this
      ensures Valid()
    {
      for n := 0 to |operations|
        invariant Valid()
      {
        match operations[n]
        case AttachPod(pod, interfaces, confirmedLive) =>
          var _, _, _ := Attach(pod, interfaces, confirmedLive);
        case DeletePod(pod) =>
          Delete(pod);
        case UpdateMaps(i, cluster, ingressTable, egressTable) =>
          var _, _, _ := Update(i, cluster, ingressTable, egressTable);
        case Forget(pods) =>
          ForgetDeleted(pods);
      }
    }
  }

  /** One kernel map was refreshed towards the target by these calls, and no other map changed. */
  ghost predicate Rewrote(before: Kernel, after: Kernel, id: nat, target: Option<MapContents>, err: bool,
                          calls: seq<Call<seq<Byte>, seq<Byte>>>) {
    if target.None? then err && after == before && calls == []
    else && id in before && id in after && after == before[id := after[id]]
         && Refreshed(before[id], target.value, calls, err, after[id])
  }

  /** Another map is the same; the error is a missing table or a failed update; without failures the map is the table. */
  lemma RewriteSays(before: Kernel, after: Kernel, id: nat, target: Option<MapContents>, err: bool,
                    calls: seq<Call<seq<Byte>, seq<Byte>>>)
    ensures Rewrote(before, after, id, target, err, calls) ==>
              after - {id} == before - {id} && (err <==> target.None? || FailedPuts(calls) != {})
    ensures Rewrote(before, after, id, target, err, calls) && target.Some? && NoFailure(calls) ==>
              !err && id in after && after[id] == target.value && after == before[id := target.value]
  {
    if Rewrote(before, after, id, target, err, calls) && target.Some? {
      CleanRefresh(before[id], target.value, calls, err, after[id]);
    }
  }

  /** Two maps that agree outside `k`, then two that agree outside `l`. */
  lemma TwoWrites<K, V>(a: map<K, V>, b: map<K, V>, c: map<K, V>, k: K, l: K)
    requires b - {k} == a - {k} && c - {l} == b - {l}
    ensures c - {k} - {l} == a - {k} - {l}
    ensures k != l && k in b ==> k in c && c[k] == b[k]
  {
    forall j | j != k && j != l
      ensures j in a <==> j in c
      ensures j in a ==> c[j] == a[j]
    {
      assert j in b - {k} <==> j in a - {k};
      assert j in c - {l} <==> j in b - {l};
      assert j in a ==> (b - {k})[j] == (a - {k})[j] && (c - {l})[j] == (b - {l})[j];
    }
    if k != l && k in b {
      assert k in b - {l} && (c - {l})[k] == (b - {l})[k];
    }
  }

  /** A TC filter on one interface of a pod. */
  datatype Hook = Hook(pod: Pod, index: nat, d: Direction, fd: nat)

  /** Both programs are attached on the pod's first `count` interfaces. */
  ghost predicate Hooked(hooks: set<Hook>, pod: Pod, count: nat, fd: nat, egressFd: nat) {
    forall index | 0 <= index < count :: Hook(pod, index, Ingress, fd) in hooks && Hook(pod, index, Egress, egressFd) in hooks
  }

  datatype Operation =
    | AttachPod(pod: Pod, interfaces: nat, confirmedLive: bool)
    | DeletePod(pod: Pod)
    | UpdateMaps(i: Identifier, cluster: bool, ingressTable: Option<MapContents>, egressTable: Option<MapContents>)
    | Forget(pods: set<Pod>)
}
