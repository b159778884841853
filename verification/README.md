# Network policy agent: a verified model

The agent turns Kubernetes network policies into eBPF maps on one node. This project models four connected parts of it and proves what they are for:

- **Policy compiler and datapath verdict.** CIDR/port rules are compiled into longest-prefix-match entries, encoded into 24 fixed slots, looked up and scanned by the eBPF programs, and combined over the admin, namespace, baseline and default tiers. Addresses are bit strings; both address families are covered by one width parameter. The theorems compare the whole path with a plain quantified reading of the rules.
- **Cluster-policy reconciler.** A class with the three bookkeeping maps, a work queue, failing API reads and map writes, and API changes interleaved at every external call. Every call that reports a failure is logged with the identifier it concerned; errors and failed identifiers are exactly those of the log. Map writes go through the shadow-map refresh, which passes over failing deletes without an error: such leftovers are part of the state. The invariant holds over every sequence of changes, events and reconciles.
- **Program life cycle.** The reference-counted keyed mutex as interleaved steps of any number of threads, with exclusion, progress and termination; attach, delete and update under it as operations of a client class; the shadow map and its refresh, with every map system call in a trace.
- **Flow table and its garbage collector.** One table used by the ingress program, the egress program and a two-phase collector, with packets and evictions between any two steps of the collector. Packets, evictions and each of the collector's calls append to one log, and the theorems speak of that log.

Modules follow these parts: `Cidrs`, `CidrTries`, `TrieEncoding`, `Sorting`, `Deduplication`, `NamespacedPolicy`, `NamespacedCompiler`, `NamespaceEvaluation`, `NamespaceExactness`, `ClusterCompiler`, `TieredVerdict`, `Isolation`; `ClusterMaps`, `ClusterState`, `ClusterFaults`, `ClusterInvariant`, `ClusterPass`, `ClusterPhases`, `ClusterRuns`, `ClusterReconciler`, `ClusterLeftovers`, `ClusterVerdict`; `PodNames`, `KeyedMutex`, `BpfClient`, `ShadowMap`; `FlowEvaluation`, `KernelConntrack`, `Conntrack`, `ConntrackCollector`.

Where the code and its documentation differ, the model follows the code:

- A namespaced port entry without a protocol means every protocol in the encoder, although the API comment says TCP; the cluster encoder does read it as TCP.
- The host test of the namespaced compiler looks only at the number after the slash, so an IPv6 /32 counts as a host and longer prefixes inherit nothing from it (`NamespaceExactness.Slash32IsNotInherited`).
- The comments promise that traffic of the node itself is always allowed. The namespaced table allows it except when some rule lists the node's host CIDR as an Except, whose deny entry then replaces the node's entry (`NamespaceExactness.NodeTrafficAllowed`, both directions; `NamespaceExactness.NodeCanBeDenied`, the rules). A compiled cluster table accepts the node at the admin tier whatever the namespaced table says, so that the exception only shows while no cluster table has been written (`TieredVerdict.NodeIsAccepted`).
- A refresh returns no error when a kernel delete fails, so a reconcile can end without an error, with nothing queued, and leave an entry of a rule that is gone. `ClusterLeftovers.QuietButInexact` gives such a pass; `ClusterState.Converges` says that with an empty queue an identifier is exact if and only if no delete of its last refresh failed; `ClusterMaps.NextRefreshRepairs` says when the leftover goes.
- Except handling is not exact for arbitrary overlaps. `NamespaceExactness.OverlapIsNotExact` gives rules and addresses; `NamespaceExactness.VerdictIsDelivery` says exactly what is decided for every rule list; `NamespaceExactness.ExactIffFaithful` says when that is the plain reading: at an address the compiler is exact if and only if every rule around it reaches the longest entry by a chain exactly when it does not exclude the address. `NamespaceExactness.NamespacedCompileIsExact` derives the case of disciplined Excepts.
- The nine pairs of pod states share only six codes: `FlowEvaluation.StateCodeDistinguishes` says exactly which changes of state the datapath cannot see.
- Cluster rules are de-duplicated by a key that prints the protocol pointer, so equal rules with different pointers stay apart; results are therefore stated on sets of rules.

Assumptions that the model makes explicit: the packet protocol is not 0 (zeroed slots match it); explicit ports lie in 1..65535, and slice priorities in 0..1000 as the API admits; a single map call that fails changes nothing (what a failed refresh leaves behind is what its successful calls wrote); a conntrack update by an eBPF program succeeds, and eviction is a separate step at any time; the SDK hands out fresh descriptors and map IDs.

## Model

| member | source | states |
|---|---|---|
| `CidrTries.CidrTrie.Insert` | pkg/fwruleprocessor/cidr_trie.go:49-94 | the trie then holds exactly the earlier prefixes and the new one, over heap nodes created on the way |
| `CidrTries.CidrTrie.FindContainingKeys` | pkg/fwruleprocessor/cidr_trie.go:99-129 | returns exactly the inserted prefixes that contain the address, shortest first, each once, never of the other family |
| `CidrTries.FoundOneDeeper` | pkg/fwruleprocessor/cidr_trie.go:112-126 | one bit further down at most one more key contains the address, and appending it keeps the order |
| `TrieEncoding.ComputeTrieValue` | pkg/utils/utils.go:386-433 | decoding the 288 bytes gives the wanted slots in order, cut at 24 and zero-padded |
| `TrieEncoding.SlotBytes` | pkg/ebpf/c/tc.v4ingress.bpf.c:183-221 | byte by byte: a 288-byte value is 24 slots of protocol, first and last port in little-endian words |
| `TrieEncoding.ComputeTrieValueForCPE` | pkg/utils/utils.go:303-349 | decoding the value gives one ranked slot per rule in order, cut at 24 and zero-padded |
| `TrieEncoding.RankedSlotBytes` | pkg/utils/utils.go:303-349 | byte by byte: a 384-byte value is 24 slots of protocol, rank, first and last port in little-endian words |
| `TrieEncoding.TrieKeyInjective` | pkg/utils/utils.go:284-301 | distinct prefixes never share a map key |
| `TrieEncoding.TrieKeyBits` | pkg/utils/utils.go:284-301 | bit by bit: the key is the prefix length as a little-endian word, then the network address, most significant bit first, host bits zero |
| `TrieEncoding.WriteOne` | pkg/fwruleprocessor/fw_rule_processor.go:162-173 | writing one CIDR's entry changes no other CIDR's, so the order of the map walk does not matter |
| `TrieEncoding.LongestMatchIsLongest` | pkg/ebpf/c/tc.v4ingress.bpf.c:107-123 | the lookup returns the entry of the longest stored prefix containing the address, or none if there is none |
| `Sorting.StableSort` | pkg/fwruleprocessor/fw_rule_processor.go:181-203 | the same elements in non-decreasing prefix length |
| `Sorting.SortIsStable` | pkg/fwruleprocessor/fw_rule_processor.go:181-203 | the elements of each prefix length keep their number and order |
| `Deduplication.FirstPerKey` | pkg/fwruleprocessor/fw_rule_processor.go:250-286 | exactly the first element of every key, each once |
| `NamespacedPolicy.EntryPortsAreChains` | pkg/fwruleprocessor/fw_rule_processor.go:90-142 | a port is in the entry of a CIDR exactly when a chain of strictly nested rule CIDRs, none excluding the next, leads there from a CIDR with that port |
| `NamespacedPolicy.EntryPortsStable` | pkg/fwruleprocessor/fw_rule_processor.go:90-142 | a rule no shorter than a CIDR, and for another CIDR, leaves that CIDR's entry alone: why one sorted pass is enough |
| `NamespacedPolicy.EntryPortsExtended` | pkg/fwruleprocessor/fw_rule_processor.go:119-134 | the entry of the added rule's CIDR gains exactly the rule's ports and Excepts |
| `NamespacedCompiler.DeriveL4Info` | pkg/fwruleprocessor/fw_rule_processor.go:219-248 | the trie lookup collects exactly the ports a linear scan over all broader rules with their Excepts would |
| `NamespacedCompiler.ScanIsInheritance` | pkg/fwruleprocessor/fw_rule_processor.go:125-134 | the linear scan over the entries built so far is the set of inherited ports |
| `NamespacedCompiler.MergeDuplicateL4Info` | pkg/fwruleprocessor/fw_rule_processor.go:250-286 | the merged list has exactly the port keys of the input, each once |
| `NamespacedCompiler.CollectRules` | pkg/fwruleprocessor/fw_rule_processor.go:87-142 | for every rule list, per kept CIDR the ports and Excepts of its entry, and the set of all Excepts |
| `NamespacedCompiler.ComputeMapEntries` | pkg/fwruleprocessor/fw_rule_processor.go:73-175 | one entry for the node, one per kept rule CIDR, one deny entry per other Except, nothing else, and what each decodes to |
| `NamespaceEvaluation.EvaluateNamespacePolicy` | pkg/ebpf/c/tc.v4ingress.bpf.c:183-221 | allow exactly when some slot matches and no reserved slot comes first; without an entry, pass or deny by pod state |
| `NamespaceEvaluation.ValueDecides` | pkg/utils/utils.go:386-433 | what an encoded entry decides: nothing under the deny flag, everything under the allow flag or without ports, otherwise what one of the first 24 ports grants |
| `NamespaceEvaluation.NoInventedPermission` | pkg/fwruleprocessor/fw_rule_processor.go:73-175 | for every rule list, overlapping Excepts and truncated slots included, an allowed non-node packet has a rule that contains it and grants its port |
| `NamespaceExactness.NamespacedCompileIsExact` | pkg/fwruleprocessor/fw_rule_processor.go:73-175 | with disciplined Excepts: the compiled table allows a packet iff some rule contains the address outside its Excepts and grants the port; derived from faithfulness |
| `NamespaceExactness.VerdictIsChain` | pkg/fwruleprocessor/fw_rule_processor.go:90-142 | for every rule list: the table allows a packet iff a chain brings a granting port to the longest entry around the address |
| `NamespaceExactness.VerdictIsDelivery` | pkg/fwruleprocessor/fw_rule_processor.go:90-142 | for every rule list: the table allows a packet iff a rule grants its port and a chain from the rule's CIDR reaches the longest entry around the address |
| `NamespaceExactness.FaithfulIsExact` | pkg/fwruleprocessor/fw_rule_processor.go:73-175 | where every rule around an address is delivered iff it does not exclude the address, the table says what the rules say |
| `NamespaceExactness.ExactIffFaithful` | pkg/fwruleprocessor/fw_rule_processor.go:73-175 | among rules that no other rule can stand in for, the table is right on all packets of an address if and only if every rule is delivered faithfully there |
| `NamespaceExactness.DisciplineIsFaithful` | pkg/fwruleprocessor/fw_rule_processor.go:73-175 | Excepts strictly inside their CIDR, shared by the rules of a CIDR and disjoint from or around all other CIDRs make every rule delivered faithfully everywhere |
| `NamespaceExactness.NodeTrafficAllowed` | pkg/fwruleprocessor/fw_rule_processor.go:81-85 | the namespaced table allows node traffic iff the node's host CIDR is no Except of a kept rule |
| `NamespaceExactness.NodeCanBeDenied` | pkg/fwruleprocessor/fw_rule_processor.go:81-85 | rules that take the traffic of any node away from it |
| `NamespaceExactness.OverlapIsNotExact` | pkg/fwruleprocessor/fw_rule_processor.go:144-160 | rules that, for any node outside the Except and any address inside it, allow a packet the table denies; they are not delivered faithfully |
| `NamespaceExactness.ExceptShadows` | pkg/fwruleprocessor/fw_rule_processor.go:144-160 | wherever an Except is the longest entry, the packet is denied whatever broader rules say |
| `NamespaceExactness.Slash32IsNotInherited` | pkg/utils/utils.go:496-503 | an IPv6 /32 open on all ports and a longer prefix open for TCP: UDP to the longer prefix is denied |
| `ClusterCompiler.FindMostSpecificOverlap` | pkg/fwruleprocessor/fw_rule_processor.go:408-423 | the longest processed CIDR around the current one's network address, or none |
| `ClusterCompiler.OverlapCarriesAll` | pkg/fwruleprocessor/fw_rule_processor.go:317-323 | the entry of that CIDR already carries the rules of every broader one |
| `ClusterCompiler.RemoveDuplicateL4Rules` | pkg/fwruleprocessor/fw_rule_processor.go:425-462 | the remaining rules have exactly the keys of the input, each once |
| `ClusterCompiler.ComputeClusterMapEntries` | pkg/fwruleprocessor/fw_rule_processor.go:288-359 | for every rule list, an entry per kept CIDR with the rules of every CIDR around it, and the node's entry |
| `TieredVerdict.EvaluateClusterPolicy` | pkg/ebpf/c/tc.v4ingress.bpf.c:141-181 | the running minima end at the least matching rank, overall and of the baseline tier, whatever the slot order |
| `TieredVerdict.ValueRanks` | pkg/utils/utils.go:303-384 | what an encoded cluster entry ranks: those of the first 24 rules whose protocol number and ports fit the packet, at ten times the priority plus 0 for Deny, 1 for Accept, 2 otherwise |
| `TieredVerdict.EvaluateFlow` | pkg/ebpf/c/tc.v4ingress.bpf.c:223-318 | accepts exactly by the order admin, namespace, baseline, pod default over those minima |
| `TieredVerdict.OutcomeIsLeast` | pkg/ebpf/c/tc.v4ingress.bpf.c:155-180 | the least rank is the action of the rule with lowest priority, Deny before Accept before Pass on ties |
| `TieredVerdict.ClusterCompileIsExact` | pkg/fwruleprocessor/fw_rule_processor.go:288-359 | for every rule list, both tiers of the compiled table say what all rules containing the address say, protocols and actions read independently of the encoder |
| `TieredVerdict.VerdictIsWinner` | pkg/ebpf/c/tc.v4ingress.bpf.c:155-180 | a tier allows or denies exactly when a rule that goes before all others of the tier accepts or denies |
| `TieredVerdict.NamespaceTierIsExact` | pkg/ebpf/c/tc.v4ingress.bpf.c:183-221 | wherever the rules are delivered faithfully, the namespace tier says what they say, in every pod state |
| `TieredVerdict.TieredVerdictIsExact` | pkg/ebpf/c/tc.v4ingress.bpf.c:223-318 | wherever the namespaced rules are delivered faithfully, a packet is accepted iff, over the rules themselves: an admin rule accepts it, or none denies it and a namespaced rule allows it, or no namespaced policy reaches it and a baseline rule or else the pod's default accepts it |
| `TieredVerdict.DisciplineReadsPlainly` | pkg/fwruleprocessor/fw_rule_processor.go:73-175 | disciplined Excepts meet the faithfulness condition of the tier theorems at every address but the node's |
| `TieredVerdict.NodeIsAccepted` | pkg/fwruleprocessor/fw_rule_processor.go:293-310 | a compiled cluster table accepts the node's packets over all tiers, whatever the namespaced table and the pod state |
| `TieredVerdict.Decide` | pkg/ebpf/c/tc.v4ingress.bpf.c:223-318 | rule lists in, verdict out: both compilers, both lookups and the tiers give that order of precedence over the rules, wherever the namespaced rules are delivered faithfully |
| `Isolation.DeriveDefaultPodIsolation` | controllers/policyendpoints_controller.go:517-532 | a direction is isolated iff it is listed and has no rules so far |
| `Isolation.DeriveFirewallRules` | controllers/policyendpoints_controller.go:446-515 | whatever the order of the endpoints: error iff a considered fetch failed; all their rules; isolated iff there is no rule and some endpoint isolates |
| `Isolation.ProgramDirection` | controllers/policyendpoints_controller.go:278-288 | a direction without rules and without isolation is compiled from one catch-all, any other from its rules |
| `Isolation.ProgramPod` | controllers/policyendpoints_controller.go:269-291 | error iff a considered fetch failed; otherwise both tables decide what the endpoints' own lists say: with rules, a packet is allowed iff a listed peer contains it outside its Excepts and grants the port (where the lists read plainly); without rules, denied iff isolated |
| `Isolation.ProgrammedEnforces` | controllers/policyendpoints_controller.go:269-291 | the table of each direction enforces the lists of the fetched endpoints, for every address and packet |
| `Isolation.NoRulesVerdict` | controllers/policyendpoints_controller.go:757-769 | with policies applied, a direction without rules denies every non-node packet iff isolated (or the catch-all is dropped for the node's sake), and otherwise allows every one |
| `PodNames.JoinOfSplit` | pkg/utils/utils.go:183-186 | joining the parts of a split name gives the name back |
| `PodNames.ParentOfGenerated` | pkg/utils/utils.go:252-254 | the parent of `<parent>-<suffix>` is the parent for every suffix without a dash |
| `PodNames.IdentifierIdentity` | pkg/utils/utils.go:177-188 | for DNS names, two pods share an identifier iff namespace and name without its last dash segment agree |
| `PodNames.IdentifierText` | pkg/utils/utils.go:177-188 | the identifier, character by character: the name without its last dash segment, dots as underscores, then `@` and the namespace |
| `PodNames.PodKeyInjective` | pkg/utils/utils.go:165-171 | distinct pods have distinct cache keys |
| `PodNames.PinPathRoundTrip` | pkg/utils/utils.go:207-226 | parsing an identifier's program pin path gives back the identifier and the direction |
| `PodNames.PinPathComponents` | pkg/utils/utils.go:219-226 | the path's components: the agent's program directory and the file name of each direction |
| `ClusterState.IdMeansWorkload` | pkg/utils/utils.go:177-188 | pods of slices share an identifier iff they are of one workload of one namespace |
| `ClusterState.ParentIsParsed` | pkg/utils/utils.go:252-254 | the parent of a slice is what is parsed out of its name |
| `ClusterState.SelectionMeans` | controllers/clusterpolicyendpoints_controller.go:421-473 | in plain words who is selected, who on this node, and which slices a selected identifier must hold |
| `ClusterState.RulesAreDemanded` | controllers/clusterpolicyendpoints_controller.go:372-410 | the derived rules are exactly what the slices' endpoints demand: action, CIDR and ports of an endpoint, and the slice's priority plus 2000 for the baseline tier |
| `ClusterState.StateIsPlain` | controllers/clusterpolicyendpoints_controller.go:312-330 | the cluster pod state written is 0 if some slice demands a rule and 1 otherwise |
| `ClusterVerdict.TiersAreSlices` | controllers/clusterpolicyendpoints_controller.go:374-377 | for slice priorities 0 to 1000, the datapath's baseline tier is exactly the rules of baseline slices |
| `ClusterVerdict.ExactMeansEnforced` | controllers/clusterpolicyendpoints_controller.go:131-237 | the tables of an exact identifier decide every packet, in each tier, as the endpoints of the slices of that tier do |
| `ClusterState.Converges` | controllers/clusterpolicyendpoints_controller.go:131-237 | a handled identifier's maps were last refreshed towards exactly the rules of the slices of the parents selecting it, or an event is queued whose pass selects it or cleans it up; with an empty queue its maps are exact iff no delete of that refresh failed |
| `ClusterState.QuietIsClean` | controllers/clusterpolicyendpoints_controller.go:545-569 | with an empty queue no map remembers a slice or parent that is gone |
| `ClusterMaps.WriteSide` | pkg/ebpf/bpf_client.go:1151-1175 | one direction is refreshed from its present contents through the shadow by exactly the traced calls, or stays as it was with an error if it could not be read |
| `ClusterMaps.WriteMaps` | controllers/clusterpolicyendpoints_controller.go:312-344 | both directions are tried whatever the other does; the pod state is written only after both succeeded; no error means both refreshed and the state set |
| `ClusterMaps.CleanIffDeleted` | pkg/ebpf/bpf_mem_map.go:127-142 | a refresh without an error leaves exactly the compiled table iff no delete call failed |
| `ClusterMaps.NextRefreshRepairs` | pkg/ebpf/bpf_mem_map.go:127-142 | what a failed delete left behind is tried again by the next refresh without an error, and is gone unless that call fails too; without a failing delete the table is exact again |
| `ClusterLeftovers.QuietButInexact` | pkg/ebpf/bpf_mem_map.go:127-142 | for any slice, pod and entry: a pass without an error from a valid state that empties the queue and leaves an entry no slice demands |
| `ClusterInvariant.EnvironmentKeepsInv` | controllers/clusterpolicyendpoints_controller.go:106-129 | API changes, each with its event, keep the invariant |
| `ClusterPass.PassKeepsInv` | controllers/clusterpolicyendpoints_controller.go:131-237 | a whole pass, with API changes and failures at any point in it, keeps the invariant |
| `ClusterPass.FreshStays` | controllers/clusterpolicyendpoints_controller.go:346-414 | maps written from a consistent reading stay right until a slice they name changes, which queues an event |
| `ClusterPass.AwaitedIsHandled` | controllers/clusterpolicyendpoints_controller.go:421-473 | a pass for an event that an identifier is waiting for selects or cleans up that identifier, unless the parent's slices change meanwhile |
| `ClusterPass.AwaitedBecomesCurrent` | controllers/clusterpolicyendpoints_controller.go:131-237 | such a pass, undisturbed and without errors, leaves the identifier's maps current and its entry right for the parent |
| `ClusterRuns.RecordLasts` | controllers/clusterpolicyendpoints_controller.go:545-569 | what is recorded under a slice lasts through passes of other parents and failed listings |
| `ClusterRuns.FailedCleanupIsRetried` | controllers/clusterpolicyendpoints_controller.go:165-183 | in every run, an identifier whose cleanup failed is cleaned up or selected by the next pass of the parent over any slice it was left under, the deleted slice's own entry included |
| `ClusterPhases.CleanupSteps` | controllers/clusterpolicyendpoints_controller.go:492-503 | cleanups in sequence: each identifier is fresh or failed, and no other is written |
| `ClusterPhases.ReconcileFlow` | controllers/clusterpolicyendpoints_controller.go:187-237 | derive, cleanup, commit and program together make up a pass |
| `ClusterPhases.CleanUpFlow` | controllers/clusterpolicyendpoints_controller.go:131-185 | the phases of the delete flow together make up a pass |
| `ClusterReconciler.Reconciler.DeriveRules` | controllers/clusterpolicyendpoints_controller.go:346-414 | the rules read are exactly what the endpoints of the slices the entry names demand, unless a slice changed meanwhile; error iff a read for this identifier failed |
| `ClusterReconciler.Reconciler.UpdateMaps` | controllers/clusterpolicyendpoints_controller.go:312-344 | error iff logged; without one the identifier's maps were refreshed, from the contents they had, towards the compiled rules and the pod state written; no other identifier is written |
| `ClusterReconciler.Reconciler.CleanupPod` | controllers/clusterpolicyendpoints_controller.go:505-538 | the identifier is refreshed towards the rules of the slices that still name it; error iff one of its own calls reported a failure; nothing else is written |
| `ClusterReconciler.Reconciler.CleanupPods` | controllers/clusterpolicyendpoints_controller.go:492-503 | every pod is tried; the identifiers of the returned pods are exactly those with a reported failure of their own; error iff there is one |
| `ClusterReconciler.Reconciler.AddNames` | pkg/utils/policy_utils.go:59-75 | the entry gains the names without duplicates; other entries stay |
| `ClusterReconciler.Reconciler.DropName` | pkg/utils/policy_utils.go:38-56 | the entry loses the name and disappears when empty; other entries stay |
| `ClusterReconciler.PodsToBeCleanedUp` | pkg/utils/policy_utils.go:11-22 | exactly the recorded pods whose identifier is not selected any more |
| `ClusterReconciler.Reconciler.Derive` | controllers/clusterpolicyendpoints_controller.go:421-473 | slices, targets and pods to clean up as the listing says, entries of deselected identifiers scrubbed; not done iff the listing failed, and then nothing changed |
| `ClusterReconciler.Reconciler.Commit` | controllers/clusterpolicyendpoints_controller.go:545-569 | the parent's slices and the parent record exactly the tracked identifiers, or nothing when there are none |
| `ClusterReconciler.Reconciler.CommitDeleted` | controllers/clusterpolicyendpoints_controller.go:165-183 | in the delete flow a slice outside the listing keeps only the pods to retry, or nothing |
| `ClusterReconciler.Reconciler.ProgramAll` | controllers/clusterpolicyendpoints_controller.go:215-227 | every selected identifier is tried; the failed ones are exactly those with a reported failure of their own; all others had their pods attached or skipped and, with programs, were refreshed towards their rules |
| `ClusterReconciler.Reconciler.ReconcileCpe` | controllers/clusterpolicyendpoints_controller.go:187-237 | error iff some call reported a failure; the failed identifiers are exactly those with one of their own; every local pod of every other identifier was attached, or skipped as gone, and the identifier refreshed towards the rules of the slices it names, unless one of them changed meanwhile |
| `ClusterReconciler.Reconciler.CleanUpCpe` | controllers/clusterpolicyendpoints_controller.go:131-185 | the delete flow is a pass with the same account of reported failures and of refreshed identifiers; a failed listing changes nothing |
| `ClusterReconciler.Reconciler.Reconcile` | controllers/clusterpolicyendpoints_controller.go:106-129 | the event goes back iff a call reported a failure, and the queue gains nothing else but arrivals; an undisturbed pass without reported failures leaves every identifier awaiting the event refreshed towards its current rules |
| `ClusterReconciler.Reconciler.Run` | controllers/clusterpolicyendpoints_controller.go:131-237 | after every sequence of changes, events, failures and reconciles each handled identifier is exact, awaited by an event, or left with entries whose delete failed; with an empty queue it is refreshed towards the demanded rules, and exact iff no delete of its last refresh failed |
| `ClusterReconciler.Reconciler.Drain` | controllers/clusterpolicyendpoints_controller.go:106-129 | handling every queued event once, undisturbed and without reported failures, empties the queue; every local pod of the handled slices is attached or skipped; every identifier is refreshed towards the demanded rules and exact iff no delete of its last refresh failed; and then the tables of every attached pod decide as the slices say |
| `KeyedMutex.NextKeepsInv` | pkg/ebpf/podidentifier_lock.go:20-53 | every atomic step of any thread keeps the mutex invariant |
| `KeyedMutex.OneMutexPerKey` | pkg/ebpf/podidentifier_lock.go:20-34 | all holders and waiters of a key share one mutex object, the count is their number, and the key is stored iff there is one |
| `KeyedMutex.RunsAreSafe` | pkg/ebpf/podidentifier_lock.go:20-53 | in every interleaving: at most one holder per key, exact counts and stored keys, and no unlock of an unlocked mutex |
| `KeyedMutex.FreeCanStep` | pkg/ebpf/podidentifier_lock.go:20-53 | a thread can take its next step iff it does not wait for the outer mutex while that is held or for its key's mutex while that is; calling Lock is always possible |
| `KeyedMutex.OnlyHoldersBlock` | pkg/ebpf/podidentifier_lock.go:20-53 | a thread inside Lock or Unlock waits for a holder of its own key, or some thread that holds nothing can step |
| `KeyedMutex.KeysAreIndependent` | pkg/ebpf/podidentifier_lock.go:20-53 | a key nobody holds has nobody stuck on it, whatever other keys are held |
| `KeyedMutex.EveryoneIsServed` | pkg/ebpf/podidentifier_lock.go:20-53 | from every reachable state, once no new calls are made, every run ends within the steps the threads have left, and only when all have had the lock and left; if holders keep their keys, only when all others wait for one of these keys |
| `BpfClient.AddPodKeepsInverse` | pkg/ebpf/bpf_client.go:802-812 | recording a pod keeps pod-to-program and program-to-pods inverse |
| `BpfClient.RemovePodKeepsInverse` | pkg/ebpf/bpf_client.go:1413-1439 | removing a pod keeps them inverse and drops emptied sets |
| `BpfClient.SharedMeansNotLast` | pkg/ebpf/bpf_client.go:1338-1371 | the size of a program's pod set tells whether another pod of the identifier is attached |
| `BpfClient.IdMeansWorkload` | pkg/utils/utils.go:177-188 | pods share programs iff they are of one workload of one namespace |
| `BpfClient.LoadExtends` | pkg/ebpf/bpf_client.go:830-842 | a freshly loaded program keeps programs distinct and changes no loaded one |
| `BpfClient.Client.AttachDirection` | pkg/ebpf/bpf_client.go:816-905 | contexts only gain programs; on success the returned descriptor is the context's and exactly this hook is added; error iff a logged load or attach call failed |
| `BpfClient.Client.Attach` | pkg/ebpf/bpf_client.go:719-814 | keeps the life-cycle invariant; skipped iff known deleted and not confirmed live; error iff a logged call failed, and then no pod is recorded; a newly attached pod has both programs hooked on every interface; "first" iff it succeeds and not both programs were loaded before |
| `BpfClient.Client.IsProgFdShared` | pkg/ebpf/bpf_client.go:1338-1371 | not found iff not attached; shared iff another pod of the identifier is attached |
| `BpfClient.Client.Delete` | pkg/ebpf/bpf_client.go:916-961 | context and shadows go exactly with the identifier's last attached pod |
| `BpfClient.Client.ShadowFor` | pkg/ebpf/bpf_client.go:1377-1392 | the cached shadow is the one of the current kernel map and equals it; error iff a read failed, and then nothing is cached |
| `BpfClient.Client.Refresh` | pkg/ebpf/bpf_client.go:1396-1411 | the identifier's map is refreshed towards the compiled table by exactly these calls, every other map is untouched, and all shadows still equal their maps |
| `BpfClient.Client.Update` | pkg/ebpf/bpf_client.go:1052-1202 | error iff there is no context, a read failed, or a loaded direction has no table or a failed update call; only the two maps of the identifier and their shadows change; if nothing fails they are the compiled tables |
| `BpfClient.Client.ValidMeans` | pkg/ebpf/bpf_client.go:719-961 | equal cache domains, attached pods on their identifier's programs, shadows equal to the maps of live contexts, at most one "first" report per program set and exactly one unless the completing attach failed |
| `BpfClient.Client.Run` | pkg/ebpf/bpf_client.go:719-961 | the invariant holds after every sequence of attaches, deletes, updates and marker expiries |
| `ShadowMap.InMemoryBpfMap.BulkRefresh` | pkg/ebpf/bpf_mem_map.go:91-143 | shadow equals kernel whatever fails; error iff an update call failed; otherwise every change is written, every stale key has a delete call, and exactly those whose call failed remain; common entries are never absent meanwhile |
| `ShadowMap.CleanRefresh` | pkg/ebpf/bpf_mem_map.go:91-143 | a refresh without a failing call succeeds and leaves the target |
| `ShadowMap.RefreshMeans` | pkg/ebpf/bpf_mem_map.go:91-143 | the fate of every key: unchanged entries are not touched, entries of the target are there unless an update failed, others go iff their delete succeeded, and nothing is deleted after a failed update |
| `ShadowMap.FailedDeletesAreRetried` | pkg/ebpf/bpf_mem_map.go:127-139 | what one refresh could not delete, or never came to delete, the next one without a failing update tries to delete, and it is gone unless that call fails |
| `ShadowMap.InMemoryBpfMap.LoadFromKernel` | pkg/ebpf/bpf_mem_map.go:45-88 | all entries are read, or an error is returned exactly when a read failed |
| `ShadowMap.NewInMemoryBpfMap` | pkg/ebpf/bpf_mem_map.go:29-88 | a shadow equal to the kernel map, or none exactly when the key walk or a read failed |
| `FlowEvaluation.ReverseKeyIsOpposite` | pkg/ebpf/c/tc.v4egress.bpf.c:410-477 | a reverse key is the opposite program's key of the mirrored packet, and between different addresses only that program's |
| `FlowEvaluation.StateCodeDistinguishes` | pkg/ebpf/c/tc.v4ingress.bpf.c:30-45 | two pairs of pod states have one code iff they are equal or both among the pairs sharing the last code; and the numbers of the codes |
| `FlowEvaluation.LookupKeyIsTrieKey` | pkg/ebpf/c/tc.v4ingress.bpf.c:382-386 | the key a program builds from the packet is the trie key of the peer's host prefix |
| `FlowEvaluation.Evaluate` | pkg/ebpf/c/tc.v4ingress.bpf.c:223-318 | the two lookups and the tiers decide what the policy says about the packet |
| `FlowEvaluation.AcceptsMeansRules` | pkg/ebpf/c/tc.v4ingress.bpf.c:223-318 | a policy with compiled tables accepts a packet iff the sender of an arriving packet, or the receiver of a leaving one, is the node or the order of precedence over the rules accepts it |
| `FlowEvaluation.OwnEndIsIrrelevant` | pkg/ebpf/c/tc.v4egress.bpf.c:400-403 | the evaluation does not depend on the pod's own address, which is the owner in the flow key, nor on the source port |
| `Conntrack.FlowTable.EvaluateFlow` | pkg/ebpf/c/tc.v4ingress.bpf.c:223-318 | an accepted flow, and no other, is stored under the current code |
| `Conntrack.FlowTable.Handle` | pkg/ebpf/c/tc.v4ingress.bpf.c:393-472 | which of missing state, forward entry, evaluation and reverse entry decides, and the whole new table; every entry keeps an accepting origin |
| `Conntrack.FlowTable.EvaluateAfresh` | pkg/ebpf/c/tc.v4ingress.bpf.c:442-450 | an accepted flow is written under the current code, and no entry is left of one that is not accepted |
| `Conntrack.MismatchEndsEntry` | pkg/ebpf/c/tc.v4ingress.bpf.c:442-450 | after a code mismatch the entry carries the current code iff the policy accepts now, and is gone otherwise |
| `Conntrack.HandledMeans` | pkg/ebpf/c/tc.v4ingress.bpf.c:393-472 | entry by entry: an accepted packet leaves its entry with its time, under the current code unless it is a response; a rejected one leaves no entry of its own; nothing else changes |
| `Conntrack.AcceptedPacketsAreJustified` | pkg/ebpf/c/tc.v4ingress.bpf.c:393-472 | every accepted packet of every run: accepted by the policy now, or by an earlier evaluation of the same key under the same code, or its mirror was accepted by the opposite program |
| `Conntrack.AcceptedPacketsHaveRules` | pkg/ebpf/c/tc.v4ingress.bpf.c:393-472 | over compiled tables, every accepted packet of every run goes back to a packet of the same flow entry, itself or an earlier one, that the rules of its time accepted |
| `Conntrack.OriginsKept` | pkg/ebpf/c/tc.v4egress.bpf.c:410-489 | after every step, each entry was stored by an accepting evaluation under the code it records |
| `Conntrack.SeenKept` | pkg/ebpf/c/tc.v4ingress.bpf.c:429-438 | after every step, each entry's time is no older than any packet that touched it |
| `Conntrack.FlowTable.Traffic` | pkg/ebpf/c/tc.v4ingress.bpf.c:322-475 | the invariants hold over any sequence of packets of either program, under changing policies, and evictions |
| `KernelConntrack.FormsMeanSameFlow` | pkg/ebpf/conntrack/conntrack_client.go:156-223 | after the byte-order conversions a key is among a kernel flow's forms iff bytes, ports, protocol and owner are those of the flow, as addressed or as translated |
| `KernelConntrack.KernelCache` | pkg/ebpf/conntrack/conntrack_client.go:151-210 | looking a converted table key up in the cache asks exactly whether a listed flow stands for it |
| `ConntrackCollector.StaleMeansUntouched` | pkg/ebpf/conntrack/conntrack_client.go:23-42 | an entry re-read as older than an earlier clock read was touched by no packet between the two |
| `ConntrackCollector.Collector.Hydrate` | pkg/ebpf/conntrack/conntrack_client.go:90-134 | the first key is walked to or the walk fails; every key walked to is read; the snapshot holds exactly the keys found; it fails iff the walk or a read failed, and otherwise went on to the walk's end or a vanished key; nothing is deleted |
| `ConntrackCollector.QuietWalkIsComplete` | pkg/ebpf/conntrack/conntrack_client.go:90-134 | over a table that nothing touches, a walk that comes to every key makes the snapshot all its keys |
| `ConntrackCollector.Collector.Expire` | pkg/ebpf/conntrack/conntrack_client.go:224-239 | the key is re-read, and a delete call follows exactly if it was found with a time before the clock read |
| `ConntrackCollector.Collector.SweepAll` | pkg/ebpf/conntrack/conntrack_client.go:211-240 | every snapshot key is settled: no delete call if its flow is listed; otherwise its last read, and a delete call iff that found a time before the clock read |
| `ConntrackCollector.DeletedIffStale` | pkg/ebpf/conntrack/conntrack_client.go:23-42 | after a complete sweep, a snapshot key has had a delete call iff its flow is not listed and its last read found an entry last seen before the clock read |
| `ConntrackCollector.Collector.Cleanup` | pkg/ebpf/conntrack/conntrack_client.go:79-246 | the outcome names the logged call that failed, if any; only a cycle with a successful clock read and listing makes delete calls, all resting on these two; phase flag and snapshot afterwards |
| `ConntrackCollector.Collector.Run` | pkg/ebpf/conntrack/conntrack_client.go:79-246 | over any number of cycles with traffic at every point, every delete call rests on the last clock read, the last listing and the last re-read of its key |
| `ConntrackCollector.DeletionsAreSafe` | pkg/ebpf/conntrack/conntrack_client.go:135-244 | in every run a deleted entry was in the table when hydrated, matched no flow of the last listing, and was touched by no packet from the last clock read to its last re-read; neither clock read nor listing failed |
| `ConntrackCollector.FailuresDeleteNothing` | pkg/ebpf/conntrack/conntrack_client.go:139-150 | after a failed clock read, listing or opening nothing is deleted before both succeed anew; after a failed or fresh re-read of a key it is not deleted before it is re-read |

## Left out

- Textual CIDR parsing, v4-mapped spellings and malformed CIDRs: prefixes are bit strings, and the cluster reconciler takes the reading of CIDR text as a parameter.
- `NamespaceExactness.ExactIffFaithful`: "exact only if faithful" is stated where each rule around the address grants some packet that no other does, because equal ports of another rule can hide a broken inheritance; "exact if faithful" (`NamespaceExactness.FaithfulIsExact`) needs no such condition.
- `NamespacedCompiler.ComputeMapEntries`: an Except of the other address family has a key of its own; the code's `ComputeTrieKey` cuts its address to the node family's key size, where it can meet another entry.
- `Sorting.StableSort`: modelled on a sequence, so sorting the caller's slice in place is not captured.
- `ClusterReconciler.Reconciler.Run`: one worker, slice names never used again, deletion as removal with its event (the flow for an object still present with a deletion timestamp is not modelled), identifiers whose listed pods are all on this node, and programs that stay on the node once attached, both directions of them (a half-loaded context, where only the loaded direction is refreshed, is in `BpfClient.Client.Update` alone).
- `BpfClient.Client.Attach`: the separate checks of the two caches become one, since their domains are always equal; likewise the second lookup of `isProgFdShared`.
- `BpfClient.Client.Refresh`: cached shadow objects are kept as values, so sharing one object between callers is not captured; the lock makes that unobservable.
- `Conntrack.FlowTable.Handle`: each packet is one step; concurrent packets of one flow on several processors, and a race between a lookup and its in-place store, are not modelled.
- `ConntrackCollector.Collector.Hydrate`: the order of the kernel's map walk and which keys it comes to are left open; every key it comes to is read and accounted for.
- The IPv6 eBPF programs and the IPv6 collector: the same algorithms at another width.
- Packet header parsing, real LPM and LRU internals, ring-buffer events and verdict logging.
- Program recovery after a restart, re-attachment and migration of pin paths: the client starts empty.
- The bookkeeping of the namespaced reconciler, and pod-state seeding by CNI ADD racing with a reconcile.
- Kubernetes client and controller plumbing, gRPC server, metrics, latency observation, configuration.
