/** Flow keys of the two IPv4 programs, and a program's fresh evaluation of a packet. */
module FlowEvaluation {
  import opened Basics
  import opened Cidrs
  import opened PolicyTypes
  import opened TrieEncoding
  import opened TieredVerdict
  import ClusterCompiler
  import NamespacedCompiler
  import NamespacedPolicy

  type Word32 = x: int | 0 <= x < U32
  type Word16 = x: int | 0 <= x < 0x1_0000

  function Opposite(d: Direction): Direction {
    if d.Ingress? then Egress else Ingress
  }

  /** What a program reads of an IPv4 packet: addresses as loaded from the header, ports 0 where the protocol has none. */
  datatype Frame = Frame(srcIp: Word32, srcPort: Word16, destIp: Word32, destPort: Word16, protocol: Byte, ifindex: Word32)

  function Swapped(f: Frame): Frame {
    Frame(f.destIp, f.destPort, f.srcIp, f.srcPort, f.protocol, f.ifindex)
  }

  /** `struct conntrack_key`. */
  datatype FlowKey = FlowKey(srcIp: Word32, srcPort: Word16, destIp: Word32, destPort: Word16, protocol: Byte,
                             ownerIp: Word32, ifindex: Word32)

  /** The key a program looks up and stores for a packet; the owner is the pod's own address. */
  function ForwardKey(f: Frame, d: Direction): FlowKey {
    FlowKey(f.srcIp, f.srcPort, f.destIp, f.destPort, f.protocol, if d.Ingress? then f.destIp else f.srcIp, f.ifindex)
  }

  /** The key under which the packet would be a response. */
  function ReverseKey(f: Frame, d: Direction): FlowKey {
    FlowKey(f.destIp, f.destPort, f.srcIp, f.srcPort, f.protocol, if d.Ingress? then f.destIp else f.srcIp, f.ifindex)
  }

  /**
   * A program's reverse key is the key the opposite program stores for the mirrored packet. Between
   * different addresses no packet of the program's own direction has that key.
   */
  lemma ReverseKeyIsOpposite(f: Frame, d: Direction, g: Frame, e: Direction)
    ensures ReverseKey(f, d) == ForwardKey(Swapped(f), Opposite(d))
    ensures f.srcIp != f.destIp && ForwardKey(g, e) == ReverseKey(f, d) ==> e == Opposite(d) && g == Swapped(f)
  {
  }

  // ----- pod state codes

  /** `GET_CT_VAL`: the pair of the pod's namespace and cluster policy states. */
  function StateCode(network: int, cluster: int): int {
    if network == DEFAULT_ALLOW && cluster == DEFAULT_ALLOW then 2
    else if network == DEFAULT_ALLOW && cluster == DEFAULT_DENY then 3
    else if network == DEFAULT_ALLOW && cluster == POLICIES_APPLIED then 4
    else if network == POLICIES_APPLIED && cluster == DEFAULT_ALLOW then 5
    else if network == POLICIES_APPLIED && cluster == DEFAULT_DENY then 6
    else 7
  }

  predicate IsPodState(s: int) {
    s == POLICIES_APPLIED || s == DEFAULT_ALLOW || s == DEFAULT_DENY
  }

  /** Exactly these pairs share the last code. */
  predicate SharesLastCode(network: int, cluster: int) {
    network == DEFAULT_DENY || (network == POLICIES_APPLIED && cluster == POLICIES_APPLIED)
  }

  /** A change of pod state is seen by the datapath except between pairs that share the last code. */
  lemma StateCodeDistinguishes(network: int, cluster: int, network': int, cluster': int)
    requires IsPodState(network) && IsPodState(cluster) && IsPodState(network') && IsPodState(cluster')
    ensures StateCode(network, cluster) == StateCode(network', cluster') <==>
              || (network == network' && cluster == cluster')
              || (SharesLastCode(network, cluster) && SharesLastCode(network', cluster'))
    ensures StateCode(network, cluster)
         == if SharesLastCode(network, cluster) then 7
            else (if network == 1 then 2 else 5) + (if cluster == 1 then 0 else if cluster == 2 then 1 else 2)
  {
  }

  // ----- evaluation

  /** What a program finds in its maps: the two pod states, if present, and the two policy tables. */
  datatype Policy = Policy(network: Option<int>, cluster: Option<int>, clusterTable: MapContents, table: MapContents)

  predicate WellFormed(p: Policy) {
    && (forall k | k in p.clusterTable :: |p.clusterTable[k]| == ADMIN_TRIE_VALUE_LENGTH)
    && (forall k | k in p.table :: |p.table[k]| == TRIE_VALUE_LENGTH)
  }

  function CodeOf(p: Policy): Option<int> {
    if p.network.None? || p.cluster.None? then None else Some(StateCode(p.network.value, p.cluster.value))
  }

  /** The `n` low bits of a number, most significant first. */
  function BitsOf(x: nat, n: nat): (bits: seq<bool>)
    requires x < Pow2(n)
    ensures |bits| == n && Num(bits) == x
  {
    if n == 0 then []
    else
      var front := BitsOf(x / 2, n - 1);
      var bits := front + [x % 2 == 1];
      assert bits[..|bits| - 1] == front;
      bits
  }

  function Unpack(bytes: seq<Byte>): (bits: seq<bool>)
    ensures |bits| == 8 * |bytes| && Pack(bits) == bytes
  {
    if bytes == [] then []
    else
      assert Pow2(8) == 256;
      var front, back := BitsOf(bytes[0], 8), Unpack(bytes[1..]);
      assert (front + back)[..8] == front && (front + back)[8..] == back;
      front + back
  }

  function AddressOf(ip: Word32): Address {
    RawCidr.Cidr(V4, Unpack(LittleEndian(ip)))
  }

  /** The key a program looks up is the trie key of the peer's host prefix. */
  lemma LookupKeyIsTrieKey(ip: Word32)
    ensures TrieKey(AddressOf(ip)) == LittleEndian(32) + LittleEndian(ip)
  {
    assert NetworkAddress(AddressOf(ip)).bits == AddressOf(ip).bits;
  }

  /** The end of the packet that is not the pod's. */
  function PeerAddress(f: Frame, d: Direction): Address {
    AddressOf(if d.Ingress? then f.srcIp else f.destIp)
  }

  /** The policy's verdict on the packet, whatever the flow table holds. */
  ghost predicate Accepts(p: Policy, f: Frame, d: Direction) {
    CodeOf(p).Some? && forall clusterEntry, entry :: AcceptsBy(p, f, d, clusterEntry, entry)
  }

  /** If these are the entries the two lookups return, the tiers decide to accept. */
  ghost predicate AcceptsBy(p: Policy, f: Frame, d: Direction, clusterEntry: Option<seq<Byte>>, entry: Option<seq<Byte>>)
    requires CodeOf(p).Some?
  {
    var a, pkt, state := PeerAddress(f, d), Packet(f.protocol, f.destPort), p.network.value;
    clusterEntry == LongestMatch(p.clusterTable, a) && entry == LongestMatch(p.table, a) ==>
      Decision(AdminAction(clusterEntry, pkt), NamespaceAction(entry, pkt, state), BaselineAction(clusterEntry, pkt), state)
  }

  lemma MatchIsStored<V>(table: map<seq<Byte>, V>, a: Address, len: nat)
    requires len <= |a.bits|
    ensures Lookup(table, a, len).Some? ==> exists k :: k in table && table[k] == Lookup(table, a, len).value
  {
    if TrieKey(Truncate(a, len)) !in table && len > 0 {
      MatchIsStored(table, a, len - 1);
    }
  }

  /** Both lookups and `evaluateFlow`, without the flow-table write. */
  method Evaluate(p: Policy, f: Frame, d: Direction) returns (accepted: bool)
    requires WellFormed(p) && CodeOf(p).Some?
    ensures accepted == Accepts(p, f, d)
  {
    var a := PeerAddress(f, d);
    MatchIsStored(p.clusterTable, a, 32);
    MatchIsStored(p.table, a, 32);
    var clusterEntry, entry := LongestMatch(p.clusterTable, a), LongestMatch(p.table, a);
    accepted := EvaluateFlow(clusterEntry, entry, Packet(f.protocol, f.destPort), p.network.value);
    assert accepted <==> AcceptsBy(p, f, d, clusterEntry, entry);
    assert accepted ==> forall c, e :: AcceptsBy(p, f, d, c, e);
  }

  // ----- what acceptance means for the rules

  /** The rules a program's maps were compiled from, and the node. */
  datatype Source = Source(node: Address, clusterRules: set<ClusterCompiler.ClusterRule>, rules: set<NamespacedPolicy.Rule>)

  /** The policy's tables are compiled from these rules, which read plainly at the packet's peer. */
  ghost predicate IsFrom(p: Policy, source: Source, f: Frame, d: Direction) {
    && ClusterCompiler.Compiled(p.clusterTable, source.node, ClusterCompiler.Kept(source.node, source.clusterRules))
    && NamespacedCompiler.Compiled(p.table, source.node, NamespacedPolicy.Kept(source.node, source.rules))
    && ValidRules(source.clusterRules) && NodeIsNoNetwork(source.node, source.clusterRules)
    && SlotsSuffice(ClusterCompiler.Kept(source.node, source.clusterRules))
    && ReadsPlainly(source.node, source.rules, AddressOf(if d.Ingress? then f.srcIp else f.destIp))
    && source.node.family.V4? && f.protocol != 0
  }

  /**
   * The rules are asked about the sender of an arriving packet and the receiver of a leaving one: that is the node, or the
   * order of precedence accepts it.
   */
  ghost predicate RulesAccept(source: Source, f: Frame, d: Direction, podState: int) {
    match d
    case Ingress => RulesAcceptPeer(source, AddressOf(f.srcIp), f.protocol, f.destPort, podState)
    case Egress => RulesAcceptPeer(source, AddressOf(f.destIp), f.protocol, f.destPort, podState)
  }

  ghost predicate RulesAcceptPeer(source: Source, peer: Address, protocol: nat, port: nat, podState: int) {
    peer == source.node
    || PolicyAccepts(source.node, source.clusterRules, source.rules, peer, Packet(protocol, port), podState)
  }

  /** A policy with compiled tables accepts a packet exactly when the rules do. */
  lemma AcceptsMeansRules(p: Policy, source: Source, f: Frame, d: Direction)
    requires CodeOf(p).Some? && IsFrom(p, source, f, d)
    ensures Accepts(p, f, d) <==> RulesAccept(source, f, d, p.network.value)
  {
    var a, pkt, state := PeerAddress(f, d), Packet(f.protocol, f.destPort), p.network.value;
    var clusterEntry, entry := LongestMatch(p.clusterTable, a), LongestMatch(p.table, a);
    if a == source.node {
      NodeIsAccepted(p.clusterTable, entry, source.node, source.clusterRules, pkt, state);
    } else {
      TieredVerdictIsExact(p.clusterTable, p.table, source.node, source.clusterRules, source.rules, a, pkt, state);
    }
    assert AcceptsBy(p, f, d, clusterEntry, entry) <==>
             Decision(AdminAction(clusterEntry, pkt), NamespaceAction(entry, pkt, state),
                      BaselineAction(clusterEntry, pkt), state);
    assert AcceptsBy(p, f, d, clusterEntry, entry) ==> forall c, e :: AcceptsBy(p, f, d, c, e);
  }

  /** The pod's own end of the packet, which the flow key names as owner, and the source port have no part in the evaluation. */
  lemma OwnEndIsIrrelevant(p: Policy, f: Frame, own: Word32, srcPort: Word16)
    ensures ForwardKey(f.(destIp := own), Ingress).ownerIp == own && ForwardKey(f.(srcIp := own), Egress).ownerIp == own
    ensures Accepts(p, f, Ingress) <==> Accepts(p, f.(destIp := own, srcPort := srcPort), Ingress)
    ensures Accepts(p, f, Egress) <==> Accepts(p, f.(srcIp := own, srcPort := srcPort), Egress)
  {
    if CodeOf(p).Some? {
      var g, h := f.(destIp := own, srcPort := srcPort), f.(srcIp := own, srcPort := srcPort);
      forall c, e
        ensures AcceptsBy(p, f, Ingress, c, e) <==> AcceptsBy(p, g, Ingress, c, e)
        ensures AcceptsBy(p, f, Egress, c, e) <==> AcceptsBy(p, h, Egress, c, e)
      {
      }
    }
  }
}
