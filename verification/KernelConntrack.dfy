/** The kernel's own conntrack flows, and when one of them stands for an entry of the flow table. */
module KernelConntrack {
  import opened TrieEncoding
  import opened FlowEvaluation

  /** An IPv4 address as bytes in network order. */
  type Ip = b: seq<Byte> | |b| == 4 witness [0, 0, 0, 0]

  datatype Tuple = Tuple(srcIp: Ip, srcPort: Word16, destIp: Ip, destPort: Word16, protocol: Byte)

  /** A flow as netlink lists it; the reverse source is the destination after address translation. */
  datatype KernelFlow = KernelFlow(forward: Tuple, reverse: Tuple)

  /** The agent's integer form of an address: big-endian, unlike the one in the flow table. */
  function ConvIPv4ToInt(ip: Ip): Word32 {
    16777216 * (ip[0] as int) + 65536 * (ip[1] as int) + 256 * (ip[2] as int) + (ip[3] as int)
  }

  function ConvIntToIPv4(x: Word32): Ip {
    LittleEndian(x)
  }

  lemma LastByte(high: int, low: Byte, high': int, low': Byte)
    requires 256 * high + low == 256 * high' + low'
    ensures high == high' && low == low'
  {
  }

  lemma IntFormIsInjective(a: Ip, b: Ip)
    ensures ConvIPv4ToInt(a) == ConvIPv4ToInt(b) <==> a == b
  {
    if ConvIPv4ToInt(a) == ConvIPv4ToInt(b) {
      var a2, b2 := 256 * (a[0] as int) + a[1], 256 * (b[0] as int) + b[1];
      var a3, b3 := 256 * a2 + a[2], 256 * b2 + b[2];
      LastByte(a3, a[3], b3, b[3]);
      LastByte(a2, a[2], b2, b[2]);
      LastByte(a[0], a[1], b[0], b[1]);
      assert a == b;
    }
  }

  lemma BytesAreInjective(x: Word32, y: Word32)
    ensures ConvIntToIPv4(x) == ConvIntToIPv4(y) <==> x == y
  {
    WordOfLittleEndian(x);
    WordOfLittleEndian(y);
  }

  /** The table key as the collector compares it: addresses converted, the interface dropped. */
  function Comparable(k: FlowKey): FlowKey {
    FlowKey(ConvIPv4ToInt(ConvIntToIPv4(k.srcIp)), k.srcPort, ConvIPv4ToInt(ConvIntToIPv4(k.destIp)), k.destPort, k.protocol,
            ConvIPv4ToInt(ConvIntToIPv4(k.ownerIp)), 0)
  }

  /** A flow from its forward source to a destination, owned by one of the two ends. */
  function Form(flow: KernelFlow, destIp: Ip, destPort: Word16, sourceOwns: bool): FlowKey {
    FlowKey(ConvIPv4ToInt(flow.forward.srcIp), flow.forward.srcPort, ConvIPv4ToInt(destIp), destPort, flow.forward.protocol,
            ConvIPv4ToInt(if sourceOwns then flow.forward.srcIp else destIp), 0)
  }

  /** The keys one kernel flow contributes; the translated ones only when the address differs. */
  function Forms(flow: KernelFlow): set<FlowKey> {
    var f, r := flow.forward, flow.reverse;
    {Form(flow, f.destIp, f.destPort, true), Form(flow, f.destIp, f.destPort, false)}
    + if f.destIp != r.srcIp then {Form(flow, r.srcIp, r.srcPort, true), Form(flow, r.srcIp, r.srcPort, false)} else {}
  }

  /** The bytes of the entry's addresses, and its ports and protocol, lead from the flow's source to the destination. */
  predicate Leads(k: FlowKey, flow: KernelFlow, destIp: Ip, destPort: Word16) {
    && ConvIntToIPv4(k.srcIp) == flow.forward.srcIp && k.srcPort == flow.forward.srcPort
    && ConvIntToIPv4(k.destIp) == destIp && k.destPort == destPort && k.protocol == flow.forward.protocol
  }

  /** The entry belongs to one end of the flow, as addressed or as translated to another address. */
  predicate SameFlow(k: FlowKey, flow: KernelFlow) {
    && (k.ownerIp == k.srcIp || k.ownerIp == k.destIp)
    && (Leads(k, flow, flow.forward.destIp, flow.forward.destPort)
        || (flow.forward.destIp != flow.reverse.srcIp && Leads(k, flow, flow.reverse.srcIp, flow.reverse.srcPort)))
  }

  lemma FormMeansLeads(k: FlowKey, flow: KernelFlow, destIp: Ip, destPort: Word16)
    ensures Comparable(k) == Form(flow, destIp, destPort, true) <==> Leads(k, flow, destIp, destPort) && k.ownerIp == k.srcIp
    ensures Comparable(k) == Form(flow, destIp, destPort, false) <==> Leads(k, flow, destIp, destPort) && k.ownerIp == k.destIp
  {
    IntFormIsInjective(ConvIntToIPv4(k.srcIp), flow.forward.srcIp);
    IntFormIsInjective(ConvIntToIPv4(k.destIp), destIp);
    IntFormIsInjective(ConvIntToIPv4(k.ownerIp), flow.forward.srcIp);
    IntFormIsInjective(ConvIntToIPv4(k.ownerIp), destIp);
    BytesAreInjective(k.ownerIp, k.srcIp);
    BytesAreInjective(k.ownerIp, k.destIp);
  }

  /** The byte-order conversions make the comparison one of the addresses themselves. */
  lemma FormsMeanSameFlow(k: FlowKey, flow: KernelFlow)
    ensures Comparable(k) in Forms(flow) <==> SameFlow(k, flow)
  {
    FormMeansLeads(k, flow, flow.forward.destIp, flow.forward.destPort);
    FormMeansLeads(k, flow, flow.reverse.srcIp, flow.reverse.srcPort);
  }

  /** Some listed flow stands for the entry. */
  predicate Listed(k: FlowKey, flows: seq<KernelFlow>) {
    exists flow | flow in flows :: SameFlow(k, flow)
  }

  /** The collector's cache of kernel flows; looking a table key up in it asks whether its flow is listed. */
  method KernelCache(flows: seq<KernelFlow>) returns (cache: set<FlowKey>)
    ensures forall k :: Comparable(k) in cache <==> Listed(k, flows)
  {
    cache := {};
    for n := 0 to |flows|
      invariant forall k :: Comparable(k) in cache <==> Listed(k, flows[..n])
    {
      var flow, before := flows[n], cache;
      cache := cache + {Form(flow, flow.forward.destIp, flow.forward.destPort, true)};
      cache := cache + {Form(flow, flow.forward.destIp, flow.forward.destPort, false)};
      if flow.forward.destIp != flow.reverse.srcIp {
        cache := cache + {Form(flow, flow.reverse.srcIp, flow.reverse.srcPort, true)};
        cache := cache + {Form(flow, flow.reverse.srcIp, flow.reverse.srcPort, false)};
      }
      assert cache == before + Forms(flow);
      forall k
        ensures Comparable(k) in cache <==> Listed(k, flows[..n + 1])
      {
        FormsMeanSameFlow(k, flow);
        ListedOneMore(k, flows, n);
      }
    }
    assert flows[..|flows|] == flows;
  }

  lemma ListedOneMore(k: FlowKey, flows: seq<KernelFlow>, n: nat)
    requires n < |flows|
    ensures Listed(k, flows[..n + 1]) <==> Listed(k, flows[..n]) || SameFlow(k, flows[n])
  {
    assert flows[..n + 1] == flows[..n] + [flows[n]];
  }
}
