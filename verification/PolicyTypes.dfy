/** The value types shared by the policy compilers, the reconcilers and the datapath. */
module PolicyTypes {
  import opened Basics

  // CatchAll and DenyAll are the two marker protocols the agent itself puts in port lists.
  datatype Protocol = TCP | UDP | SCTP | CatchAll | DenyAll | Other(name: string)

  /** A pointer to a protocol. Its address matters to `removeDuplicateL4Rules`, which formats the pointer itself. */
  datatype ProtocolRef = ProtocolRef(address: nat, value: Protocol)

  datatype Port = Port(protocol: Option<ProtocolRef>, port: Option<int>, endPort: Option<int>)

  datatype Action = Deny | Accept | Pass | Unknown(name: string)

  datatype Direction = Ingress | Egress

  /** What pods of one workload in one namespace share; `PodNames.PodIdentifier` gives the text. */
  datatype Identifier = Identifier(text: string)

  // IP protocol numbers of the value slots.
  const TCP_NUMBER := 6
  const UDP_NUMBER := 17
  const SCTP_NUMBER := 132
  const ANY_IP_PROTOCOL := 254
  const RESERVED_IP_PROTOCOL := 255

  const MAX_SLOTS := 24

  // Pod states and evaluator actions shared with the eBPF programs.
  const POLICIES_APPLIED := 0
  const DEFAULT_ALLOW := 1
  const DEFAULT_DENY := 2
  const ACTION_DENY := 0
  const ACTION_ALLOW := 1
  const ACTION_PASS := 2

  /** What the evaluators read of a packet besides the peer address. */
  datatype Packet = Packet(protocol: nat, destPort: nat)

  function Number(port: Option<int>): int {
    if port.Some? then port.value else 0
  }
}
