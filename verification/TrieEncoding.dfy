/** The byte layout of map keys and values, as written by the agent and read back by the eBPF programs. */
module TrieEncoding {
  import opened Basics
  import opened Cidrs
  import opened PolicyTypes

  type Byte = x: int | 0 <= x < 256

  const U32 := 0x1_0000_0000

  /** A kernel map with its keys and values as bytes. */
  type MapContents = map<seq<Byte>, seq<Byte>>

  // ----- 32-bit little-endian words

  function LittleEndian(x: int): (b: seq<Byte>)
    ensures |b| == 4
  {
    var u := x % U32;
    [u % 256, u / 256 % 256, u / 65536 % 256, u / 16777216]
  }

  /** Word `w` of a buffer, as a little-endian machine reads it. */
  function Word(v: seq<Byte>, w: nat): (x: nat)
    requires 4 * w + 4 <= |v|
  {
    (v[4 * w] as int) + 256 * (v[4 * w + 1] as int) + 65536 * (v[4 * w + 2] as int)
    + 16777216 * (v[4 * w + 3] as int)
  }

  function Words(v: seq<Byte>): (words: seq<nat>)
    ensures |words| == |v| / 4
  {
    seq(|v| / 4, w requires 0 <= w < |v| / 4 => Word(v, w))
  }

  lemma WordOfLittleEndian(x: int)
    ensures Word(LittleEndian(x), 0) == x % U32
  {
    var u := x % U32;
    assert u == u % 256 + 256 * (u / 256);
    assert u / 256 == u / 256 % 256 + 256 * (u / 65536);
    assert u / 65536 == u / 65536 % 256 + 256 * (u / 16777216);
  }

  /** Writes the 32-bit truncation of `x` at byte `4 * w`. */
  method PutUint32(value: array<Byte>, w: nat, x: int)
    requires 4 * w + 4 <= value.Length
    modifies value
    ensures Words(value[..]) == old(Words(value[..]))[w := x % U32]
  {
    var offset := 4 * w;
    var bytes := LittleEndian(x);
    WordOfLittleEndian(x);
    value[offset] := bytes[0];
    value[offset + 1] := bytes[1];
    value[offset + 2] := bytes[2];
    value[offset + 3] := bytes[3];
  }

  method PutPair(value: array<Byte>, w: nat, x: nat, y: nat)
    requires 4 * w + 8 <= value.Length && x < U32 && y < U32
    modifies value
    ensures Words(value[..]) == old(Words(value[..]))[w := x][w + 1 := y]
  {
    PutUint32(value, w, x);
    PutUint32(value, w + 1, y);
  }

  // ----- values of the namespaced maps: 24 slots of three words

  datatype Slot = Slot(protocol: nat, startPort: nat, endPort: nat)

  const NO_SLOT := Slot(0, 0, 0)
  const TRIE_VALUE_LENGTH := 288

  /** Entry `i` of `struct lpm_trie_val[24]`. */
  function ReadSlot(v: seq<Byte>, i: nat): Slot
    requires |v| == TRIE_VALUE_LENGTH && i < MAX_SLOTS
  {
    SlotInWords(Words(v), i)
  }

  function SlotInWords(words: seq<nat>, i: nat): Slot
    requires 3 * i + 3 <= |words|
  {
    Slot(words[3 * i], words[3 * i + 1], words[3 * i + 2])
  }

  /** The whole value, decoded. */
  function Slots(v: seq<Byte>): (s: seq<Slot>)
    requires |v| == TRIE_VALUE_LENGTH
    ensures |s| == MAX_SLOTS
  {
    seq(MAX_SLOTS, i requires 0 <= i < MAX_SLOTS => ReadSlot(v, i))
  }

  /** The bytes of a value: 24 slots of protocol, first and last port, each a little-endian word. */
  lemma SlotBytes(v: seq<Byte>, i: nat)
    requires |v| == 288 && i < 24
    ensures |Slots(v)| == 24
    ensures Slots(v)[i].protocol == LittleEndianNumber(v[12 * i..12 * i + 4])
    ensures Slots(v)[i].startPort == LittleEndianNumber(v[12 * i + 4..12 * i + 8])
    ensures Slots(v)[i].endPort == LittleEndianNumber(v[12 * i + 8..12 * i + 12])
  {
    WordSpells(v, 3 * i);
    WordSpells(v, 3 * i + 1);
    WordSpells(v, 3 * i + 2);
    assert Slots(v)[i] == Slot(Word(v, 3 * i), Word(v, 3 * i + 1), Word(v, 3 * i + 2));
  }

  /** The number that bytes spell, least significant first. */
  function LittleEndianNumber(bytes: seq<Byte>): int {
    if bytes == [] then 0 else bytes[0] + 256 * LittleEndianNumber(bytes[1..])
  }

  lemma WordSpells(v: seq<Byte>, w: nat)
    requires 4 * w + 4 <= |v|
    ensures Word(v, w) == LittleEndianNumber(v[4 * w..4 * w + 4])
  {
    var b: seq<int> := v[4 * w..4 * w + 4];
    assert b[1..][1..] == b[2..] && b[2..][1..] == b[3..] && b[3..][1..] == [];
    assert LittleEndianNumber(b[3..]) == b[3];
    assert LittleEndianNumber(b[2..]) == b[2] + 256 * b[3];
    assert LittleEndianNumber(b[1..]) == b[1] + 256 * (b[2] + 256 * b[3]);
  }

  function ProtocolValue(p: Port, allowAll: bool, denyAll: bool): nat {
    if denyAll then RESERVED_IP_PROTOCOL
    else if allowAll || p.protocol.None? then ANY_IP_PROTOCOL
    else match p.protocol.value.value
      case TCP => TCP_NUMBER
      case UDP => UDP_NUMBER
      case SCTP => SCTP_NUMBER
      case DenyAll => RESERVED_IP_PROTOCOL
      case CatchAll => ANY_IP_PROTOCOL
      case Other(_) => ANY_IP_PROTOCOL
  }

  function SlotOf(p: Port, allowAll: bool := false, denyAll: bool := false): (s: Slot)
    ensures s.protocol < U32 && s.startPort < U32 && s.endPort < U32
  {
    Slot(ProtocolValue(p, allowAll, denyAll), Number(p.port) % U32, Number(p.endPort) % U32)
  }

  /** The slots the encoder wants to write; only the first 24 fit. */
  function WantedSlots(l4Info: seq<Port>, allowAll: bool, denyAll: bool): seq<Slot> {
    var all := allowAll || l4Info == [];
    (if all || denyAll then [SlotOf(Port(None, None, None), all, denyAll)] else [])
    + seq(|l4Info|, i requires 0 <= i < |l4Info| => SlotOf(l4Info[i], all, denyAll))
  }

  /** What fits: the first 24 slots, and zeros after the last. */
  function Padded(slots: seq<Slot>): (s: seq<Slot>)
    ensures |s| == MAX_SLOTS
  {
    seq(MAX_SLOTS, i requires 0 <= i < MAX_SLOTS => if i < |slots| then slots[i] else NO_SLOT)
  }

  function WithSlot(words: seq<nat>, i: nat, slot: Slot): (r: seq<nat>)
    requires 3 * i + 3 <= |words|
    ensures |r| == |words| && SlotInWords(r, i) == slot
    ensures forall j: nat | j != i && 3 * j + 3 <= |words| :: SlotInWords(r, j) == SlotInWords(words, j)
  {
    words[3 * i := slot.protocol][3 * i + 1 := slot.startPort][3 * i + 2 := slot.endPort]
  }

  // The first `n` wanted slots are in place and the others still zero.
  ghost predicate HoldsSlots(words: seq<nat>, wanted: seq<Slot>, n: nat) {
    |words| == 72 && n <= |wanted| && n <= MAX_SLOTS && forall i :: HoldsAt(words, wanted, n, i)
  }

  ghost predicate HoldsAt(words: seq<nat>, wanted: seq<Slot>, n: nat, i: nat)
    requires |words| == 72 && n <= |wanted|
  {
    i < MAX_SLOTS ==> SlotInWords(words, i) == if i < n then wanted[i] else NO_SLOT
  }

  lemma HoldsOneMore(words: seq<nat>, wanted: seq<Slot>, n: nat)
    requires HoldsSlots(words, wanted, n) && n < |wanted| && n < MAX_SLOTS
    ensures HoldsSlots(WithSlot(words, n, wanted[n]), wanted, n + 1)
  {
    var more, next := WithSlot(words, n, wanted[n]), n + 1;
    forall i
      ensures HoldsAt(more, wanted, next, i)
    {
      assert HoldsAt(words, wanted, n, i);
    }
  }

  method PutSlot(value: array<Byte>, i: nat, slot: Slot)
    requires 12 * i + 12 <= value.Length
    requires slot.protocol < U32 && slot.startPort < U32 && slot.endPort < U32
    modifies value
    ensures Words(value[..]) == WithSlot(old(Words(value[..])), i, slot)
  {
    PutPair(value, 3 * i, slot.protocol, slot.startPort);
    PutUint32(value, 3 * i + 2, slot.endPort);
  }

  /** Reading the value back gives the wanted slots in order, cut at 24 and padded with zeros. */
  method ComputeTrieValue(l4Info: seq<Port>, allowAll: bool, denyAll: bool) returns (bytes: seq<Byte>)
    ensures |bytes| == TRIE_VALUE_LENGTH && Slots(bytes) == Padded(WantedSlots(l4Info, allowAll, denyAll))
  {
    var value := new Byte[TRIE_VALUE_LENGTH](_ => 0);
    var next := 0;
    var all := allowAll || l4Info == [];
    ghost var wanted := WantedSlots(l4Info, allowAll, denyAll);
    ghost var head := if all || denyAll then 1 else 0;
    NothingHeld(value[..], wanted);
    if all || denyAll {
      next := WriteNext(value, next, SlotOf(Port(None, None, None), all, denyAll), wanted);
    }
    for k := 0 to |l4Info|
      invariant next == head + k
      invariant HoldsSlots(Words(value[..]), wanted, next)
    {
      if next >= MAX_SLOTS {
        HoldsAll(value[..], wanted, next);
        return value[..];
      }
      WantedAt(l4Info, allowAll, denyAll, k);
      next := WriteNext(value, next, SlotOf(l4Info[k], all, denyAll), wanted);
    }
    HoldsAll(value[..], wanted, next);
    bytes := value[..];
  }

  lemma NothingHeld(v: seq<Byte>, wanted: seq<Slot>)
    requires |v| == TRIE_VALUE_LENGTH && forall i | 0 <= i < |v| :: v[i] == 0
    ensures HoldsSlots(Words(v), wanted, 0)
  {
    assert forall w: nat | w < 72 :: Words(v)[w] == 0;
    assert forall i :: HoldsAt(Words(v), wanted, 0, i);
  }

  lemma HoldsAll(v: seq<Byte>, wanted: seq<Slot>, n: nat)
    requires |v| == TRIE_VALUE_LENGTH && HoldsSlots(Words(v), wanted, n) && (n == |wanted| || n == MAX_SLOTS)
    ensures Slots(v) == Padded(wanted)
  {
    forall i | 0 <= i < MAX_SLOTS
      ensures Slots(v)[i] == Padded(wanted)[i]
    {
      assert HoldsAt(Words(v), wanted, n, i);
    }
  }

  lemma WantedAt(l4Info: seq<Port>, allowAll: bool, denyAll: bool, k: nat)
    requires k < |l4Info|
    ensures var all := allowAll || l4Info == [];
            var n := (if all || denyAll then 1 else 0) + k;
            n < |WantedSlots(l4Info, allowAll, denyAll)|
            && WantedSlots(l4Info, allowAll, denyAll)[n] == SlotOf(l4Info[k], all, denyAll)
  {
  }

  method WriteNext(value: array<Byte>, n: nat, slot: Slot, ghost wanted: seq<Slot>) returns (next: nat)
    requires value.Length == TRIE_VALUE_LENGTH && n < MAX_SLOTS && n < |wanted| && wanted[n] == slot
    requires slot.protocol < U32 && slot.startPort < U32 && slot.endPort < U32
    requires HoldsSlots(Words(value[..]), wanted, n)
    modifies value
    ensures next == n + 1 && HoldsSlots(Words(value[..]), wanted, next)
  {
    HoldsOneMore(Words(value[..]), wanted, n);
    PutSlot(value, n, slot);
    next := n + 1;
  }

  // ----- values of the cluster-policy maps: 24 slots of four words

  /** One port of one cluster-policy rule. */
  datatype L4Rule = L4Rule(port: Port, action: Action, priority: int)

  /** `rank` is `priority * 10 + action`, so that equal priorities are ordered by action. */
  datatype RankedSlot = RankedSlot(protocol: nat, rank: nat, startPort: nat, endPort: nat)

  const NO_RANKED_SLOT := RankedSlot(0, 0, 0, 0)
  const ADMIN_TRIE_VALUE_LENGTH := 384

  /** Entry `i` of `struct lpm_cp_trie_val[24]`. */
  function ReadRankedSlot(v: seq<Byte>, i: nat): RankedSlot
    requires |v| == ADMIN_TRIE_VALUE_LENGTH && i < MAX_SLOTS
  {
    RankedSlotInWords(Words(v), i)
  }

  function RankedSlotInWords(words: seq<nat>, i: nat): RankedSlot
    requires 4 * i + 4 <= |words|
  {
    RankedSlot(words[4 * i], words[4 * i + 1], words[4 * i + 2], words[4 * i + 3])
  }

  function RankedSlots(v: seq<Byte>): (s: seq<RankedSlot>)
    requires |v| == ADMIN_TRIE_VALUE_LENGTH
    ensures |s| == MAX_SLOTS
  {
    seq(MAX_SLOTS, i requires 0 <= i < MAX_SLOTS => ReadRankedSlot(v, i))
  }

  /** The bytes of a value: 24 slots of protocol, rank, first and last port, each a little-endian word. */
  lemma RankedSlotBytes(v: seq<Byte>, i: nat)
    requires |v| == 384 && i < 24
    ensures |RankedSlots(v)| == 24
    ensures RankedSlots(v)[i].protocol == LittleEndianNumber(v[16 * i..16 * i + 4])
    ensures RankedSlots(v)[i].rank == LittleEndianNumber(v[16 * i + 4..16 * i + 8])
    ensures RankedSlots(v)[i].startPort == LittleEndianNumber(v[16 * i + 8..16 * i + 12])
    ensures RankedSlots(v)[i].endPort == LittleEndianNumber(v[16 * i + 12..16 * i + 16])
  {
    WordSpells(v, 4 * i);
    WordSpells(v, 4 * i + 1);
    WordSpells(v, 4 * i + 2);
    WordSpells(v, 4 * i + 3);
    assert RankedSlots(v)[i] == RankedSlot(Word(v, 4 * i), Word(v, 4 * i + 1), Word(v, 4 * i + 2), Word(v, 4 * i + 3));
  }

  predicate IsEmpty(p: Port) {
    p.protocol.None? && p.port.None? && p.endPort.None?
  }

  function ClusterProtocolValue(p: Port): nat {
    if p.protocol.None? then TCP_NUMBER
    else match p.protocol.value.value
      case UDP => UDP_NUMBER
      case SCTP => SCTP_NUMBER
      case CatchAll => ANY_IP_PROTOCOL
      case DenyAll => RESERVED_IP_PROTOCOL
      case TCP => TCP_NUMBER
      case Other(_) => TCP_NUMBER
  }

  function ActionValue(a: Action): nat {
    match a
    case Deny => ACTION_DENY
    case Accept => ACTION_ALLOW
    case Pass => ACTION_PASS
    case Unknown(_) => ACTION_PASS
  }

  function RankedSlotOf(r: L4Rule): (s: RankedSlot)
    ensures s.protocol < U32 && s.rank < U32 && s.startPort < U32 && s.endPort < U32
  {
    RankedSlot(if IsEmpty(r.port) then ANY_IP_PROTOCOL else ClusterProtocolValue(r.port),
               (r.priority * 10 + ActionValue(r.action)) % U32,
               Number(r.port.port) % U32, Number(r.port.endPort) % U32)
  }

  function PaddedRanked(rules: seq<L4Rule>): (s: seq<RankedSlot>)
    ensures |s| == MAX_SLOTS
  {
    seq(MAX_SLOTS, i requires 0 <= i < MAX_SLOTS => if i < |rules| then RankedSlotOf(rules[i]) else NO_RANKED_SLOT)
  }

  function WithRankedSlot(words: seq<nat>, i: nat, slot: RankedSlot): (r: seq<nat>)
    requires 4 * i + 4 <= |words|
    ensures |r| == |words| && RankedSlotInWords(r, i) == slot
    ensures forall j: nat | j != i && 4 * j + 4 <= |words| :: RankedSlotInWords(r, j) == RankedSlotInWords(words, j)
  {
    words[4 * i := slot.protocol][4 * i + 1 := slot.rank][4 * i + 2 := slot.startPort][4 * i + 3 := slot.endPort]
  }

  method PutRankedSlot(value: array<Byte>, i: nat, slot: RankedSlot)
    requires 16 * i + 16 <= value.Length
    requires slot.protocol < U32 && slot.rank < U32 && slot.startPort < U32 && slot.endPort < U32
    modifies value
    ensures Words(value[..]) == WithRankedSlot(old(Words(value[..])), i, slot)
  {
    PutPair(value, 4 * i, slot.protocol, slot.rank);
    PutPair(value, 4 * i + 2, slot.startPort, slot.endPort);
  }

  /** Reading the value back gives the rules' slots in order, cut at 24 and padded with zeros. */
  method ComputeTrieValueForCPE(rules: seq<L4Rule>) returns (bytes: seq<Byte>)
    ensures |bytes| == ADMIN_TRIE_VALUE_LENGTH && RankedSlots(bytes) == PaddedRanked(rules)
  {
    var value := new Byte[ADMIN_TRIE_VALUE_LENGTH](_ => 0);
    ghost var words: seq<nat> := seq(96, _ => 0);
    assert Words(value[..]) == words;
    for k := 0 to |rules|
      invariant k <= MAX_SLOTS
      invariant |words| == 96 && Words(value[..]) == words
      invariant forall i: nat | i < MAX_SLOTS ::
                  RankedSlotInWords(words, i) == if i < k then RankedSlotOf(rules[i]) else NO_RANKED_SLOT
    {
      if k >= MAX_SLOTS {
        assert RankedSlots(value[..]) == PaddedRanked(rules);
        return value[..];
      }
      words := WithRankedSlot(words, k, RankedSlotOf(rules[k]));
      PutRankedSlot(value, k, RankedSlotOf(rules[k]));
    }
    assert RankedSlots(value[..]) == PaddedRanked(rules);
    bytes := value[..];
  }

  // ----- keys: prefix length, then the network address

  /** The number a bit string spells, most significant bit first. */
  function Num(bits: seq<bool>): nat {
    if bits == [] then 0
    else 2 * Num(bits[..|bits| - 1]) + (if bits[|bits| - 1] then 1 else 0)
  }

  function Pow2(n: nat): nat {
    if n == 0 then 1 else 2 * Pow2(n - 1)
  }

  lemma {:induction false} NumBound(bits: seq<bool>)
    ensures Num(bits) < Pow2(|bits|)
    decreases |bits|
  {
    if bits != [] {
      NumBound(bits[..|bits| - 1]);
    }
  }

  lemma {:induction false} NumInjective(a: seq<bool>, b: seq<bool>)
    requires |a| == |b| && Num(a) == Num(b)
    ensures a == b
    decreases |a|
  {
    if a != [] {
      NumInjective(a[..|a| - 1], b[..|b| - 1]);
      assert a == a[..|a| - 1] + [a[|a| - 1]];
      assert b == b[..|b| - 1] + [b[|b| - 1]];
    }
  }

  function ByteOf(bits: seq<bool>): Byte
    requires |bits| == 8
  {
    NumBound(bits);
    assert Pow2(8) == 2 * 2 * 2 * 2 * Pow2(4);
    Num(bits)
  }

  function Pack(bits: seq<bool>): (b: seq<Byte>)
    requires |bits| % 8 == 0
    ensures |b| == |bits| / 8
  {
    if bits == [] then [] else [ByteOf(bits[..8])] + Pack(bits[8..])
  }

  lemma {:induction false} PackInjective(a: seq<bool>, b: seq<bool>)
    requires |a| == |b| && |a| % 8 == 0 && Pack(a) == Pack(b)
    ensures a == b
    decreases |a|
  {
    if a != [] {
      var restA, restB := Pack(a[8..]), Pack(b[8..]);
      assert Pack(a)[0] == ByteOf(a[..8]) && Pack(b)[0] == ByteOf(b[..8]);
      assert Pack(a)[1..] == restA && Pack(b)[1..] == restB;
      NumInjective(a[..8], b[..8]);
      PackInjective(a[8..], b[8..]);
      assert a == a[..8] + a[8..] && b == b[..8] + b[8..];
    }
  }

  function TrieKey(c: Cidr): (key: seq<Byte>)
    ensures |key| == if c.family.V4? then 8 else 20
  {
    LittleEndian(|c.bits|) + Pack(NetworkAddress(c).bits)
  }

  /** The key's bits as the kernel compares them: bit `j` of the network address is the `j`th of the bytes after the length. */
  lemma TrieKeyBits(c: Cidr, j: nat)
    requires j < Width(c.family)
    ensures Word(TrieKey(c), 0) == |c.bits|
    ensures ShiftRight(TrieKey(c)[4 + j / 8], 7 - j % 8) % 2 == (if j < |c.bits| && c.bits[j] then 1 else 0)
  {
    LengthWord(c);
    KeyParts(c);
    var bits, i := NetworkAddress(c).bits, j / 8;
    PackAt(bits, i);
    var byte := bits[8 * i..8 * i + 8];
    NumAt(byte, j % 8);
    assert byte[j % 8] == bits[j];
    assert TrieKey(c)[4..][i] == TrieKey(c)[4 + i];
  }

  lemma LengthWord(c: Cidr)
    ensures Word(TrieKey(c), 0) == |c.bits|
  {
    KeyParts(c);
    WordOfLittleEndian(|c.bits|);
    var key := TrieKey(c);
    assert key[0] == key[..4][0] && key[1] == key[..4][1] && key[2] == key[..4][2] && key[3] == key[..4][3];
  }

  lemma {:induction false} PackAt(bits: seq<bool>, i: nat)
    requires |bits| % 8 == 0 && 8 * i + 8 <= |bits|
    ensures Pack(bits)[i] == Num(bits[8 * i..8 * i + 8])
  {
    var rest := bits[8..];
    assert Pack(bits) == [ByteOf(bits[..8])] + Pack(rest);
    if i > 0 {
      PackAt(rest, i - 1);
      assert Pack(bits)[i] == Pack(rest)[i - 1];
      SliceOfRest(bits, i);
    } else {
      assert bits[8 * i..8 * i + 8] == bits[..8];
    }
  }

  lemma SliceOfRest(bits: seq<bool>, i: nat)
    requires i > 0 && 8 * i + 8 <= |bits|
    ensures bits[8..][8 * (i - 1)..8 * (i - 1) + 8] == bits[8 * i..8 * i + 8]
  {
  }

  function ShiftRight(x: nat, n: nat): nat {
    if n == 0 then x else ShiftRight(x / 2, n - 1)
  }

  lemma {:induction false} NumAt(bits: seq<bool>, j: nat)
    requires j < |bits|
    ensures ShiftRight(Num(bits), |bits| - 1 - j) % 2 == if bits[j] then 1 else 0
    decreases |bits|
  {
    if j < |bits| - 1 {
      NumAt(bits[..|bits| - 1], j);
      assert Num(bits) / 2 == Num(bits[..|bits| - 1]);
    }
  }

  /** Distinct prefixes never share a map key, so no map write overwrites another rule's entry. */
  lemma TrieKeyInjective(c: Cidr, d: Cidr)
    requires TrieKey(c) == TrieKey(d)
    ensures c == d
  {
    KeyParts(c);
    KeyParts(d);
    SameLengthWord(|c.bits|, |d.bits|);
    PackInjective(NetworkAddress(c).bits, NetworkAddress(d).bits);
    SameNetwork(c, d);
  }

  lemma KeyParts(c: Cidr)
    ensures TrieKey(c)[..4] == LittleEndian(|c.bits|) && TrieKey(c)[4..] == Pack(NetworkAddress(c).bits)
    ensures |NetworkAddress(c).bits| == 8 * (|TrieKey(c)| - 4)
  {
  }

  lemma SameLengthWord(m: nat, n: nat)
    requires LittleEndian(m) == LittleEndian(n) && m < U32 && n < U32
    ensures m == n
  {
    WordOfLittleEndian(m);
    WordOfLittleEndian(n);
  }

  lemma SameNetwork(c: Cidr, d: Cidr)
    requires |c.bits| == |d.bits| && NetworkAddress(c).bits == NetworkAddress(d).bits
    ensures c == d
  {
    assert c.bits == NetworkAddress(c).bits[..|c.bits|] && d.bits == NetworkAddress(d).bits[..|d.bits|];
  }

  // ----- writing entries

  /** The table holds the written values and, under all other keys, what it held initially. */
  ghost predicate Written(table: map<seq<Byte>, seq<Byte>>, initial: map<seq<Byte>, seq<Byte>>, values: map<Cidr, seq<Byte>>) {
    forall c: Cidr :: WrittenAt(table, initial, values, c)
  }

  ghost predicate WrittenAt(table: map<seq<Byte>, seq<Byte>>, initial: map<seq<Byte>, seq<Byte>>, values: map<Cidr, seq<Byte>>,
                            c: Cidr) {
    && (TrieKey(c) in table <==> TrieKey(c) in initial || c in values)
    && (c in values ==> table[TrieKey(c)] == values[c])
    && (c !in values && TrieKey(c) in initial ==> table[TrieKey(c)] == initial[TrieKey(c)])
  }

  lemma WriteOne(table: map<seq<Byte>, seq<Byte>>, initial: map<seq<Byte>, seq<Byte>>, values: map<Cidr, seq<Byte>>, k: Cidr,
                 v: seq<Byte>)
    requires Written(table, initial, values)
    ensures Written(table[TrieKey(k) := v], initial, values[k := v])
  {
    var table', values' := table[TrieKey(k) := v], values[k := v];
    forall c: Cidr
      ensures WrittenAt(table', initial, values', c)
    {
      assert WrittenAt(table, initial, values, c);
      if TrieKey(c) == TrieKey(k) {
        TrieKeyInjective(c, k);
      }
    }
  }

  // ----- longest-prefix-match lookup

  /** The entry of the longest stored prefix of `a` with at most `len` bits. */
  function Lookup<V>(table: map<seq<Byte>, V>, a: Address, len: nat): (v: Option<V>)
    requires len <= |a.bits|
  {
    if TrieKey(Truncate(a, len)) in table then Some(table[TrieKey(Truncate(a, len))])
    else if len == 0 then None
    else Lookup(table, a, len - 1)
  }

  function LongestMatch<V>(table: map<seq<Byte>, V>, a: Address): Option<V> {
    Lookup(table, a, |a.bits|)
  }

  ghost predicate IsLongestMatch<V>(table: map<seq<Byte>, V>, a: Address, c: Cidr) {
    && TrieKey(c) in table && Contains(c, a)
    && forall d: Cidr | TrieKey(d) in table && Contains(d, a) :: |d.bits| <= |c.bits|
  }

  /** The lookup returns the entry of the longest stored prefix containing the address, if any. */
  lemma LongestMatchIsLongest<V>(table: map<seq<Byte>, V>, a: Address)
    ensures LongestMatch(table, a).None? ==> forall d: Cidr | Contains(d, a) :: TrieKey(d) !in table
    ensures LongestMatch(table, a).Some? ==>
              exists c: Cidr :: IsLongestMatch(table, a, c) && LongestMatch(table, a).value == table[TrieKey(c)]
  {
    LookupIsLongest(table, a, |a.bits|);
    if LongestMatch(table, a).Some? {
      var c: Cidr :| IsMatchTo(table, a, c, |a.bits|) && LongestMatch(table, a).value == table[TrieKey(c)];
      assert IsLongestMatch(table, a, c);
    }
  }

  /** The stored prefix is the longest around the address of those with at most `len` bits. */
  ghost predicate IsMatchTo<V>(table: map<seq<Byte>, V>, a: Address, c: Cidr, len: nat) {
    && TrieKey(c) in table && Contains(c, a)
    && forall d: Cidr | TrieKey(d) in table && Contains(d, a) && |d.bits| <= len :: |d.bits| <= |c.bits|
  }

  lemma {:induction false} LookupIsLongest<V>(table: map<seq<Byte>, V>, a: Address, len: nat)
    requires len <= |a.bits|
    ensures Lookup(table, a, len).None? ==>
              forall d: Cidr | Contains(d, a) && |d.bits| <= len :: TrieKey(d) !in table
    ensures Lookup(table, a, len).Some? ==>
              exists c: Cidr :: IsMatchTo(table, a, c, len) && Lookup(table, a, len).value == table[TrieKey(c)]
  {
    var t := Truncate(a, len);
    assert Contains(t, a);
    forall d: Cidr | Contains(d, a) && |d.bits| == len
      ensures d == t
    {
      PrefixesNest(d, t, a);
    }
    if TrieKey(t) !in table && len > 0 {
      LookupIsLongest(table, a, len - 1);
      if Lookup(table, a, len - 1).Some? {
        var c: Cidr :| IsMatchTo(table, a, c, len - 1) && Lookup(table, a, len - 1).value == table[TrieKey(c)];
        assert IsMatchTo(table, a, c, len);
      }
    } else if TrieKey(t) in table {
      assert IsMatchTo(table, a, t, len);
    }
  }
}
