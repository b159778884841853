/** Network prefixes as bit strings, in the canonical form `net.IPNet.String` gives them. */
module Cidrs {
  datatype Family = V4 | V6

  function Width(family: Family): nat {
    if family.V4? then 32 else 128
  }

  datatype RawCidr = Cidr(family: Family, bits: seq<bool>)

  /** A prefix no longer than its family's addresses; its host bits are implicit. */
  type Cidr = c: RawCidr | |c.bits| <= Width(c.family) witness RawCidr.Cidr(V4, [])

  /** An address is a prefix of full length. */
  type Address = c: RawCidr | |c.bits| == Width(c.family)
    witness RawCidr.Cidr(V4, seq(32, _ => false))

  predicate Contains(c: Cidr, a: Cidr) {
    c.family == a.family && c.bits <= a.bits
  }

  predicate StrictlyContains(c: Cidr, d: Cidr) {
    Contains(c, d) && |c.bits| < |d.bits|
  }

  predicate Overlap(c: Cidr, d: Cidr) {
    Contains(c, d) || Contains(d, c)
  }

  /** The address with every host bit zero, as `net.ParseCIDR` returns it in `IPNet.IP`. */
  function NetworkAddress(c: Cidr): (a: Address)
    ensures Contains(c, a)
  {
    RawCidr.Cidr(c.family, c.bits + seq(Width(c.family) - |c.bits|, _ => false))
  }

  /** The first `len` bits of an address. */
  function Truncate(a: Address, len: nat): (c: Cidr)
    requires len <= |a.bits|
    ensures Contains(c, a) && |c.bits| == len
  {
    RawCidr.Cidr(a.family, a.bits[..len])
  }

  /** Two prefixes of one address are nested, the shorter around the longer. */
  lemma PrefixesNest(c: Cidr, d: Cidr, a: Cidr)
    requires Contains(c, a) && Contains(d, a) && |c.bits| <= |d.bits|
    ensures Contains(c, d)
    ensures |c.bits| == |d.bits| ==> c == d
  {
    assert c.bits == a.bits[..|c.bits|];
    assert d.bits == a.bits[..|d.bits|];
    assert d.bits[..|c.bits|] == c.bits;
  }

  lemma ContainsTransitive(c: Cidr, d: Cidr, e: Cidr)
    requires Contains(c, d) && Contains(d, e)
    ensures Contains(c, e)
  {
    assert c.bits == d.bits[..|c.bits|] == e.bits[..|c.bits|];
  }
}
