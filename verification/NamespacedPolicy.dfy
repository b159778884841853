/** What a list of namespaced CIDR/port rules compiles to, stated on the set of rules alone. */
module NamespacedPolicy {
  import opened Basics
  import opened Cidrs
  import opened PolicyTypes

  datatype Rule = Rule(cidr: Cidr, except: seq<Cidr>, ports: seq<Port>)

  const CATCH_ALL := Port(Some(ProtocolRef(0, CatchAll)), None, None)
  const DENY_ALL := Port(Some(ProtocolRef(0, DenyAll)), None, None)

  /** A rule without ports grants every port. */
  function PortsOf(r: Rule): (ports: seq<Port>)
    ensures ports != []
  {
    if r.ports == [] then [CATCH_ALL] else r.ports
  }

  /** Rules of the other family, and rules whose network address is the node's, are dropped. */
  predicate Skipped(node: Address, c: Cidr) {
    NetworkAddress(c) == node || c.family != node.family
  }

  /** Only the text after the slash is looked at, so an IPv6 /32 counts as a host too. */
  predicate IsNonHost(c: Cidr) {
    |c.bits| != 32 && |c.bits| != 128
  }

  function Kept(node: Address, rules: set<Rule>): set<Rule> {
    set r | r in rules && !Skipped(node, r.cidr)
  }

  function RuleCidrs(rules: set<Rule>): set<Cidr> {
    set r | r in rules :: r.cidr
  }

  function OwnPorts(rules: set<Rule>, c: Cidr): set<Port> {
    set r, p | r in rules && r.cidr == c && p in PortsOf(r) :: p
  }

  function ExceptsOf(rules: set<Rule>, c: Cidr): set<Cidr> {
    set r, e | r in rules && r.cidr == c && e in r.except :: e
  }

  function AllExcepts(rules: set<Rule>): set<Cidr> {
    set r, e | r in rules && e in r.except :: e
  }

  predicate Excluded(excepts: set<Cidr>, a: Cidr) {
    exists e | e in excepts :: Contains(e, a)
  }

  /** `c` inherits directly from the broader rule CIDR `d`. */
  predicate Link(rules: set<Rule>, d: Cidr, c: Cidr) {
    && d in RuleCidrs(rules) && IsNonHost(d)
    && StrictlyContains(d, c)
    && !Excluded(ExceptsOf(rules, d), NetworkAddress(c))
  }

  /** The ports the compiled entry of `c` carries: its own, and those of every entry it inherits from. */
  function EntryPorts(rules: set<Rule>, c: Cidr): set<Port>
    decreases |c.bits|, 1
  {
    OwnPorts(rules, c) + InheritedPorts(rules, c)
  }

  function InheritedPorts(rules: set<Rule>, c: Cidr): set<Port>
    decreases |c.bits|, 0
  {
    set d, p | d in RuleCidrs(rules) && Link(rules, d, c) && p in EntryPorts(rules, d) :: p
  }

  // ----- inheritance is chains of links

  /** A chain of strictly nested rule CIDRs, every one linked to the next. */
  predicate Chain(rules: set<Rule>, chain: seq<Cidr>) {
    && chain != []
    && forall i | 0 <= i < |chain| - 1 :: Link(rules, chain[i], chain[i + 1])
  }

  ghost predicate Inherits(rules: set<Rule>, p: Port, c: Cidr) {
    exists chain: seq<Cidr> :: Chain(rules, chain) && chain[|chain| - 1] == c && p in OwnPorts(rules, chain[0])
  }

  /** A port is in an entry exactly when a chain leads there from a CIDR that has the port itself. */
  lemma EntryPortsAreChains(rules: set<Rule>, c: Cidr, p: Port)
    ensures p in EntryPorts(rules, c) <==> Inherits(rules, p, c)
  {
    if p in EntryPorts(rules, c) {
      var chain := ChainOf(rules, c, p);
    }
    if Inherits(rules, p, c) {
      var chain :| Chain(rules, chain) && chain[|chain| - 1] == c && p in OwnPorts(rules, chain[0]);
      ChainCarries(rules, chain, p, |chain| - 1);
    }
  }

  lemma {:induction false} ChainOf(rules: set<Rule>, c: Cidr, p: Port) returns (chain: seq<Cidr>)
    requires p in EntryPorts(rules, c)
    ensures Chain(rules, chain) && chain[|chain| - 1] == c && p in OwnPorts(rules, chain[0])
    decreases |c.bits|
  {
    if p in OwnPorts(rules, c) {
      chain := [c];
    } else {
      var d :| d in RuleCidrs(rules) && Link(rules, d, c) && p in EntryPorts(rules, d);
      var shorter := ChainOf(rules, d, p);
      chain := shorter + [c];
    }
  }

  lemma {:induction false} ChainCarries(rules: set<Rule>, chain: seq<Cidr>, p: Port, i: nat)
    requires Chain(rules, chain) && i < |chain| && p in OwnPorts(rules, chain[0])
    ensures p in EntryPorts(rules, chain[i])
  {
    if i > 0 {
      ChainCarries(rules, chain, p, i - 1);
      assert Link(rules, chain[i - 1], chain[i - 1 + 1]);
    }
  }

  // ----- what each further rule of the sorted list changes

  /** A rule no shorter than `c`, and for another CIDR, leaves the entry of `c` alone. */
  lemma {:induction false} EntryPortsStable(rules: set<Rule>, r: Rule, c: Cidr)
    requires |c.bits| <= |r.cidr.bits| && c != r.cidr
    ensures EntryPorts(rules + {r}, c) == EntryPorts(rules, c)
    ensures ExceptsOf(rules + {r}, c) == ExceptsOf(rules, c)
    decreases |c.bits|
  {
    var more := rules + {r};
    assert OwnPorts(more, c) == OwnPorts(rules, c);
    LinksStable(rules, r, c);
    forall d | Link(rules, d, c)
      ensures EntryPorts(more, d) == EntryPorts(rules, d)
    {
      EntryPortsStable(rules, r, d);
    }
  }

  lemma LinksStable(rules: set<Rule>, r: Rule, c: Cidr)
    requires |c.bits| <= |r.cidr.bits|
    ensures forall d :: Link(rules + {r}, d, c) <==> Link(rules, d, c)
  {
    forall d: Cidr | |d.bits| < |c.bits|
      ensures ExceptsOf(rules + {r}, d) == ExceptsOf(rules, d)
      ensures d in RuleCidrs(rules + {r}) <==> d in RuleCidrs(rules)
    {
    }
  }

  /** The entry of the added rule's own CIDR gains the rule's ports and, if new, what it inherits. */
  lemma EntryPortsExtended(rules: set<Rule>, r: Rule)
    ensures EntryPorts(rules + {r}, r.cidr)
         == EntryPorts(rules, r.cidr) + Elements(PortsOf(r))
    ensures ExceptsOf(rules + {r}, r.cidr) == ExceptsOf(rules, r.cidr) + Elements(r.except)
  {
    var more := rules + {r};
    assert OwnPorts(more, r.cidr) == OwnPorts(rules, r.cidr) + Elements(PortsOf(r));
    LinksStable(rules, r, r.cidr);
    forall d | Link(rules, d, r.cidr)
      ensures EntryPorts(more, d) == EntryPorts(rules, d)
    {
      EntryPortsStable(rules, r, d);
    }
  }
}
