/** The binary trie that answers "which rule CIDRs contain this address?". */
module CidrTries {
  import opened Cidrs
  import opened Basics

  class Node {
    var children: map<bool, Node>  // at most two, by the next bit
    var key: Option<Cidr>
    ghost const path: RawCidr  // the bits that lead here

    constructor (ghost path: RawCidr)
      ensures children == map[] && key == None && this.path == path
    {
      children, key := map[], None;
      this.path := path;
    }
  }

  /** One sub-trie per family, so prefixes of different families never meet. */
  class CidrTrie {
    var v4Root: Node
    var v6Root: Node
    // Every node of the two sub-tries, by family and by the bits that lead to it.
    ghost var nodes: map<RawCidr, Node>
    // What has been inserted.
    ghost var keys: set<Cidr>
    ghost var repr: set<Node>

    ghost predicate Valid()
      reads this, repr
    {
      && RawCidr.Cidr(V4, []) in nodes && nodes[RawCidr.Cidr(V4, [])] == v4Root
      && RawCidr.Cidr(V6, []) in nodes && nodes[RawCidr.Cidr(V6, [])] == v6Root
      && (forall p {:trigger Linked(p)} | p in nodes :: Linked(p))
      && (forall p {:trigger Parent(p)} | p in nodes && p.bits != [] :: Parent(p) in nodes)
      && (forall c | c in keys :: c in nodes)
    }

    static ghost function Parent(p: RawCidr): RawCidr
      requires p.bits != []
    {
      RawCidr.Cidr(p.family, p.bits[..|p.bits| - 1])
    }

    static lemma ParentOfExtend(p: RawCidr, bit: bool)
      ensures Parent(Extend(p, bit)) == p
    {
      assert Extend(p, bit).bits[..|p.bits|] == p.bits;
    }

    // Every prefix of a node's path is a node.
    lemma PathClosed(p: RawCidr, len: nat)
      requires Valid() && p in nodes && len <= |p.bits|
      ensures RawCidr.Cidr(p.family, p.bits[..len]) in nodes
      decreases |p.bits|
    {
      if len == |p.bits| {
        assert p.bits[..len] == p.bits;
      } else {
        PathClosed(Parent(p), len);
        assert Parent(p).bits[..len] == p.bits[..len];
      }
    }

    // The node at `p` points to its children, and carries `p` exactly when `p` was inserted.
    ghost predicate Linked(p: RawCidr)
      requires p in nodes
      reads this, repr
    {
      && nodes[p] in repr
      && nodes[p].path == p
      && (forall bit {:trigger Extend(p, bit)} :: bit in nodes[p].children <==> Extend(p, bit) in nodes)
      && (forall bit | bit in nodes[p].children :: nodes[p].children[bit] == nodes[Extend(p, bit)])
      && nodes[p].key == (if p in keys then Some(p) else None)
    }

    lemma NodeAt(p: RawCidr, bit: bool)
      requires Valid() && p in nodes
      ensures nodes[p] in repr && nodes[p].key == (if p in keys then Some(p) else None)
      ensures bit in nodes[p].children <==> Extend(p, bit) in nodes
      ensures bit in nodes[p].children ==> nodes[p].children[bit] == nodes[Extend(p, bit)]
    {
      assert Linked(p);
    }

    static ghost function Extend(p: RawCidr, bit: bool): RawCidr {
      RawCidr.Cidr(p.family, p.bits + [bit])
    }

    constructor ()
      ensures Valid() && fresh(repr) && keys == {}
    {
      v4Root := new Node(RawCidr.Cidr(V4, []));
      v6Root := new Node(RawCidr.Cidr(V6, []));
      keys := {};
      nodes := map[RawCidr.Cidr(V4, []) := v4Root, RawCidr.Cidr(V6, []) := v6Root];
      repr := {v4Root, v6Root};
    }

    // A key of more than `len` bits that contains `a` hangs below the next bit of `a`.
    lemma DeeperKeysNeedAChild(a: Address, len: nat)
      requires Valid() && len < |a.bits|
      ensures (exists c: Cidr :: c in keys && Contains(c, a) && |c.bits| > len)
              ==> Extend(Truncate(a, len), a.bits[len]) in nodes
    {
      forall c: Cidr | c in keys && Contains(c, a) && |c.bits| > len
        ensures Extend(Truncate(a, len), a.bits[len]) in nodes
      {
        PathClosed(c, len + 1);
        assert c.bits[..len + 1] == a.bits[..len + 1] == a.bits[..len] + [a.bits[len]];
      }
    }

    method RootFor(family: Family) returns (root: Node)
      requires Valid()
      ensures RawCidr.Cidr(family, []) in nodes && root == nodes[RawCidr.Cidr(family, [])]
    {
      root := if family.V6? then v6Root else v4Root;
    }

    // Follows one bit down, creating the child when it is missing.
    method Descend(node: Node, bit: bool, ghost p: RawCidr) returns (child: Node)
      requires Valid() && p in nodes && nodes[p] == node
      modifies this`nodes, this`repr, node
      ensures Valid() && nodes.Keys == old(nodes.Keys) + {Extend(p, bit)}
      ensures child == nodes[Extend(p, bit)]
      ensures fresh(repr - old(repr))
    {
      assert Linked(p);
      if bit !in node.children {
        var next := new Node(Extend(p, bit));
        node.children := node.children[bit := next];
        nodes := nodes[Extend(p, bit) := next];
        repr := repr + {next};
        ParentOfExtend(p, bit);
        forall q | q in nodes
          ensures Linked(q)
        {
          ParentOfExtend(q, true);
          ParentOfExtend(q, false);
          if q != Extend(p, bit) {
            assert old(Linked(q));
          }
        }
        assert Parent(Extend(p, bit)) == p;
      }
      child := node.children[bit];
    }

    method Insert(c: Cidr)
      requires Valid()
      modifies this, repr
      ensures Valid() && keys == old(keys) + {c}
      ensures fresh(repr - old(repr))
    {
      var node := RootFor(c.family);
      var i := 0;
      while i < |c.bits|
        invariant 0 <= i <= |c.bits|
        invariant Valid() && keys == old(keys)
        invariant RawCidr.Cidr(c.family, c.bits[..i]) in nodes
        invariant node == nodes[RawCidr.Cidr(c.family, c.bits[..i])]
        invariant fresh(repr - old(repr))
      {
        ghost var p := RawCidr.Cidr(c.family, c.bits[..i]);
        assert Linked(p);
        node := Descend(node, c.bits[i], p);
        assert Extend(p, c.bits[i]) == RawCidr.Cidr(c.family, c.bits[..i + 1]);
        i := i + 1;
      }
      assert c.bits[..i] == c.bits;
      assert Linked(c);
      label reached:
      node.key := Some(c);
      keys := keys + {c};
      forall q | q in nodes
        ensures Linked(q)
      {
        assert old@reached(Linked(q));
      }
    }

    /** The inserted CIDRs containing `a`: all of them, once each, shortest prefix first. */
    method FindContainingKeys(a: Address) returns (found: seq<Cidr>)
      requires Valid()
      ensures forall c: Cidr :: c in found <==> c in keys && Contains(c, a)
      ensures forall i, j | 0 <= i < j < |found| :: |found[i].bits| < |found[j].bits|
    {
      found := [];
      var node := RootFor(a.family);
      ghost var p := RawCidr.Cidr(a.family, []);
      NodeAt(p, true);
      assert forall c: Cidr | |c.bits| == 0 && Contains(c, a) :: c == p;
      if node.key.Some? {
        found := found + [node.key.value];
      }
      assert FoundUpTo(keys, found, a, 0);
      var i := 0;
      while i < |a.bits|
        invariant 0 <= i <= |a.bits|
        invariant p == RawCidr.Cidr(a.family, a.bits[..i]) && p in nodes && nodes[p] == node
        invariant FoundUpTo(keys, found, a, i)
      {
        NodeAt(p, a.bits[i]);
        if a.bits[i] !in node.children {
          DeeperKeysNeedAChild(a, i);
          return;
        }
        node := node.children[a.bits[i]];
        p := RawCidr.Cidr(a.family, a.bits[..i + 1]);
        assert p == Extend(RawCidr.Cidr(a.family, a.bits[..i]), a.bits[i]);
        NodeAt(p, true);
        FoundOneDeeper(keys, found, a, i, p);
        i := i + 1;
        if node.key.Some? {
          found := found + [node.key.value];
        }
      }
    }
  }

  /** The keys around `a` of at most `len` bits have been found, in order. */
  ghost predicate FoundUpTo(keys: set<Cidr>, found: seq<Cidr>, a: Address, len: nat) {
    && (forall c: Cidr :: c in found <==> c in keys && Contains(c, a) && |c.bits| <= len)
    && (forall i, j | 0 <= i < j < |found| :: |found[i].bits| < |found[j].bits|)
  }

  lemma FoundOneDeeper(keys: set<Cidr>, found: seq<Cidr>, a: Address, len: nat, p: Cidr)
    requires FoundUpTo(keys, found, a, len) && len < |a.bits| && p == RawCidr.Cidr(a.family, a.bits[..len + 1])
    ensures FoundUpTo(keys, if p in keys then found + [p] else found, a, len + 1)
  {
    forall c: Cidr | |c.bits| == len + 1 && Contains(c, a)
      ensures c == p
    {
      assert c.bits == a.bits[..len + 1];
    }
    assert forall i | 0 <= i < |found| :: found[i] in found;
  }
}
