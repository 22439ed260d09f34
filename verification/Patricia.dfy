/** The Patricia trie of the probing engine (Yarrp/patricia.cpp, Yarrp/patricia.h): nodes
    with parent links, relinked in place. Each node carries the bit string it stands for. */
module Patricia {
  import opened Wrappers
  import opened Bits

  const PATRICIA_MAXBITS: nat := 128

  /** prefix_t: an address and a mask length. Bits of the address beyond the mask may be set. */
  datatype Prefix = Prefix(addr: seq<bv8>, bitlen: nat) {
    /** The lengths patricia.cpp asserts, and an address as long as the trie reads it. */
    predicate Fits(maxbits: nat) {
      bitlen <= maxbits <= 8 * |addr|
    }

    /** The bits the prefix stands for. */
    function Key(): (r: seq<bool>)
      requires bitlen <= 8 * |addr|
      ensures |r| == bitlen
    {
      BitsOf(addr)[..bitlen]
    }
  }

  /** b continues a, first with the given bit. */
  predicate Under(a: seq<bool>, side: bool, b: seq<bool>) {
    a < b && b[|a|] == side
  }

  predicate Longer(a: seq<bool>, b: seq<bool>) {
    a < b
  }

  predicate Prefixes(a: seq<bool>, b: seq<bool>) {
    a <= b
  }

  predicate Same(a: seq<bool>, b: seq<bool>) {
    a == b
  }

  /** An ancestor at least as long as the shared part shares the same. */
  lemma ClimbKeeps(q: seq<bool>, low: seq<bool>, high: seq<bool>, d: nat)
    requires d == Lcp(q, low) <= |high| && high <= low
    ensures Lcp(q, high) == d
    ensures d == |q| == |high| ==> high == q
  {
    LcpMonotone(q, high, low);
    assert q[..d] == high[..d] by {
      assert low[..d] == high[..d];
    }
    LcpAtLeast(q, high, d);
  }

  class Node {
    const bit: nat
    var prefix: Option<Prefix>
    var l: Node?
    var r: Node?
    var parent: Node?
    var data: Option<int>
    var user1: Option<int>
    ghost const key: seq<bool>

    constructor (bit: nat, prefix: Option<Prefix>, ghost key: seq<bool>)
      ensures this.bit == bit && this.prefix == prefix && this.key == key
      ensures l == r == parent == null
      ensures data == user1 == None
    {
      this.bit, this.prefix, this.key := bit, prefix, key;
      l, r, parent := null, null, null;
      data, user1 := None, None;
    }

    function Child(side: bool): Node?
      reads this`l, this`r
    {
      if side then r else l
    }
  }

  class Tree {
    const maxbits: nat
    var head: Node?
    var numActiveNode: int
    ghost var nodes: set<Node>

    /** One node a key. */
    ghost predicate Keys()
      reads this`nodes
    {
      && (forall n {:trigger n.bit} | n in nodes :: |n.key| == n.bit <= maxbits)
      && (forall a, b {:trigger Same(a.key, b.key)} | a in nodes && b in nodes && Same(a.key, b.key) :: a == b)
    }

    /** Children continue their parent's key on their own side. */
    ghost predicate Down()
      reads this`nodes, nodes`l, nodes`r, nodes`parent
    {
      forall n, side {:trigger n.Child(side)} | n in nodes && n.Child(side) != null ::
        && n.Child(side) in nodes
        && n.Child(side).parent == n
        && Under(n.key, side, n.Child(side).key)
    }

    ghost predicate Up()
      reads this`head, this`nodes, nodes`l, nodes`r, nodes`parent
    {
      forall n {:trigger n.parent} | n in nodes ::
        if n.parent == null then n == head
        else n.parent in nodes && (n.parent.Child(false) == n || n.parent.Child(true) == n)
    }

    ghost predicate Top()
      reads this`head, this`nodes, nodes`parent
    {
      if head == null then nodes == {}
      else
        && head in nodes && head.parent == null
        && (forall n {:trigger Prefixes(head.key, n.key)} | n in nodes :: Prefixes(head.key, n.key))
    }

    /** From every node, a longer key is reached through the child on its side. */
    ghost predicate Route()
      reads this`nodes, nodes`l, nodes`r
    {
      forall a, b {:trigger Longer(a.key, b.key)} | a in nodes && b in nodes && Longer(a.key, b.key) ::
        && a.Child(b.key[|a.key|]) != null
        && a.Child(b.key[|a.key|]).key <= b.key
    }

    ghost predicate Shape()
      reads this`head, this`nodes, nodes`l, nodes`r, nodes`parent
    {
      Keys() && Down() && Up() && Top() && Route()
    }

    /** A node with a prefix has that prefix's bits as its key; a node without one is glue
        and has both children and no data. */
    ghost predicate Marked()
      reads this`nodes, nodes`l, nodes`r, nodes`prefix, nodes`data
    {
      forall n {:trigger n.prefix} | n in nodes ::
        if n.prefix.Some?
        then n.prefix.value.Fits(maxbits) && n.prefix.value.Key() == n.key
        else n.l != null && n.r != null && n.data == None
    }

    ghost predicate Valid()
      reads this, nodes
    {
      Shape() && Marked() && numActiveNode == |nodes|
    }

    /** The keys of the stored prefixes. */
    ghost function Stored(): set<seq<bool>>
      reads this`nodes, nodes`prefix
    {
      set n | n in nodes && n.prefix.Some? :: n.key
    }

    /** New_Patricia */
    constructor (maxbits: nat)
      requires maxbits <= PATRICIA_MAXBITS
      ensures Valid() && Stored() == {} && nodes == {} && this.maxbits == maxbits
    {
      this.maxbits := maxbits;
      head := null;
      numActiveNode := 0;
      nodes := {};
    }

    // ---------------------------------------------------------------- relinking

    /** No node but at most the given one lost a child. */
    twostate predicate KeepsChildren(new but: Node?)
      reads this`nodes, nodes`l, nodes`r
    {
      && (forall n {:trigger n.l} {:trigger n.Child(false)} |
            n in old(nodes) && n in nodes && n != but && old(n.l) != null :: n.l != null)
      && (forall n {:trigger n.r} {:trigger n.Child(true)} |
            n in old(nodes) && n in nodes && n != but && old(n.r) != null :: n.r != null)
    }

    /** Put another node, or nothing, where a node hangs in its parent (or at the head). */
    method Relink(node: Node, other: Node?)
      requires node in nodes && Down() && Up() && Top()
      modifies this`head, nodes`l, nodes`r
      ensures head == if old(head) == node then other else old(head)
      ensures forall n, s {:trigger n.Child(s)} | n in nodes ::
        n.Child(s) == if old(n.Child(s)) == node then other else old(n.Child(s))
      ensures other != null ==> KeepsChildren(null)
      ensures KeepsChildren(old(node.parent))
    {
      var parent := node.parent;
      if parent == null {
        assert head == node;
        head := other;
      } else if parent.r == node {
        assert parent.Child(true) == node;
        parent.r := other;
      } else {
        assert parent.l == node && parent.Child(false) == node;
        parent.l := other;
      }
    }

    /** No key continues q, and q continues only the keys on the way to a node. */
    ghost predicate Alone(q: seq<bool>, node: Node)
      reads this`nodes
    {
      && (forall m {:trigger Prefixes(q, m.key)} | m in nodes :: !Prefixes(q, m.key))
      && (forall m {:trigger Longer(m.key, q)} | m in nodes && Longer(m.key, q) :: m.key <= node.key)
    }

    /** Hang a new leaf in a free place. */
    method AttachLeaf(node: Node, x: Node, side: bool)
      requires Shape() && node in nodes && x !in nodes
      requires |x.key| == x.bit <= maxbits && x.l == x.r == null && x.parent == node
      requires Under(node.key, side, x.key)
      requires node.Child(side) == null
      requires Alone(x.key, node)
      modifies this`nodes, node`l, node`r
      ensures Shape() && nodes == old(nodes) + {x}
      ensures node.Child(side) == x
      ensures forall n, s {:trigger n.Child(s)} | n in old(nodes) && (n != node || s != side) ::
        n.Child(s) == old(n.Child(s))
      ensures KeepsChildren(null)
    {
      if side {
        node.r := x;
      } else {
        node.l := x;
      }
      nodes := nodes + {x};
      AttachShape(node, x, side);
    }

    twostate lemma AttachShape(new node: Node, new x: Node, side: bool)
      requires old(Shape()) && node in old(nodes) && x !in old(nodes) && nodes == old(nodes) + {x}
      requires |x.key| == x.bit <= maxbits && x.l == x.r == null && x.parent == node
      requires Under(node.key, side, x.key)
      requires old(node.Child(side)) == null && node.Child(side) == x
      requires forall n, s | n in old(nodes) && (n != node || s != side) ::
        n.Child(s) == old(n.Child(s))
      requires forall n {:trigger n.parent} | n in old(nodes) :: n.parent == old(n.parent)
      requires head == old(head)
      requires forall m {:trigger Prefixes(x.key, m.key)} | m in old(nodes) :: !Prefixes(x.key, m.key)
      requires forall m {:trigger Longer(m.key, x.key)} | m in old(nodes) && Longer(m.key, x.key) :: m.key <= node.key
      ensures Shape()
    {
      assert Prefixes(head.key, node.key);
      forall m <- old(nodes) ensures !Same(m.key, x.key) && !Same(x.key, m.key) {
        assert !Prefixes(x.key, m.key);
      }
      AttachRoute(node, x, side);
    }

    twostate lemma AttachRoute(new node: Node, new x: Node, side: bool)
      requires old(Keys()) && old(Route()) && node in old(nodes) && nodes == old(nodes) + {x}
      requires node.Child(side) == x
      requires forall n, s | n in old(nodes) && (n != node || s != side) ::
        n.Child(s) == old(n.Child(s))
      requires old(node.Child(side)) == null
      requires Under(node.key, side, x.key)
      requires forall m {:trigger Prefixes(x.key, m.key)} | m in old(nodes) :: !Prefixes(x.key, m.key)
      requires forall m {:trigger Longer(m.key, x.key)} | m in old(nodes) && Longer(m.key, x.key) :: m.key <= node.key
      ensures Route()
    {
      forall a, b | a in nodes && b in nodes && Longer(a.key, b.key)
        ensures a.Child(b.key[|a.key|]) != null && a.Child(b.key[|a.key|]).key <= b.key
      {
        if a == x {
          assert Prefixes(x.key, b.key);
        } else if b == x && a != node {
          assert a.key <= node.key;
          assert Longer(a.key, node.key) || Same(a.key, node.key);
        }
      }
    }

    /** Put a new node between a node and its parent. */
    method InsertAbove(x: Node, node: Node, side: bool)
      requires Shape() && node in nodes && x !in nodes
      requires |x.key| == x.bit <= maxbits && x.l == x.r == null
      requires Under(x.key, side, node.key)
      requires forall m {:trigger Same(m.key, x.key)} | m in nodes :: !Same(m.key, x.key)
      requires node.parent != null ==> node.parent.bit < x.bit
      modifies this`head, this`nodes, nodes`l, nodes`r, node`parent, x`l, x`r, x`parent
      ensures Shape() && nodes == old(nodes) + {x}
      ensures x.Child(side) == node && x.Child(!side) == null
      ensures KeepsChildren(null)
    {
      if side {
        x.r := node;
      } else {
        x.l := node;
      }
      x.parent := node.parent;
      Relink(node, x);
      node.parent := x;
      nodes := nodes + {x};
      InsertShape(x, node, side);
    }

    twostate lemma InsertShape(new x: Node, new node: Node, side: bool)
      requires old(Shape()) && node in old(nodes) && x !in old(nodes) && nodes == old(nodes) + {x}
      requires |x.key| == x.bit <= maxbits && Under(x.key, side, node.key)
      requires forall m {:trigger Same(m.key, x.key)} | m in old(nodes) :: !Same(m.key, x.key)
      requires old(node.parent) != null ==> old(node.parent).bit < x.bit
      requires x.Child(side) == node && x.Child(!side) == null
      requires forall n, s {:trigger n.Child(s)} | n in old(nodes) ::
        n.Child(s) == if old(n.Child(s)) == node then x else old(n.Child(s))
      requires x.parent == old(node.parent) && node.parent == x
      requires forall n {:trigger n.parent} | n in old(nodes) && n != node :: n.parent == old(n.parent)
      requires head == if old(head) == node then x else old(head)
      ensures Shape()
    {
      if old(head) != node {
        HeadAbove(node, x.key);
      }
      forall m <- old(nodes) ensures old(head) == node ==> Prefixes(x.key, m.key) {
        assert old(head) == node ==> Prefixes(node.key, m.key);
      }
      InsertRoute(x, node, side);
    }

    /** With k between a node and its parent, everything longer than k lies at or below the node ... */
    twostate lemma NearestBelow(new node: Node, k: seq<bool>, new b: Node)
      requires old(Shape()) && node in old(nodes) && b in old(nodes)
      requires Longer(k, node.key) && Longer(k, b.key)
      requires old(node.parent) != null ==> old(node.parent).bit < |k|
      ensures node.key <= b.key
    {
      var p := old(node.parent);
      if p != null {
        assert old(p.Child(false)) == node || old(p.Child(true)) == node;
        assert Longer(p.key, b.key);
      } else {
        assert Prefixes(node.key, b.key);
      }
    }

    twostate lemma HeadFirst(new m: Node)
      requires old(Top()) && m in old(nodes)
      ensures old(head) != null && old(head).key <= m.key
    {
      assert Prefixes(old(head).key, m.key);
    }

    twostate lemma HeadAbove(new node: Node, k: seq<bool>)
      requires old(Shape()) && node in old(nodes) && node != old(head)
      requires Longer(k, node.key) && old(node.parent) != null && old(node.parent).bit < |k|
      ensures old(head) != null && Prefixes(old(head).key, k)
    {
      assert Prefixes(old(head).key, node.key);
      assert Prefixes(old(head).key, old(node.parent).key);
      assert old(head).bit <= old(node.parent).bit;
    }

    /** ... and the way down from anything shorter leads to the node or to something no longer than k. */
    twostate lemma NearestAbove(new node: Node, k: seq<bool>, new a: Node)
      requires old(Shape()) && node in old(nodes) && a in old(nodes)
      requires Longer(k, node.key) && Longer(a.key, k)
      requires old(node.parent) != null ==> old(node.parent).bit < |k|
      ensures old(a.Child(k[|a.key|])) != null
      ensures old(a.Child(k[|a.key|])) == node || old(a.Child(k[|a.key|])).key <= k
    {
      assert Longer(a.key, node.key);
      var c := old(a.Child(k[|a.key|]));
      var p := old(node.parent);
      if c != node && |c.key| > |k| {
        assert Longer(c.key, node.key) || Same(c.key, node.key);
        if p != null {
          assert old(p.Child(false)) == node || old(p.Child(true)) == node;
          assert Longer(p.key, c.key);
        }
        HeadFirst(c);
        assert false;
      }
    }

    twostate lemma InsertRoute(new x: Node, new node: Node, side: bool)
      requires old(Shape()) && node in old(nodes) && x !in old(nodes) && nodes == old(nodes) + {x}
      requires |x.key| == x.bit && Under(x.key, side, node.key)
      requires old(node.parent) != null ==> old(node.parent).bit < x.bit
      requires x.Child(side) == node && x.Child(!side) == null
      requires forall n, s {:trigger n.Child(s)} | n in old(nodes) ::
        n.Child(s) == if old(n.Child(s)) == node then x else old(n.Child(s))
      ensures Route()
    {
      forall a, b | a in nodes && b in nodes && Longer(a.key, b.key)
        ensures a.Child(b.key[|a.key|]) != null && a.Child(b.key[|a.key|]).key <= b.key
      {
        if a == x {
          NearestBelow(node, x.key, b);
        } else if b == x {
          assert Longer(a.key, node.key);
          NearestAbove(node, x.key, a);
        }
      }
    }

    /** Take a leaf out. */
    method RemoveLeaf(node: Node)
      requires Shape() && node in nodes && node.l == node.r == null
      modifies this`head, this`nodes, this`numActiveNode, nodes`l, nodes`r
      ensures Shape() && nodes == old(nodes) - {node}
      ensures numActiveNode == old(numActiveNode) - 1
      ensures head == if old(head) == node then null else old(head)
      ensures forall n, s {:trigger n.Child(s)} | n in old(nodes) ::
        n.Child(s) == if old(n.Child(s)) == node then null else old(n.Child(s))
      ensures KeepsChildren(old(node.parent))
    {
      assert node.Child(false) == null && node.Child(true) == null;
      Relink(node, null);
      nodes := nodes - {node};
      numActiveNode := numActiveNode - 1;
      RemoveShape(node);
    }

    twostate lemma RemoveShape(new node: Node)
      requires old(Shape()) && node in old(nodes) && nodes == old(nodes) - {node}
      requires old(node.Child(false)) == null && old(node.Child(true)) == null
      requires forall n, s {:trigger n.Child(s)} | n in old(nodes) ::
        n.Child(s) == if old(n.Child(s)) == node then null else old(n.Child(s))
      requires forall n {:trigger n.parent} | n in old(nodes) :: n.parent == old(n.parent)
      requires head == if old(head) == node then null else old(head)
      ensures Shape()
    {
      RemoveRoute(node);
      if old(head) == node {
        forall b <- old(nodes) ensures b == node {
          assert Prefixes(node.key, b.key);
          OnlyLonger(node, b);
        }
      }
    }

    /** What starts with a node's key lies at the node or in the child on its side. */
    twostate lemma OnlyLonger(new node: Node, new b: Node)
      requires old(Keys()) && old(Route()) && node in old(nodes) && b in old(nodes)
      requires node.key <= b.key
      ensures b == node || (
          |node.key| < |b.key|
          && old(node.Child(b.key[|node.key|])) != null
          && old(node.Child(b.key[|node.key|])).key <= b.key)
    {
      if b != node {
        assert Longer(node.key, b.key) || Same(node.key, b.key);
      }
    }

    twostate lemma RemoveRoute(new node: Node)
      requires old(Keys()) && old(Route()) && node in old(nodes) && nodes == old(nodes) - {node}
      requires old(node.Child(false)) == null && old(node.Child(true)) == null
      requires forall n, s {:trigger n.Child(s)} | n in old(nodes) ::
        n.Child(s) == if old(n.Child(s)) == node then null else old(n.Child(s))
      ensures Route()
    {
      forall a, b | a in nodes && b in nodes && Longer(a.key, b.key)
        ensures a.Child(b.key[|a.key|]) != null && a.Child(b.key[|a.key|]).key <= b.key
      {
        if old(a.Child(b.key[|a.key|])) == node {
          OnlyLonger(node, b);
        }
      }
    }

    /** Take out a node with a single child, which moves up into its place. */
    method Bypass(node: Node, child: Node, side: bool)
      requires Shape() && node in nodes
      requires node.Child(side) == child && node.Child(!side) == null
      modifies this`head, this`nodes, this`numActiveNode, nodes`l, nodes`r, nodes`parent
      ensures Shape() && nodes == old(nodes) - {node} && child in nodes
      ensures numActiveNode == old(numActiveNode) - 1
      ensures forall n, s {:trigger n.Child(s)} | n in old(nodes) ::
        n.Child(s) == if old(n.Child(s)) == node then child else old(n.Child(s))
      ensures KeepsChildren(null)
    {
      assert child in nodes && child != node;
      Relink(node, child);
      child.parent := node.parent;
      nodes := nodes - {node};
      numActiveNode := numActiveNode - 1;
      BypassShape(node, child, side);
    }

    twostate lemma BypassShape(new node: Node, new child: Node, side: bool)
      requires old(Shape()) && node in old(nodes) && nodes == old(nodes) - {node}
      requires child in old(nodes) && child != node
      requires old(node.Child(side)) == child && old(node.Child(!side)) == null
      requires forall n, s {:trigger n.Child(s)} | n in old(nodes) ::
        n.Child(s) == if old(n.Child(s)) == node then child else old(n.Child(s))
      requires forall n {:trigger n.parent} | n in old(nodes) ::
        n.parent == if n == child then old(node.parent) else old(n.parent)
      requires head == if old(head) == node then child else old(head)
      ensures Shape()
    {
      BypassRoute(node, child, side);
      if old(head) == node {
        forall b {:trigger Prefixes(child.key, b.key)} | b in nodes ensures Prefixes(child.key, b.key) {
          assert Prefixes(node.key, b.key);
          OnlyLonger(node, b);
        }
      }
    }

    twostate lemma BypassRoute(new node: Node, new child: Node, side: bool)
      requires old(Keys()) && old(Route()) && node in old(nodes) && nodes == old(nodes) - {node}
      requires old(node.Child(side)) == child && old(node.Child(!side)) == null
      requires forall n, s {:trigger n.Child(s)} | n in old(nodes) ::
        n.Child(s) == if old(n.Child(s)) == node then child else old(n.Child(s))
      ensures Route()
    {
      forall a, b | a in nodes && b in nodes && Longer(a.key, b.key)
        ensures a.Child(b.key[|a.key|]) != null && a.Child(b.key[|a.key|]).key <= b.key
      {
        if old(a.Child(b.key[|a.key|])) == node {
          OnlyLonger(node, b);
        }
      }
    }

    // ---------------------------------------------------------------- patricia_lookup

    /** No node shares more of q than d bits. */
    ghost predicate Capped(q: seq<bool>, d: nat)
      reads this`nodes
    {
      forall m {:trigger Lcp(q, m.key)} | m in nodes :: Lcp(q, m.key) <= d
    }

    /** Whatever is not at or below a node shares no more with an address than the node does. */
    ghost predicate Closest(address: seq<bool>, node: Node)
      reads this`nodes
    {
      forall m <- nodes :: node.key <= m.key || Lcp(address, m.key) <= Lcp(address, node.key)
    }

    lemma Closer(address: seq<bool>, node: Node, side: bool)
      requires Keys() && Down() && Route() && node in nodes && maxbits <= |address|
      requires node.Child(side) != null
      requires node.bit < maxbits ==> side == address[node.bit]
      requires Closest(address, node)
      ensures Closest(address, node.Child(side))
    {
      var c := node.Child(side);
      forall m <- nodes ensures c.key <= m.key || Lcp(address, m.key) <= Lcp(address, c.key) {
        LcpMonotone(address, node.key, c.key);
        if node.key <= m.key && m != node {
          assert Longer(node.key, m.key) || Same(node.key, m.key);
          assert |m.key| == m.bit && |node.key| == node.bit;
          if m.key[node.bit] != side {
            LcpOffSide(address, node.key, m.key);
          }
        }
      }
    }

    lemma Arrived(address: seq<bool>, node: Node, side: bool, bitlen: nat)
      requires Keys() && Down() && Route() && node in nodes && bitlen <= maxbits <= |address|
      requires node.bit < maxbits ==> side == address[node.bit]
      requires bitlen <= node.bit || node.Child(side) == null
      requires Closest(address, node)
      ensures Capped(address[..bitlen], Lcp(address[..bitlen], node.key))
    {
      var q := address[..bitlen];
      forall m <- nodes ensures Lcp(q, m.key) <= Lcp(q, node.key) {
        LcpOfCut(address, bitlen, m.key);
        LcpOfCut(address, bitlen, node.key);
        if node.key <= m.key && m != node {
          assert Longer(node.key, m.key) || Same(node.key, m.key);
          LcpMonotone(q, node.key, m.key);
          if node.bit < bitlen {
            LcpOffSide(address, node.key, m.key);
          }
        }
      }
    }

    /** The first loop: down to a node with a prefix that shares as much with the given one
        as any node does. */
    method Descend(prefix: Prefix) returns (node: Node)
      requires Shape() && Marked() && head != null && prefix.Fits(maxbits)
      ensures node in nodes && node.prefix.Some?
      ensures Capped(prefix.Key(), Lcp(prefix.Key(), node.key))
    {
      var addr, bitlen := prefix.addr, prefix.bitlen;
      ghost var address := BitsOf(addr);
      node := head;
      forall m <- nodes ensures node.key <= m.key {
        assert Prefixes(node.key, m.key);
      }
      var side := node.bit < maxbits && Bit(addr, node.bit);
      while node.bit < bitlen || node.prefix.None?
        invariant node in nodes && node.bit <= maxbits
        invariant side == (node.bit < maxbits && Bit(addr, node.bit))
        invariant Closest(address, node)
        decreases maxbits - node.bit
      {
        if side {
          if node.r == null {
            break;
          }
          Closer(address, node, side);
          node := node.r;
        } else {
          if node.l == null {
            break;
          }
          Closer(address, node, side);
          node := node.l;
        }
        side := node.bit < maxbits && Bit(addr, node.bit);
      }
      Arrived(address, node, side, bitlen);
    }

    /** The second loop: up to the highest node that still has the shared bits. */
    method Climb(start: Node, differ: nat) returns (node: Node)
      requires Shape() && start in nodes && differ <= start.bit
      ensures node in nodes && node.key <= start.key && differ <= node.bit
      ensures node.parent == null || node.parent.bit < differ
    {
      node := start;
      var parent := node.parent;
      while parent != null && parent.bit >= differ
        invariant node in nodes && node.key <= start.key && differ <= node.bit
        invariant parent == node.parent
        decreases node.bit
      {
        assert parent.Child(false) == node || parent.Child(true) == node;
        node := parent;
        parent := node.parent;
      }
    }

    /** The place the two loops find: the highest node that shares d bits with q, where no
        node shares more. */
    ghost predicate Place(q: seq<bool>, node: Node, d: nat)
      requires node in nodes
      reads this`nodes, nodes`parent
    {
      && Capped(q, d)
      && Lcp(q, node.key) == d
      && (node.parent == null || node.parent.bit < d)
    }

    /** Nothing lies strictly between a node and its parent. */
    lemma NothingBetween(node: Node, m: Node)
      requires Shape() && node in nodes && m in nodes && Longer(m.key, node.key)
      ensures node.parent != null && m.bit <= node.parent.bit
    {
      assert Prefixes(head.key, m.key);
      var p := node.parent;
      if p != null {
        assert p.Child(false) == node || p.Child(true) == node;
        if m.bit > p.bit {
          assert Longer(p.key, m.key);
          assert false;
        }
      }
    }

    /** The child the new prefix would take is free. */
    lemma FreePlace(q: seq<bool>, node: Node)
      requires Shape() && node in nodes && node.bit < |q| && Place(q, node, node.bit)
      ensures Under(node.key, q[node.bit], q) && node.Child(q[node.bit]) == null
      ensures Alone(q, node)
    {
      var c := node.Child(q[node.bit]);
      if c != null {
        LcpAtLeast(q, c.key, node.bit + 1);
      }
      forall m <- nodes | Longer(m.key, q) ensures m.key <= node.key {
        LcpAtLeast(q, m.key, |m.key|);
      }
      forall m <- nodes ensures !Prefixes(q, m.key) {
        LcpOfExtension(q, m.key);
      }
    }

    method HangLeaf(prefix: Prefix, node: Node, side: bool) returns (x: Node)
      requires Shape() && prefix.Fits(maxbits) && node in nodes
      requires Under(node.key, side, prefix.Key()) && node.Child(side) == null
      requires Alone(prefix.Key(), node)
      modifies this`nodes, this`numActiveNode, node`l, node`r
      ensures Shape() && nodes == old(nodes) + {x} && fresh(x) && KeepsChildren(null)
      ensures numActiveNode == old(numActiveNode) + 1 && node.Child(side) == x
      ensures x.key == prefix.Key() && x.prefix == Some(prefix) && x.data == x.user1 == None
    {
      x := new Node(prefix.bitlen, Some(prefix), prefix.Key());
      numActiveNode := numActiveNode + 1;
      x.parent := node;
      AttachLeaf(node, x, side);
    }

    /** What patricia_lookup leaves: one node of the prefix's key with a prefix, every other
        stored prefix and all attached data as before; what is new but the node is glue. */
    twostate predicate Inserted(prefix: Prefix, new node: Node)
      reads this, nodes
    {
      && Valid()
      && prefix.Fits(maxbits) && node in nodes && node.key == prefix.Key()
      && old(nodes) <= nodes && fresh(nodes - old(nodes))
      && (forall n {:trigger n.user1} {:trigger n.data} | n in old(nodes) ::
            n.user1 == old(n.user1) && n.data == old(n.data))
      && (forall n {:trigger n.prefix} | n in old(nodes) ::
            n.prefix == if n == node && old(n.prefix).None? then Some(prefix) else old(n.prefix))
      && (forall n {:trigger n.user1} {:trigger n.data} {:trigger n.prefix} | n in nodes - old(nodes) ::
            && n.user1 == n.data == None
            && n.prefix == if n == node then Some(prefix) else None)
    }

    twostate lemma StoredAfter(prefix: Prefix, new node: Node)
      requires Inserted(prefix, node)
      ensures Stored() == old(Stored()) + {prefix.Key()}
    {
      forall k | k in old(Stored()) ensures k in Stored() {
        var n :| n in old(nodes) && old(n.prefix).Some? && n.key == k;
        assert n in nodes && n.prefix.Some?;
      }
      assert node.prefix.Some?;
      forall k | k in Stored() && k != node.key ensures k in old(Stored()) {
        var n :| n in nodes && n.prefix.Some? && n.key == k;
        assert n in old(nodes) && old(n.prefix).Some?;
      }
    }

    /** Nodes that keep what they carry, and lose no child, stay well marked. */
    twostate lemma MarkedAfter(new but: Node?)
      requires old(Marked()) && KeepsChildren(but)
      requires but != null && but in nodes ==> but.prefix.Some?
      requires forall n {:trigger n.prefix} | n in old(nodes) && n in nodes ::
        n.prefix == old(n.prefix) && n.data == old(n.data)
      requires forall n {:trigger n.prefix} | n in nodes - old(nodes) ::
        if n.prefix.Some?
        then n.prefix.value.Fits(maxbits) && n.prefix.value.Key() == n.key
        else n.l != null && n.r != null && n.data == None
      ensures Marked()
    {
    }

    /** new_node #0 */
    method InsertFirst(prefix: Prefix) returns (node: Node)
      requires Valid() && prefix.Fits(maxbits) && head == null
      modifies this
      ensures Inserted(prefix, node)
    {
      node := new Node(prefix.bitlen, Some(prefix), prefix.Key());
      head := node;
      numActiveNode := numActiveNode + 1;
      nodes := {node};
    }

    /** new node #1: a prefix for a glue node. */
    method MarkGlue(prefix: Prefix, node: Node)
      requires Valid() && prefix.Fits(maxbits) && node in nodes && node.key == prefix.Key()
      requires node.prefix.None?
      modifies node`prefix
      ensures Inserted(prefix, node)
    {
      node.prefix := Some(prefix);
      assert node.data == None;
    }

    /** new_node #2: a free child. */
    method InsertChild(prefix: Prefix, node: Node) returns (x: Node)
      requires Valid() && prefix.Fits(maxbits) && node in nodes && node.bit < prefix.bitlen
      requires Place(prefix.Key(), node, node.bit)
      modifies this, nodes
      ensures Inserted(prefix, x)
    {
      FreePlace(prefix.Key(), node);
      var side := node.bit < maxbits && Bit(prefix.addr, node.bit);
      x := HangLeaf(prefix, node, side);
      MarkedAfter(null);
    }

    /** A node put above another one. */
    method AddAbove(node: Node, bit: nat, prefix: Option<Prefix>, side: bool, ghost key: seq<bool>) returns (x: Node)
      requires Shape() && node in nodes && |key| == bit <= maxbits && Under(key, side, node.key)
      requires node.parent == null || node.parent.bit < bit
      modifies this`head, this`nodes, this`numActiveNode, nodes`l, nodes`r, nodes`parent
      ensures Shape() && nodes == old(nodes) + {x} && fresh(x) && KeepsChildren(null)
      ensures numActiveNode == old(numActiveNode) + 1
      ensures x.bit == bit && x.key == key && x.prefix == prefix && x.data == x.user1 == None
      ensures x.Child(side) == node && x.Child(!side) == null
    {
      x := new Node(bit, prefix, key);
      numActiveNode := numActiveNode + 1;
      forall m <- nodes ensures !Same(m.key, x.key) {
        if m.key == x.key { NothingBetween(node, m); }
      }
      InsertAbove(x, node, side);
    }

    /** new_node #3: a parent. */
    method InsertParent(prefix: Prefix, node: Node, test: seq<bv8>) returns (x: Node)
      requires Valid() && prefix.Fits(maxbits) && node in nodes && prefix.bitlen < node.bit
      requires Place(prefix.Key(), node, prefix.bitlen)
      requires node.bit <= 8 * |test| && BitsOf(test)[..node.bit] == node.key
      modifies this, nodes
      ensures Inserted(prefix, x)
    {
      var bitlen := prefix.bitlen;
      var side := bitlen < maxbits && Bit(test, bitlen);
      x := AddAbove(node, bitlen, Some(prefix), side, prefix.Key());
      MarkedAfter(null);
    }

    /** A glue node above a node, and the new leaf on its other side. */
    method GrowGlue(prefix: Prefix, node: Node, differ: nat) returns (x: Node, glue: Node)
      requires Shape() && prefix.Fits(maxbits) && node in nodes
      requires differ < prefix.bitlen && differ < node.bit && Place(prefix.Key(), node, differ)
      modifies this`head, this`nodes, this`numActiveNode, nodes`l, nodes`r, nodes`parent
      ensures Shape() && nodes == old(nodes) + {x, glue} && x != glue && fresh({x, glue}) && KeepsChildren(null)
      ensures numActiveNode == old(numActiveNode) + 2
      ensures x.key == prefix.Key() && x.prefix == Some(prefix) && x.data == x.user1 == None
      ensures glue.prefix == None && glue.data == glue.user1 == None && glue.l != null && glue.r != null
    {
      var side := differ < maxbits && Bit(prefix.addr, differ);
      glue := AddAbove(node, differ, None, !side, prefix.Key()[..differ]);
      GluePlace(prefix.Key(), glue, differ);
      x := HangLeaf(prefix, glue, side);
      assert glue.Child(side) != null && glue.Child(!side) != null;
    }

    /** new_node #4 */
    method InsertGlue(prefix: Prefix, node: Node, differ: nat) returns (x: Node)
      requires Valid() && prefix.Fits(maxbits) && node in nodes
      requires differ < prefix.bitlen && differ < node.bit && Place(prefix.Key(), node, differ)
      modifies this, nodes
      ensures Inserted(prefix, x)
    {
      var glue;
      x, glue := GrowGlue(prefix, node, differ);
      MarkedAfter(null);
    }

    lemma GluePlace(q: seq<bool>, glue: Node, d: nat)
      requires d < |q| && glue in nodes && glue.key == q[..d]
      requires forall m {:trigger Lcp(q, m.key)} | m in nodes && m != glue :: Lcp(q, m.key) <= d
      ensures Alone(q, glue)
    {
      forall m <- nodes ensures !Prefixes(q, m.key) && (Longer(m.key, q) ==> m.key <= glue.key) {
        LcpOfExtension(q, m.key);
        if m.key < q && m != glue {
          LcpAtLeast(q, m.key, |m.key|);
        }
      }
    }

    /** patricia_lookup: find or make the node of a prefix. */
    method Lookup(prefix: Prefix) returns (node: Node)
      requires Valid() && prefix.Fits(maxbits)
      modifies this, nodes
      ensures Inserted(prefix, node)
      ensures Stored() == old(Stored()) + {prefix.Key()}
    {
      if head == null {
        node := InsertFirst(prefix);
      } else {
        node := InsertBelow(prefix);
      }
      StoredAfter(prefix, node);
    }

    method InsertBelow(prefix: Prefix) returns (node: Node)
      requires Valid() && prefix.Fits(maxbits) && head != null
      modifies this, nodes
      ensures Inserted(prefix, node)
    {
      var differ, test;
      node, differ, test := FindPlace(prefix);
      var bitlen := prefix.bitlen;
      if differ == bitlen && node.bit == bitlen {
        if node.prefix.None? {
          MarkGlue(prefix, node);
        }
      } else if node.bit == differ {
        node := InsertChild(prefix, node);
      } else if bitlen == differ {
        node := InsertParent(prefix, node, test);
      } else {
        node := InsertGlue(prefix, node, differ);
      }
    }

    method FindPlace(prefix: Prefix) returns (node: Node, differ: nat, test: seq<bv8>)
      requires Shape() && Marked() && prefix.Fits(maxbits) && head != null
      ensures node in nodes && differ <= prefix.bitlen && differ <= node.bit
      ensures Place(prefix.Key(), node, differ)
      ensures differ == prefix.bitlen == node.bit ==> node.key == prefix.Key()
      ensures node.bit <= 8 * |test| && BitsOf(test)[..node.bit] == node.key
    {
      var found := Descend(prefix);
      test := found.prefix.value.addr;
      differ := Compare(prefix, found);
      node := Climb(found, differ);
      ClimbKeeps(prefix.Key(), found.key, node.key, differ);
      assert BitsOf(test)[..node.bit] == BitsOf(test)[..found.bit][..node.bit];
    }

    /** The first bit in which a prefix and a node's prefix differ. */
    method Compare(prefix: Prefix, found: Node) returns (differ: nat)
      requires prefix.Fits(maxbits) && found.prefix.Some? && found.prefix.value.Fits(maxbits)
      requires found.prefix.value.Key() == found.key && found.bit == |found.key|
      ensures differ == Lcp(prefix.Key(), found.key)
    {
      var test := found.prefix.value.addr;
      var bitlen := prefix.bitlen;
      var checkBit := if found.bit < bitlen then found.bit else bitlen;
      differ := DifferBit(prefix.addr, test, checkBit);
      LcpOfPrefixes(BitsOf(prefix.addr), BitsOf(test), bitlen, found.bit);
    }

    // ---------------------------------------------------------------- searching

    /** Stepping to the side q takes does not leave any prefix of q that is still ahead. */
    lemma StepDown(q: seq<bool>, node: Node, m: Node)
      requires Keys() && Route() && node in nodes && m in nodes
      requires node.key <= m.key <= q && node.bit < |q| && m != node
      ensures node.Child(q[node.bit]) != null && node.Child(q[node.bit]).key <= m.key
    {
      assert Longer(node.key, m.key) || Same(node.key, m.key);
      assert |node.key| == node.bit;
    }

    lemma Deeper(node: Node, side: bool)
      requires Keys() && Down() && node in nodes && node.Child(side) != null
      ensures node.Child(side) in nodes && node.bit < node.Child(side).bit <= maxbits
    {
      assert node.bit == |node.key|;
    }

    lemma Bottom(q: seq<bool>, node: Node, m: Node)
      requires Keys() && node in nodes && m in nodes
      requires node.key <= m.key <= q && |q| <= |node.key|
      ensures m == node
    {
      assert Same(node.key, m.key);
    }

    /** patricia_search_exact */
    method SearchExact(prefix: Prefix) returns (found: Node?)
      requires Valid() && prefix.Fits(maxbits)
      ensures found != null ==> found in nodes && found.prefix.Some? && found.key == prefix.Key()
      ensures found != null <==> prefix.Key() in Stored()
    {
      if head == null {
        return null;
      }
      var node := head;
      var bitlen := prefix.bitlen;
      ghost var q := prefix.Key();
      forall m | m in nodes && m.key == q ensures node.key <= q {
        assert Prefixes(head.key, m.key);
      }
      while node.bit < bitlen
        invariant node in nodes
        invariant forall m {:trigger m in nodes} | m in nodes && m.key == q :: node.key <= q
        decreases maxbits - node.bit
      {
        var side := Bit(prefix.addr, node.bit);
        var next := node.Child(side);
        forall m | m in nodes && m.key == q ensures next != null && next.key <= q {
          StepDown(q, node, m);
        }
        if next == null {
          return null;
        }
        Deeper(node, side);
        node := next;
      }
      assert node.bit == |node.key|;
      forall m | m in nodes && m.key == q ensures m == node {
        assert Same(m.key, node.key);
      }
      if node.bit > bitlen || node.prefix.None? {
        return null;
      }
      assert node.bit == node.prefix.value.bitlen;
      var same := CompWithMask(node.prefix.value.addr, prefix.addr, bitlen);
      if same {
        return node;
      }
      return null;
    }

    /** A stored prefix a search for q may answer with. */
    ghost predicate Candidate(q: seq<bool>, inclusive: bool, m: Node)
      reads this`nodes, m`prefix
    {
      m in nodes && m.prefix.Some? && m.key <= q && (inclusive || |m.key| < |q|)
    }

    /** The stack of a search: stored nodes with strictly growing bits. */
    ghost predicate Stacked(stack: array<Node?>, cnt: nat)
      reads this`nodes, nodes`prefix, stack
    {
      && cnt <= stack.Length
      && (forall i | 0 <= i < cnt ::
            stack[i] != null && stack[i] in nodes && stack[i].prefix.Some? && i <= stack[i].bit)
      && (forall i, j | 0 <= i < j < cnt :: stack[i] != null && stack[j] != null && stack[i].bit < stack[j].bit)
    }

    method Push(stack: array<Node?>, cnt: nat, node: Node) returns (n: nat)
      requires Stacked(stack, cnt) && cnt < stack.Length
      requires node in nodes && node.prefix.Some? && cnt <= node.bit
      requires forall n <- stack[..cnt] :: n != null && n.bit < node.bit
      modifies stack
      ensures n == cnt + 1 && Stacked(stack, n)
      ensures stack[..n] == old(stack[..cnt]) + [node]
    {
      stack[cnt] := node;
      n := cnt + 1;
    }

    /** Every stored prefix of q is on the stack or at or below a node. */
    ghost predicate Ahead(q: seq<bool>, passed: seq<Node?>, node: Node?)
      reads this`nodes, nodes`prefix
    {
      forall m {:trigger m in passed} | m in nodes && Candidate(q, true, m) ::
        m in passed || (node != null && node.key <= m.key)
    }

    lemma AheadAtHead(q: seq<bool>)
      requires Keys() && Top() && head != null
      ensures Ahead(q, [], head)
    {
      forall m | m in nodes && Candidate(q, true, m) ensures head.key <= m.key {
        assert Prefixes(head.key, m.key);
      }
    }

    lemma AheadStep(q: seq<bool>, passed: seq<Node?>, node: Node, side: bool)
      requires Keys() && Route() && node in nodes && node.bit < |q| && side == q[node.bit]
      requires Ahead(q, passed, node) && (node.prefix.Some? ==> node in passed)
      ensures Ahead(q, passed, node.Child(side))
    {
      forall m | m in nodes && Candidate(q, true, m) && m !in passed
        ensures node.Child(side) != null && node.Child(side).key <= m.key
      {
        StepDown(q, node, m);
      }
    }

    /** The way down of patricia_search_best2. */
    method Walk(prefix: Prefix, stack: array<Node?>) returns (cnt: nat, node: Node?)
      requires Shape() && prefix.Fits(maxbits) && head != null
      requires maxbits < stack.Length
      modifies stack
      ensures Stacked(stack, cnt) && cnt <= maxbits
      ensures forall n <- stack[..cnt] :: n != null && n.bit < prefix.bitlen
      ensures node != null ==> node in nodes && prefix.bitlen <= node.bit && cnt <= node.bit <= maxbits
      ensures Ahead(prefix.Key(), stack[..cnt], node)
    {
      cnt := 0;
      node := head;
      var bitlen := prefix.bitlen;
      ghost var q := prefix.Key();
      AheadAtHead(q);
      while node.bit < bitlen
        invariant node != null && node in nodes && cnt <= node.bit <= maxbits
        invariant Stacked(stack, cnt)
        invariant forall n <- stack[..cnt] :: n != null && n.bit < node.bit && n.bit < bitlen
        invariant Ahead(q, stack[..cnt], node)
        decreases maxbits - node.bit
      {
        if node.prefix.Some? {
          cnt := Push(stack, cnt, node);
        }
        var side := Bit(prefix.addr, node.bit);
        var next := node.Child(side);
        AheadStep(q, stack[..cnt], node, side);
        if next == null {
          node := null;
          return;
        }
        Deeper(node, side);
        node := next;
      }
    }

    /** The whole stack of a search, which never needs more than maxbits + 1 places. */
    method Collect(prefix: Prefix, inclusive: bool, stack: array<Node?>) returns (cnt: nat)
      requires Valid() && prefix.Fits(maxbits) && head != null
      requires maxbits < stack.Length
      modifies stack
      ensures Stacked(stack, cnt) && cnt <= maxbits + 1
      ensures forall n <- stack[..cnt] :: n != null && (inclusive || n.bit < prefix.bitlen)
      ensures forall m | Candidate(prefix.Key(), inclusive, m) :: m in stack[..cnt]
    {
      var node;
      cnt, node := Walk(prefix, stack);
      ghost var q, passed := prefix.Key(), stack[..cnt];
      forall m | m in nodes && Candidate(q, true, m) && m !in passed ensures m == node {
        assert node.bit == |node.key|;
        Bottom(q, node, m);
      }
      if inclusive && node != null && node.prefix.Some? {
        cnt := Push(stack, cnt, node);
      }
    }

    /** patricia_search_best2: the longest stored prefix of the query. */
    method SearchBest2(prefix: Prefix, inclusive: bool) returns (best: Node?)
      requires Valid() && prefix.Fits(maxbits) && maxbits <= PATRICIA_MAXBITS
      ensures best != null ==> Candidate(prefix.Key(), inclusive, best)
      ensures best != null ==>
        forall m | Candidate(prefix.Key(), inclusive, m) :: |m.key| <= |best.key|
      ensures best == null ==> forall m :: !Candidate(prefix.Key(), inclusive, m)
    {
      if head == null {
        return null;
      }
      var stack := new Node?[PATRICIA_MAXBITS + 1];
      var cnt := Collect(prefix, inclusive, stack);
      best := Pop(prefix, inclusive, stack, cnt);
    }

    method Pop(prefix: Prefix, inclusive: bool, stack: array<Node?>, count: nat) returns (best: Node?)
      requires Valid() && prefix.Fits(maxbits) && Stacked(stack, count)
      requires forall n <- stack[..count] :: n != null && (inclusive || n.bit < prefix.bitlen)
      requires forall m | Candidate(prefix.Key(), inclusive, m) :: m in stack[..count]
      ensures best != null ==> Candidate(prefix.Key(), inclusive, best)
      ensures best != null ==>
        forall m | Candidate(prefix.Key(), inclusive, m) :: |m.key| <= |best.key|
      ensures best == null ==> forall m :: !Candidate(prefix.Key(), inclusive, m)
    {
      ghost var q := prefix.Key();
      var cnt := count;
      while cnt > 0
        invariant 0 <= cnt <= count
        invariant forall i | cnt <= i < count :: !(stack[i].key <= q)
      {
        cnt := cnt - 1;
        var node := stack[cnt];
        var same := Leads(node, prefix);
        if same {
          TopIsLongest(stack, cnt, count, q, inclusive);
          return node;
        }
      }
      return null;
    }

    /** Whether the prefix of a node begins the query: the test of a popped node. */
    method Leads(node: Node, prefix: Prefix) returns (yes: bool)
      requires Valid() && prefix.Fits(maxbits) && node in nodes && node.prefix.Some?
      ensures yes <==> node.key <= prefix.Key()
    {
      var p := node.prefix.value;
      assert |node.key| == node.bit && p.Key() == node.key;
      var same := CompWithMask(p.addr, prefix.addr, p.bitlen);
      assert p.bitlen <= prefix.bitlen ==> BitsOf(prefix.addr)[..p.bitlen] == prefix.Key()[..p.bitlen];
      yes := same && p.bitlen <= prefix.bitlen;
    }

    /** What is left on the stack is shorter than the node popped last. */
    lemma TopIsLongest(stack: array<Node?>, cnt: nat, count: nat, q: seq<bool>, inclusive: bool)
      requires Keys() && Stacked(stack, count) && cnt < count
      requires forall i | cnt < i < count :: stack[i] != null && !(stack[i].key <= q)
      requires forall m | Candidate(q, inclusive, m) :: m in stack[..count]
      ensures forall m | Candidate(q, inclusive, m) :: |m.key| <= |stack[cnt].key|
    {
      forall m | Candidate(q, inclusive, m) ensures |m.key| <= |stack[cnt].key| {
        var i :| 0 <= i < count && stack[i] == m;
        assert i <= cnt;
        assert |m.key| == m.bit && |stack[cnt].key| == stack[cnt].bit;
      }
    }

    // ---------------------------------------------------------------- patricia_remove

    /** What patricia_remove leaves: every other stored prefix and all attached data as
        before; the node is gone, or is glue that still carries its user1. */
    twostate predicate Removed(new node: Node)
      reads this, nodes
    {
      && Valid()
      && nodes <= old(nodes)
      && (forall n | n in old(nodes) && n != node && old(n.prefix).Some? :: n in nodes)
      && (forall n {:trigger n.user1} | n in nodes :: n.user1 == old(n.user1))
      && (forall n {:trigger n.prefix} {:trigger n.data} | n in nodes ::
            if n == node then n.prefix == None && n.data == None
            else n.prefix == old(n.prefix) && n.data == old(n.data))
    }

    twostate lemma StoredAfterRemoval(new node: Node)
      requires old(Keys()) && node in old(nodes) && Removed(node)
      ensures Stored() == old(Stored()) - {node.key}
    {
      forall k | k in old(Stored()) && k != node.key ensures k in Stored() {
        var n :| n in old(nodes) && old(n.prefix).Some? && n.key == k;
        assert n in nodes && n.prefix.Some?;
      }
      forall k | k in Stored() ensures k in old(Stored()) && k != node.key {
        var n :| n in nodes && n.prefix.Some? && n.key == k;
        assert old(n.prefix).Some? && n in old(nodes);
        assert n != node;
        assert k == node.key ==> Same(n.key, node.key);
      }
    }

    /** Removal #0: a node with two children turns into glue. */
    method RemoveInner(node: Node)
      requires Valid() && node in nodes && node.l != null && node.r != null
      modifies node`prefix, node`data
      ensures Removed(node) && node in nodes
    {
      node.prefix := None;
      node.data := None;
    }

    /** Removal #2: the only child moves up. */
    method RemoveSingle(node: Node)
      requires Valid() && node in nodes && (node.l == null) != (node.r == null)
      modifies this, nodes
      ensures Removed(node)
    {
      var side := node.r != null;
      var child := node.Child(side);
      assert node.Child(!side) == null && node.prefix.Some?;
      Bypass(node, child, side);
      MarkedAfter(null);
    }

    /** Removal #1: a leaf goes, and its parent with it if that is glue. */
    method RemoveOuter(node: Node)
      requires Valid() && node in nodes && node.l == null && node.r == null
      modifies this, nodes
      ensures Removed(node)
    {
      var parent := node.parent;
      var side := parent != null && parent.r == node;
      assert node.prefix.Some?;
      assert parent != null ==> parent.Child(side) == node && parent.Child(!side) != node;
      RemoveLeaf(node);
      if parent == null || parent.prefix.Some? {
        MarkedAfter(parent);
        return;
      }
      var child := parent.Child(!side);
      Bypass(parent, child, !side);
      MarkedAfter(parent);
    }

    /** patricia_remove */
    method Remove(node: Node)
      requires Valid() && node in nodes
      modifies this, nodes
      ensures Removed(node)
      ensures Stored() == old(Stored()) - {node.key}
      ensures old(node.l != null && node.r != null) ==> node in nodes
    {
      if node.r != null && node.l != null {
        RemoveInner(node);
      } else if node.r == null && node.l == null {
        RemoveOuter(node);
      } else {
        RemoveSingle(node);
      }
      StoredAfterRemoval(node);
    }
  }
}
