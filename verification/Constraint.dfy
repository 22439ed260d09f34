/** The address-space constraints of the scanner (HMapc/lib/constraint.c): a binary prefix
    tree whose nodes are changed in place, with cached counts and a radix array for the
    large painted blocks. Each node carries the tree value it represents. */
module Constraint {
  import opened Numbers
  import opened ConstraintTree

  class Node {
    var l: Node?
    var r: Node?
    var value: int
    var count: nat
    ghost var repr: set<Node>
    ghost var tree: Tree

    ghost predicate Valid()
      reads this, repr
      decreases repr
    {
      && this in repr
      && (l == null <==> r == null)
      && (l == null ==> tree == Leaf(value))
      && (l != null ==>
            && l in repr && r in repr
            && l.repr < repr && r.repr < repr && l.repr !! r.repr
            && this !in l.repr && this !in r.repr
            && l.Valid() && r.Valid()
            && tree == Branch(l.tree, r.tree))
    }

    /** Every node below has the count that painting value v stored. */
    ghost predicate Counted(k: nat, v: int, c: nat)
      requires Valid() && Fits(tree, k)
      reads this, repr
      decreases repr
    {
      && count == TreeCount(tree, k, v, c)
      && (l != null ==> l.Counted(k - 1, v, c) && r.Counted(k - 1, v, c))
    }

    /** _create_leaf */
    constructor (value: int)
      ensures Valid() && repr == {this} && tree == Leaf(value)
      ensures l == null && this.value == value
    {
      l, r := null, null;
      this.value := value;
      count := 0;
      repr := {this};
      tree := Leaf(value);
    }

    predicate IsLeaf()
      reads this
    {
      l == null
    }

    /** Turn a leaf into an internal node with two leaves of its value. */
    method SplitLeaf()
      requires Valid() && IsLeaf()
      modifies this
      ensures Valid() && fresh(repr - {this}) && tree == Branch(Leaf(value), Leaf(value))
      ensures value == old(value)
    {
      l := new Node(value);
      r := new Node(value);
      repr := {this} + l.repr + r.repr;
      tree := Branch(l.tree, r.tree);
    }

    /** _convert_to_leaf */
    method ConvertToLeaf()
      requires !IsLeaf()
      modifies this
      ensures Valid() && repr == {this} && tree == Leaf(value)
      ensures l == null && value == old(value)
    {
      l, r := null, null;
      repr := {this};
      tree := Leaf(value);
    }
  }

  /** Consuming the top bit of the prefix selects the half. */
  lemma MatchesStep(a: nat, k: nat, prefix: nat, len: nat, L: nat)
    requires 1 <= len <= k <= L && a < Pow2(k)
    ensures var right := BitAnd(prefix, Pow2(L - 1)) != 0;
            var rest := Low(2 * prefix, L);
            MatchesAt(a, k, prefix, len, L) <==>
              if a < Pow2(k - 1) then !right && MatchesAt(a, k - 1, rest, len - 1, L)
              else right && MatchesAt(a - Pow2(k - 1), k - 1, rest, len - 1, L)
  {
    PrefixStep(prefix, len, L);
    BlockOfHalf(a, k, k - len);
  }

  /** The first len bits of a prefix: its top bit and the first len-1 bits of the rest. */
  lemma PrefixStep(prefix: nat, len: nat, L: nat)
    requires 1 <= len <= L
    ensures var rest := Shr(Low(Low(2 * prefix, L), L), L - (len - 1));
      && rest < Pow2(len - 1)
      && Shr(Low(prefix, L), L - len) ==
           rest + if BitAnd(prefix, Pow2(L - 1)) != 0 then Pow2(len - 1) else 0
  {
    var p := Low(prefix, L);
    BitAndPow2(prefix, L - 1);
    RestOfPrefix(prefix, len, L);
    BlockOfHalf(p, L, L - len);
  }

  lemma RestOfPrefix(prefix: nat, len: nat, L: nat)
    requires 1 <= len <= L
    ensures var rest := Shr(Low(Low(2 * prefix, L), L), L - (len - 1));
      rest == Shr(Low(prefix, L - 1), L - len) && rest < Pow2(len - 1)
  {
    var p' := Low(prefix, L - 1);
    assert Low(2 * prefix, L) == 2 * p';
    LowOfSmall(2 * p', L);
    assert Shr(2 * p', L - (len - 1)) == Shr(p', L - len);
    BlockOfHalf(p', L, L - len);
  }

  lemma {:induction false} LowOfSmall(a: nat, k: nat)
    requires a < Pow2(k)
    ensures Low(a, k) == a && Shr(a, k) == 0
  {
    ShlIsMul(0, k);
    ShiftUnique(a, 0, a, k);
  }

  /** At address a, tree u is tree t with the matching addresses set to value. */
  ghost predicate SetAt(t: Tree, u: Tree, k: nat, prefix: nat, len: nat, value: int, L: nat, a: nat)
    requires Fits(t, k) && Fits(u, k) && len <= k <= L && a < Pow2(k)
  {
    Lookup(u, k, a) == if MatchesAt(a, k, prefix, len, L) then value else Lookup(t, k, a)
  }

  ghost predicate SetTo(t: Tree, u: Tree, k: nat, prefix: nat, len: nat, value: int, L: nat)
    requires Fits(t, k) && Fits(u, k) && len <= k <= L
  {
    forall a: nat :: a < Pow2(k) ==> SetAt(t, u, k, prefix, len, value, L, a)
  }

  /** _set_recurse: k is the height of the subtree, L the number of address bits. */
  method SetRecurse(node: Node, prefix: nat, len: nat, value: int, L: nat, ghost k: nat)
    requires node.Valid() && Fits(node.tree, k) && Canonical(node.tree)
    requires len <= k <= L
    modifies node.repr
    ensures node.Valid() && fresh(node.repr - old(node.repr))
    ensures Fits(node.tree, k) && Canonical(node.tree)
    ensures SetTo(old(node.tree), node.tree, k, prefix, len, value, L)
    decreases len
  {
    if len == 0 {
      SetWhole(node.tree, k, prefix, value, L);
      if !node.IsLeaf() {
        node.ConvertToLeaf();
      }
      node.value := value;
      node.tree := Leaf(value);
      return;
    }
    ghost var before := node.tree;
    if node.IsLeaf() {
      if node.value == value {
        return;
      }
      node.SplitLeaf();
    }
    ghost var split := node.tree;
    var flag := BitAnd(prefix, Pow2(L - 1));
    var prefix1 := Low(prefix * 2, L);
    if flag != 0 {
      SetRecurse(node.r, prefix1, len - 1, value, L, k - 1);
    } else {
      SetRecurse(node.l, prefix1, len - 1, value, L, k - 1);
    }
    ghost var after := Branch(node.l.tree, node.r.tree);
    SetHalf(split, after, k, prefix, len, value, L);
    MergeLeaves(node, k);
    SetSameEnds(before, split, after, node.tree, k, prefix, len, value, L);
  }

  /** The end of _set_recurse: two leaves of equal value are discarded. */
  method MergeLeaves(node: Node, ghost k: nat)
    requires k >= 1 && node.l != null && node.r != null && node.l.Valid() && node.r.Valid()
    requires node.l.repr !! node.r.repr && node !in node.l.repr && node !in node.r.repr
    requires Fits(node.l.tree, k - 1) && Fits(node.r.tree, k - 1)
    requires Canonical(node.l.tree) && Canonical(node.r.tree)
    modifies node
    ensures node.Valid() && node.repr <= old({node} + node.l.repr + node.r.repr)
    ensures Fits(node.tree, k) && Canonical(node.tree)
    ensures SameMeaning(old(Branch(node.l.tree, node.r.tree)), node.tree, k)
  {
    node.repr := {node} + node.l.repr + node.r.repr;
    node.tree := Branch(node.l.tree, node.r.tree);
    if node.r.IsLeaf() && node.l.IsLeaf() && node.r.value == node.l.value {
      MergeMeaning(node.tree, k);
      node.value := node.l.value;
      node.ConvertToLeaf();
    }
  }

  lemma SetWhole(t: Tree, k: nat, prefix: nat, value: int, L: nat)
    requires Fits(t, k) && k <= L
    ensures SetTo(t, Leaf(value), k, prefix, 0, value, L)
  {
    forall a: nat | a < Pow2(k) ensures MatchesAt(a, k, prefix, 0, L) {
      LowOfSmall(a, k);
      LowOfSmall(Low(prefix, L), L);
    }
  }

  /** Setting the half that the top bit of the prefix selects, and leaving the other half as
      it is, sets exactly the matching addresses. */
  lemma SetHalf(split: Tree, after: Tree, k: nat, prefix: nat, len: nat, value: int, L: nat)
    requires Fits(split, k) && Fits(after, k) && 1 <= len <= k <= L
    requires split.Branch? && after.Branch?
    requires BitAnd(prefix, Pow2(L - 1)) != 0 ==>
      && after.left == split.left
      && SetTo(split.right, after.right, k - 1, Low(prefix * 2, L), len - 1, value, L)
    requires BitAnd(prefix, Pow2(L - 1)) == 0 ==>
      && after.right == split.right
      && SetTo(split.left, after.left, k - 1, Low(prefix * 2, L), len - 1, value, L)
    ensures SetTo(split, after, k, prefix, len, value, L)
  {
    forall a: nat | a < Pow2(k) ensures SetAt(split, after, k, prefix, len, value, L, a) {
      SetHalfAt(split, after, k, prefix, len, value, L, a);
    }
  }

  lemma SetHalfAt(split: Tree, after: Tree, k: nat, prefix: nat, len: nat, value: int, L: nat, a: nat)
    requires Fits(split, k) && Fits(after, k) && 1 <= len <= k <= L && a < Pow2(k)
    requires split.Branch? && after.Branch?
    requires BitAnd(prefix, Pow2(L - 1)) != 0 ==>
      && after.left == split.left
      && SetTo(split.right, after.right, k - 1, Low(prefix * 2, L), len - 1, value, L)
    requires BitAnd(prefix, Pow2(L - 1)) == 0 ==>
      && after.right == split.right
      && SetTo(split.left, after.left, k - 1, Low(prefix * 2, L), len - 1, value, L)
    ensures SetAt(split, after, k, prefix, len, value, L, a)
  {
    MatchesStep(a, k, prefix, len, L);
    if a < Pow2(k - 1) {
      if BitAnd(prefix, Pow2(L - 1)) == 0 {
        assert SetAt(split.left, after.left, k - 1, Low(prefix * 2, L), len - 1, value, L, a);
      }
    } else {
      if BitAnd(prefix, Pow2(L - 1)) != 0 {
        assert SetAt(split.right, after.right, k - 1, Low(prefix * 2, L), len - 1, value, L, a - Pow2(k - 1));
      }
    }
  }

  lemma SetSameEnds(before: Tree, split: Tree, after: Tree, merged: Tree, k: nat,
                    prefix: nat, len: nat, value: int, L: nat)
    requires Fits(before, k) && Fits(split, k) && Fits(after, k) && Fits(merged, k) && len <= k <= L
    requires SameMeaning(before, split, k) && SameMeaning(after, merged, k)
    requires SetTo(split, after, k, prefix, len, value, L)
    ensures SetTo(before, merged, k, prefix, len, value, L)
  {
    forall a: nat | a < Pow2(k) ensures SetAt(before, merged, k, prefix, len, value, L, a) {
      assert SetAt(split, after, k, prefix, len, value, L, a);
      assert Lookup(before, k, a) == Lookup(split, k, a);
      assert Lookup(after, k, a) == Lookup(merged, k, a);
    }
  }

  /** Two equal leaves under a node mean what one leaf in its place means. */
  lemma MergeMeaning(t: Tree, k: nat)
    requires Fits(t, k) && t.Branch? && t.left.Leaf? && t.right == t.left
    ensures SameMeaning(t, t.left, k)
  {
  }

  /** _lookup_ipvx */
  method LookupIpvx(root: Node, address: nat, L: nat) returns (value: int)
    requires L >= 1 && root.Valid() && Fits(root.tree, L)
    ensures value == Lookup(root.tree, L, Low(address, L))
  {
    var node: Node, mask := root, Pow2(L - 1);
    ghost var k := L;
    while true
      invariant node.Valid() && Fits(node.tree, k) && mask == Pow2(k) / 2
      invariant Lookup(root.tree, L, Low(address, L)) == Lookup(node.tree, k, Low(address, k))
      decreases k
    {
      if node.IsLeaf() {
        return node.value;
      }
      BitAndPow2(address, k - 1);
      var flag := BitAnd(address, mask);
      if flag != 0 {
        node := node.r;
      } else {
        node := node.l;
      }
      mask := mask / 2;
      k := k - 1;
    }
  }

  /** _count_ipvx_recurse: size is the number of addresses below the node. */
  method CountIpvxRecurse(node: Node, value: int, size: nat, paint: bool, excludeRadix: bool,
                          radixSize: nat, ghost k: nat, ghost c: nat)
    returns (count: nat)
    requires node.Valid() && Fits(node.tree, k) && size == Pow2(k) && radixSize == Pow2(c)
    modifies (if paint then node.repr else {})`count
    ensures node.Valid()
    ensures count == if excludeRadix then TreeCount(node.tree, k, value, c) else Count(node.tree, k, value)
    ensures paint && excludeRadix ==> node.Counted(k, value, c)
    decreases k
  {
    if node.IsLeaf() {
      if node.value == value {
        count := size;
        if excludeRadix && size >= radixSize {
          count := 0;
        }
        if k < c { Pow2Monotone(k, c); } else { Pow2Monotone(c, k); }
      } else {
        count := 0;
      }
    } else {
      var size2 := size / 2;
      var countL := CountIpvxRecurse(node.l, value, size2, paint, excludeRadix, radixSize, k - 1, c);
      var countR := CountIpvxRecurse(node.r, value, size2, paint, excludeRadix, radixSize, k - 1, c);
      count := countL + countR;
    }
    if paint {
      node.count := count;
    }
  }

  /** The subtree reached after following the first bits of a prefix, or the leaf met. */
  ghost function Descend(t: Tree, k: nat, prefix: nat, len: nat): (u: Tree)
    requires Fits(t, k) && len <= k
    decreases len
  {
    if len == 0 || t.Leaf? then t
    else if Low(prefix, k) >= Pow2(k - 1) then Descend(t.right, k - 1, prefix, len - 1)
    else Descend(t.left, k - 1, prefix, len - 1)
  }

  /** _lookup_node */
  method LookupNode(root: Node, prefix: nat, len: nat, L: nat) returns (node: Node)
    requires L >= 1 && root.Valid() && Fits(root.tree, L) && len <= L
    ensures node.Valid() && node.tree == Descend(root.tree, L, prefix, len)
  {
    node := root;
    var mask := Pow2(L - 1);
    ghost var k := L;
    var i := 0;
    while i < len
      invariant 0 <= i <= len && k == L - i
      invariant node.Valid() && Fits(node.tree, k) && mask == Pow2(k) / 2
      invariant Descend(root.tree, L, prefix, len) == Descend(node.tree, k, prefix, len - i)
    {
      if node.IsLeaf() {
        return;
      }
      BitAndPow2(prefix, k - 1);
      var flag := BitAnd(prefix, mask);
      if flag != 0 {
        node := node.r;
      } else {
        node := node.l;
      }
      mask := mask / 2;
      k := k - 1;
      i := i + 1;
    }
  }

  /** Following the bits of block q ends in a leaf of value v exactly when v covers it. */
  lemma {:induction false} CoveredByDescent(t: Tree, k: nat, v: int, c: nat, q: nat, p: nat)
    requires Fits(t, k) && c <= k && q < Pow2(k - c) && Low(p, k) == Shl(q, c)
    ensures Covered(t, k, v, c, q) <==> Descend(t, k, p, k - c) == Leaf(v)
    decreases k
  {
    if t.Branch? && k > c {
      var half := Pow2(k - 1 - c);
      HalfOfBlocks(k, c, q, p);
      if q < half {
        CoveredByDescent(t.left, k - 1, v, c, q, p);
      } else {
        CoveredByDescent(t.right, k - 1, v, c, q - half, p);
      }
    }
  }

  /** The top bit of an address says in which half its block is, the others where there. */
  lemma HalfOfBlocks(k: nat, c: nat, q: nat, p: nat)
    requires c < k && q < Pow2(k - c) && Low(p, k) == Shl(q, c)
    ensures
      var half := Pow2(k - 1 - c);
      && (Low(p, k) >= Pow2(k - 1) <==> q >= half)
      && Low(p, k - 1) == Shl(if q < half then q else q - half, c)
  {
    var half := Pow2(k - 1 - c);
    ShlPow2(k - 1 - c, c);
    BitAndPow2(p, k - 1);
    if q < half { ShlStep(q, half, c); } else { ShlAdd(q - half, half, c); }
  }

  /** _lookup_index: the n-th address the tree counts. */
  method LookupIndex(root: Node, index: nat, L: nat, ghost v: int, ghost c: nat) returns (ip: nat)
    requires L >= 1 && root.Valid() && Fits(root.tree, L) && root.Counted(L, v, c)
    requires index < TreeCount(root.tree, L, v, c)
    ensures ip == Select(root.tree, L, v, c, index)
  {
    var node: Node, mask, n: nat := root, Pow2(L - 1), index;
    ip := 0;
    ghost var k: nat, q: nat, t := L, 0, root.tree;
    ghost var target := Select(root.tree, L, v, c, index);
    ShlIsMul(0, L);
    while true
      invariant node.Valid() && node.tree == t && Fits(t, k) && node.Counted(k, v, c) && mask == Pow2(k) / 2
      invariant n < TreeCount(t, k, v, c) && ip == Shl(q, k)
      invariant target == ip + Select(t, k, v, c, n)
      decreases k
    {
      if node.IsLeaf() {
        BitOrDisjoint(q, n, k);
        ip := BitOr(ip, n);
        return;
      }
      ChildrenCount(node, k, v, c);
      SelectStep(t, k, v, c, n, q, ip, mask, target, node.l.count);
      if n < node.l.count {
        node := node.l;
        q, t := 2 * q, t.left;
      } else {
        n := n - node.l.count;
        node := node.r;
        ip := BitOr(ip, mask);
        q, t := 2 * q + 1, t.right;
      }
      mask := mask / 2;
      k := k - 1;
    }
  }

  lemma ChildrenCount(node: Node, k: nat, v: int, c: nat)
    requires node.Valid() && Fits(node.tree, k) && node.Counted(k, v, c) && node.tree.Branch?
    ensures node.l != null && node.tree.left == node.l.tree && node.l.Valid()
    ensures node.r != null && node.tree.right == node.r.tree && node.r.Valid()
    ensures k >= 1 && Fits(node.l.tree, k - 1) && node.l.Counted(k - 1, v, c)
    ensures Fits(node.r.tree, k - 1) && node.r.Counted(k - 1, v, c)
    ensures node.l.count == TreeCount(node.l.tree, k - 1, v, c)
  {
  }

  /** One step of the descent, for a target that starts with the bits chosen so far. */
  lemma SelectStep(t: Tree, k: nat, v: int, c: nat, n: nat, q: nat, ip: nat, mask: nat, target: nat, cl: nat)
    requires Fits(t, k) && t.Branch? && n < TreeCount(t, k, v, c)
    requires ip == Shl(q, k) && mask == Pow2(k) / 2 && cl == TreeCount(t.left, k - 1, v, c)
    requires target == ip + Select(t, k, v, c, n)
    ensures mask / 2 == Pow2(k - 1) / 2
    ensures n < cl ==>
      && ip == Shl(2 * q, k - 1) && target == ip + Select(t.left, k - 1, v, c, n)
    ensures n >= cl ==>
      && n - cl < TreeCount(t.right, k - 1, v, c)
      && BitOr(ip, mask) == Shl(2 * q + 1, k - 1)
      && target == BitOr(ip, mask) + Select(t.right, k - 1, v, c, n - cl)
  {
    OrNextBit(2 * q, k - 1);
  }

  /** Setting the bit just below the ones already set. */
  lemma OrNextBit(q: nat, h: nat)
    requires q % 2 == 0
    ensures Shl(q, h) == Shl(q / 2, h + 1)
    ensures BitOr(Shl(q, h), Pow2(h)) == Shl(q, h) + Pow2(h) == Shl(q + 1, h)
  {
    ShlAdd(q / 2, q / 2, h);
    assert Shl(q, h) == Shl(q / 2, h + 1);
    BitOrDisjoint(q / 2, Pow2(h), h + 1);
    ShlAdd(q, 1, h);
    ShlPow2(0, h);
  }

  /** mpz_fdiv_q and mpz_mod by a power of two, on the indices the scanner uses. */
  method DivideBySize(index: int, c: nat) returns (quotient: int, remainder: nat)
    requires index >= -1
    ensures index >= 0 ==> quotient == Shr(index, c) && remainder == Low(index, c)
    ensures index == -1 ==> quotient == -1 && remainder == Pow2(c) - 1
  {
    var size := Pow2(c);
    quotient, remainder := index / size, index % size;
    if index >= 0 { ShiftIsArithmetic(index, c); } else { DivModUnique(index, size, -1, size - 1); }
  }

  /** mpz_mul_ui of a power of two. */
  method TimesSize(n: nat, c: nat) returns (r: nat)
    ensures r == Shl(n, c)
  {
    ShlIsMul(n, c);
    r := Pow2(c) * n;
  }

  /** struct _constraint together with the widths that cal_ipvx_mask fixes. */
  /** The arguments of constraint_set. */
  datatype Setting = Setting(prefix: nat, len: nat, value: int)

  /** The value of the last setting that matches address a, or the one it had. */
  function LastMatch(settings: seq<Setting>, a: nat, L: nat, before: int): int
    requires forall i | 0 <= i < |settings| :: settings[i].len <= L
  {
    if settings == [] then before
    else
      var last := settings[|settings| - 1];
      if Matches(a, last.prefix, last.len, L) then last.value
      else LastMatch(settings[..|settings| - 1], a, L, before)
  }

  /** The definition in words: some setting matches and no later one does, or none matches. */
  lemma {:induction false} LastMatchIs(settings: seq<Setting>, a: nat, L: nat, before: int)
    requires forall i | 0 <= i < |settings| :: settings[i].len <= L
    ensures
      || (LastMatch(settings, a, L, before) == before
          && forall i | 0 <= i < |settings| :: !Matches(a, settings[i].prefix, settings[i].len, L))
      || exists i :: 0 <= i < |settings| && LastMatch(settings, a, L, before) == settings[i].value
           && Matches(a, settings[i].prefix, settings[i].len, L)
           && forall j | i < j < |settings| :: !Matches(a, settings[j].prefix, settings[j].len, L)
  {
    if settings != [] {
      var rest, n := settings[..|settings| - 1], |settings| - 1;
      if Matches(a, settings[n].prefix, settings[n].len, L) {
      } else {
        LastMatchIs(rest, a, L, before);
        assert forall i | 0 <= i < n :: rest[i] == settings[i];
      }
    }
  }

  class Constraint {
    const L: nat   // address bits (IPVX_MAX_PREFIX_LEN)
    const R: nat   // bits resolved by the radix array (RADIX_LENGTH)
    var root: Node
    var radix: array<nat>
    var radixLen: nat
    var painted: bool
    var paintValue: int

    ghost predicate Valid()
      reads this, root, root.repr, radix
    {
      && 1 <= R <= L
      && radix.Length == Pow2(R)
      && root.Valid() && Fits(root.tree, L) && Canonical(root.tree)
      && radixLen <= radix.Length
      && (painted ==> IsPainted())
    }

    ghost predicate IsPainted()
      requires R <= L && root.Valid() && Fits(root.tree, L) && radixLen <= radix.Length
      reads this, root, root.repr, radix
    {
      && root.Counted(L, paintValue, L - R)
      && radix[..radixLen] == Radix(root.tree, L, paintValue, L - R)
    }

    /** The value of address a. */
    ghost function ValueAt(a: nat): int
      requires Valid() && a < Pow2(L)
      reads this, root, root.repr, radix
    {
      Lookup(root.tree, L, a)
    }

    /** constraint_init */
    constructor (value: int, ipvxMaxLen: nat)
      requires ipvxMaxLen > 0
      ensures Valid() && fresh(root.repr) && fresh(radix)
      ensures L == ipvxMaxLen && R == (if ipvxMaxLen < 20 then ipvxMaxLen else 20)
      ensures forall a: nat :: a < Pow2(L) ==> ValueAt(a) == value
      ensures radixLen == 0 && !painted && forall j :: 0 <= j < radix.Length ==> radix[j] == 0
    {
      L := ipvxMaxLen;
      R := if ipvxMaxLen < 20 then ipvxMaxLen else 20;
      root := new Node(value);
      radix := new nat[Pow2(if ipvxMaxLen < 20 then ipvxMaxLen else 20)](i => 0);
      radixLen := 0;
      painted := false;
      paintValue := 0;
    }

    /** constraint_set: the addresses of the prefix get the value, the others keep theirs. */
    method Set(prefix: nat, len: nat, value: int)
      requires Valid() && len <= L
      modifies this, root.repr
      ensures Valid() && root == old(root) && radix == old(radix) && fresh(root.repr - old(root.repr))
      ensures forall a: nat :: a < Pow2(L) ==>
                (ValueAt(a) == if Matches(a, prefix, len, L) then value else old(ValueAt(a)))
      ensures !painted && radixLen == old(radixLen)
    {
      ghost var before := root.tree;
      SetRecurse(root, prefix, len, value, L, L);
      painted := false;
      forall a: nat | a < Pow2(L)
        ensures ValueAt(a) == if Matches(a, prefix, len, L) then value else Lookup(before, L, a)
      {
        assert SetAt(before, root.tree, L, prefix, len, value, L, a);
      }
    }

    /** A sequence of settings, as blocklist.c makes them: the last one that matches wins. */
    method SetAll(settings: seq<Setting>)
      requires Valid() && forall i | 0 <= i < |settings| :: settings[i].len <= L
      modifies this, root.repr
      ensures Valid() && root == old(root) && radix == old(radix) && fresh(root.repr - old(root.repr))
      ensures forall a: nat :: a < Pow2(L) ==> ValueAt(a) == LastMatch(settings, a, L, old(ValueAt(a)))
    {
      var i := 0;
      while i < |settings|
        invariant 0 <= i <= |settings|
        invariant Valid() && root == old(root) && radix == old(radix) && fresh(root.repr - old(root.repr))
        invariant forall a: nat :: a < Pow2(L) ==> ValueAt(a) == LastMatch(settings[..i], a, L, old(ValueAt(a)))
      {
        Set(settings[i].prefix, settings[i].len, settings[i].value);
        assert settings[..i + 1][..i] == settings[..i];
        i := i + 1;
      }
      assert settings[..i] == settings;
    }

    /** constraint_lookup_ipvx_for_value */
    method LookupValue(ipvx: nat) returns (value: int)
      requires Valid() && ipvx < Pow2(L)
      ensures value == ValueAt(ipvx)
    {
      LowOfSmall(ipvx, L);
      value := LookupIpvx(root, ipvx, L);
    }

    /** constraint_paint_value */
    method PaintValue(value: int)
      requires Valid()
      modifies this, root.repr`count, radix
      ensures Valid() && painted && paintValue == value
      ensures root == old(root) && radix == old(radix)
      ensures root.tree == old(root.tree) && root.repr == old(root.repr)
      ensures forall j :: radixLen <= j < radix.Length ==> radix[j] == old(radix[j])
    {
      ghost var c := L - R;
      var _ := CountIpvxRecurse(root, value, Pow2(L), true, true, Pow2(L - R), L, c);
      FillRadix(value);
      painted := true;
      paintValue := value;
    }

    /** The loop of constraint_paint_value over all prefixes of the radix length. */
    method FillRadix(value: int)
      requires 1 <= R <= L && radix.Length == Pow2(R) && root.Valid() && Fits(root.tree, L)
      modifies this`radixLen, radix
      ensures radixLen <= radix.Length
      ensures radix[..radixLen] == Radix(root.tree, L, value, L - R)
      ensures forall j :: radixLen <= j < radix.Length ==> radix[j] == old(radix[j])
    {
      radixLen := 0;
      var i := 0;
      ghost var t, c := root.tree, L - R;
      while i < Pow2(R)
        invariant 0 <= i <= Pow2(R) && radixLen <= i
        invariant radix[..radixLen] == Blocks(t, L, value, c, i)
        invariant forall j :: radixLen <= j < radix.Length ==> radix[j] == old(radix[j])
      {
        BlockStart(i, R, c);
        var prefix := TimesSize(i, L - R);
        var node := LookupNode(root, prefix, R, L);
        CoveredByDescent(t, L, value, c, i, prefix);
        if node.IsLeaf() && node.value == value {
          radix[radixLen] := prefix;
          radixLen := radixLen + 1;
        }
        i := i + 1;
      }
    }

    /** constraint_count_ipvx_of_value: the cached and the uncached branch agree. */
    method CountOfValue(value: int) returns (count: nat)
      requires Valid()
      ensures count == Count(root.tree, L, value)
      ensures count == |AddressesOf(root.tree, L, value)|
    {
      CountIsSize(root.tree, L, value);
      if painted && paintValue == value {
        CachedCount(root.tree, L, value, L - R);
        var t := TimesSize(radixLen, L - R);
        count := root.count + t;
      } else {
        ghost var c := L - R;
        count := CountIpvxRecurse(root, value, Pow2(L), false, false, Pow2(L - R), L, c);
      }
    }

    /** constraint_lookup_index_for_ipvx */
    method LookupIndexForIpvx(index: int, value: int) returns (ipvx: nat)
      requires Valid()
      requires -1 <= index < Count(root.tree, L, value)
      modifies this, root.repr`count, radix
      ensures Valid() && painted && paintValue == value
      ensures root == old(root) && radix == old(radix)
      ensures root.tree == old(root.tree) && root.repr == old(root.repr)
      ensures old(painted) && old(paintValue) == value ==>
                radixLen == old(radixLen) && radix[..] == old(radix[..])
      ensures index >= 0 ==> ipvx == Nth(root.tree, L, value, L - R, index)
      ensures index == -1 ==> ipvx == BitOr(radix[1], Pow2(L - R) - 1)
    {
      if !painted || paintValue != value {
        PaintValue(value);
      }
      ipvx := LookupPainted(index, value);
    }

    /** The lookup proper, once the value is painted. Callers pass an index below the count,
        or -1 (a shard that found no element); mpz_get_ui drops the sign of the quotient. */
    method LookupPainted(index: int, value: int) returns (ipvx: nat)
      requires Valid() && painted && paintValue == value
      requires -1 <= index < Count(root.tree, L, value)
      ensures radix.Length > 1
      ensures index >= 0 ==> ipvx == Nth(root.tree, L, value, L - R, index)
      ensures index == -1 ==> ipvx == BitOr(radix[1], Pow2(L - R) - 1)
    {
      Pow2Monotone(1, R);
      var radixIdx, radixOffset := DivideBySize(index, L - R);
      if radixIdx < radixLen {
        var slot := if radixIdx < 0 then -radixIdx else radixIdx;
        if index >= 0 {
          NthInRadix(root.tree, L, value, L - R, index);
          assert radix[slot] == radix[..radixLen][slot];
        }
        ipvx := BitOr(radix[slot], radixOffset);
        return;
      }
      NthInTree(root.tree, L, value, L - R, index);
      var t := TimesSize(radixLen, L - R);
      var n := index - t;
      ghost var c := L - R;
      ipvx := LookupIndex(root, n, L, value, c);
    }
  }

  lemma BlockStart(i: nat, R: nat, c: nat)
    requires i < Pow2(R)
    ensures Shl(i, c) == Low(Shl(i, c), R + c)
  {
    ShlStep(i, Pow2(R), c);
    ShlPow2(R, c);
    LowOfSmall(Shl(i, c), R + c);
  }
}
