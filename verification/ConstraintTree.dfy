/** The constraint tree of the scanner as a value: what the mutable nodes of module
    `Constraint` represent, and the properties of that representation. A tree of height k
    covers the addresses [0, 2^k); height counts the address bits not yet consumed. */
module ConstraintTree {
  import opened Numbers

  datatype Tree = Leaf(value: int) | Branch(left: Tree, right: Tree)

  /** No path is longer than the number of address bits. */
  ghost predicate Fits(t: Tree, k: nat) {
    t.Branch? ==> k >= 1 && Fits(t.left, k - 1) && Fits(t.right, k - 1)
  }

  /** No internal node keeps two leaf children of equal value. */
  ghost predicate Canonical(t: Tree) {
    t.Branch? ==>
      && Canonical(t.left) && Canonical(t.right)
      && !(t.left.Leaf? && t.right.Leaf? && t.left.value == t.right.value)
  }

  /** The value a tree of height k gives to address a. */
  ghost function Lookup(t: Tree, k: nat, a: nat): int
    requires Fits(t, k) && a < Pow2(k)
  {
    match t
    case Leaf(v) => v
    case Branch(l, r) =>
      if a < Pow2(k - 1) then Lookup(l, k - 1, a) else Lookup(r, k - 1, a - Pow2(k - 1))
  }

  /** Address a of a subtree of height k agrees with the first len bits that are left of a
      prefix of L bits. */
  predicate MatchesAt(a: nat, k: nat, prefix: nat, len: nat, L: nat)
    requires len <= k <= L
  {
    Shr(a, k - len) == Shr(Low(prefix, L), L - len)
  }

  /** Address a agrees with the prefix on the first len of k bits. */
  predicate Matches(a: nat, prefix: nat, len: nat, k: nat)
    requires len <= k
  {
    MatchesAt(a, k, prefix, len, k)
  }

  /** A prefix matches the addresses that have its first len bits. */
  lemma MatchesIs(a: nat, prefix: nat, len: nat, k: nat)
    requires len <= k && a < Pow2(k)
    ensures Matches(a, prefix, len, k) <==> forall j | k - len <= j < k :: BitAt(a, j) == BitAt(prefix, j)
  {
    SameHighBits(a, Low(prefix, k), k - len, k);
    forall j | k - len <= j < k ensures BitAt(Low(prefix, k), j) == BitAt(prefix, j) {
      LowBits(prefix, k, j);
    }
  }

  // ------------------------------------------------------------- shape and meaning

  ghost predicate SameMeaning(t: Tree, u: Tree, k: nat)
    requires Fits(t, k) && Fits(u, k)
  {
    forall a: nat :: a < Pow2(k) ==> Lookup(t, k, a) == Lookup(u, k, a)
  }

  /** A canonical tree whose addresses all have one value is a leaf. */
  lemma {:induction false} UniformIsLeaf(t: Tree, k: nat, v: int)
    requires Fits(t, k) && Canonical(t)
    requires forall a: nat :: a < Pow2(k) ==> Lookup(t, k, a) == v
    ensures t == Leaf(v)
  {
    if t.Leaf? {
      assert Lookup(t, k, 0) == v;
    } else {
      var h := k - 1;
      forall a: nat | a < Pow2(h) ensures Lookup(t.left, h, a) == v {
        assert Lookup(t, k, a) == v;
      }
      forall a: nat | a < Pow2(h) ensures Lookup(t.right, h, a) == v {
        assert Lookup(t, k, a + Pow2(h)) == v;
      }
      UniformIsLeaf(t.left, h, v);
      UniformIsLeaf(t.right, h, v);
    }
  }

  /** The tree is determined by the map from addresses to values. */
  lemma {:induction false} ShapeUnique(t: Tree, u: Tree, k: nat)
    requires Fits(t, k) && Fits(u, k) && Canonical(t) && Canonical(u)
    requires SameMeaning(t, u, k)
    ensures t == u
  {
    if u.Leaf? {
      UniformIsLeaf(t, k, u.value);
    } else if t.Leaf? {
      UniformIsLeaf(u, k, t.value);
    } else {
      var h := k - 1;
      forall a: nat | a < Pow2(h)
        ensures Lookup(t.left, h, a) == Lookup(u.left, h, a)
      {
        assert Lookup(t, k, a) == Lookup(u, k, a);
      }
      forall a: nat | a < Pow2(h)
        ensures Lookup(t.right, h, a) == Lookup(u.right, h, a)
      {
        assert Lookup(t, k, a + Pow2(h)) == Lookup(u, k, a + Pow2(h));
      }
      ShapeUnique(t.left, u.left, h);
      ShapeUnique(t.right, u.right, h);
    }
  }

  // ------------------------------------------------------------- counting

  /** How many addresses have value v. */
  ghost function Count(t: Tree, k: nat, v: int): nat
    requires Fits(t, k)
  {
    match t
    case Leaf(w) => if w == v then Pow2(k) else 0
    case Branch(l, r) => Count(l, k - 1, v) + Count(r, k - 1, v)
  }

  ghost function AddressesOf(t: Tree, k: nat, v: int): set<nat>
    requires Fits(t, k)
  {
    set a: nat | a in Below(Pow2(k)) && Lookup(t, k, a) == v
  }

  ghost function Shift(s: set<nat>, d: nat): set<nat> {
    set a | a in s :: a + d
  }

  lemma {:induction false} ShiftSize(s: set<nat>, d: nat)
    ensures |Shift(s, d)| == |s|
    decreases |s|
  {
    if x :| x in s {
      var u := s - {x};
      ShiftSize(u, d);
      forall y ensures y in Shift(s, d) <==> y in Shift(u, d) + {x + d} {
        if y in Shift(s, d) {
          var z :| z in s && z + d == y;
          assert z == x || z in u;
        }
      }
      assert Shift(s, d) == Shift(u, d) + {x + d};
      assert x + d !in Shift(u, d);
    }
  }

  /** The recursive count is the number of addresses having the value. */
  lemma {:induction false} CountIsSize(t: Tree, k: nat, v: int)
    requires Fits(t, k)
    ensures Count(t, k, v) == |AddressesOf(t, k, v)|
  {
    if t.Leaf? {
      AddressesOfLeaf(t, k, v);
    } else {
      var l, r := t.left, t.right;
      CountIsSize(l, k - 1, v);
      CountIsSize(r, k - 1, v);
      BranchSize(t, k, v);
    }
  }

  lemma BranchSize(t: Tree, k: nat, v: int)
    requires Fits(t, k) && t.Branch?
    ensures |AddressesOf(t, k, v)| == |AddressesOf(t.left, k - 1, v)| + |AddressesOf(t.right, k - 1, v)|
  {
    var sl, sr := AddressesOf(t.left, k - 1, v), AddressesOf(t.right, k - 1, v);
    AddressesOfBranch(t, k, v);
    ShiftSize(sr, Pow2(k - 1));
    UnionSize(sl, Shift(sr, Pow2(k - 1)));
  }

  lemma UnionSize<T>(a: set<T>, b: set<T>)
    requires a !! b
    ensures |a + b| == |a| + |b|
  {
  }

  lemma AddressesOfLeaf(t: Tree, k: nat, v: int)
    requires t.Leaf?
    ensures |AddressesOf(t, k, v)| == if t.value == v then Pow2(k) else 0
  {
    BelowSize(Pow2(k));
    if t.value == v {
      assert AddressesOf(t, k, v) == Below(Pow2(k));
    } else {
      assert AddressesOf(t, k, v) == {};
    }
  }

  lemma AddressesOfBranch(t: Tree, k: nat, v: int)
    requires Fits(t, k) && t.Branch?
    ensures AddressesOf(t.left, k - 1, v) !! Shift(AddressesOf(t.right, k - 1, v), Pow2(k - 1))
    ensures AddressesOf(t, k, v)
         == AddressesOf(t.left, k - 1, v) + Shift(AddressesOf(t.right, k - 1, v), Pow2(k - 1))
  {
    var sl, sr := AddressesOf(t.left, k - 1, v), AddressesOf(t.right, k - 1, v);
    forall a: nat | a in AddressesOf(t, k, v) ensures a in sl + Shift(sr, Pow2(k - 1)) {
      if a >= Pow2(k - 1) { assert a - Pow2(k - 1) in sr; }
    }
  }

  ghost predicate TwoValued(t: Tree, v: int, w: int) {
    match t
    case Leaf(x) => x == v || x == w
    case Branch(l, r) => TwoValued(l, v, w) && TwoValued(r, v, w)
  }

  /** With only two values in use, the counts of the two cover the address space. */
  lemma {:induction false} CountsCover(t: Tree, k: nat, v: int, w: int)
    requires Fits(t, k) && TwoValued(t, v, w) && v != w
    ensures Count(t, k, v) + Count(t, k, w) == Pow2(k)
  {
    if t.Branch? {
      CountsCover(t.left, k - 1, v, w);
      CountsCover(t.right, k - 1, v, w);
    }
  }

  lemma {:induction false} TwoValuedFromMeaning(t: Tree, k: nat, v: int, w: int)
    requires Fits(t, k)
    requires forall a: nat :: a < Pow2(k) ==> Lookup(t, k, a) == v || Lookup(t, k, a) == w
    ensures TwoValued(t, v, w)
  {
    if t.Leaf? {
      assert Lookup(t, k, 0) == t.value;
    } else {
      var h := k - 1;
      forall a: nat | a < Pow2(h)
        ensures Lookup(t.left, h, a) == v || Lookup(t.left, h, a) == w
      {
        assert Lookup(t, k, a) == Lookup(t.left, h, a);
      }
      forall a: nat | a < Pow2(h)
        ensures Lookup(t.right, h, a) == v || Lookup(t.right, h, a) == w
      {
        assert Lookup(t, k, a + Pow2(h)) == Lookup(t.right, h, a);
      }
      TwoValuedFromMeaning(t.left, h, v, w);
      TwoValuedFromMeaning(t.right, h, v, w);
    }
  }

  // ------------------------------------------------------------- painting
  // The addresses having the painted value are split in two: those inside a leaf that
  // spans at least 2^c addresses are kept as an array of 2^c-sized blocks (the radix
  // array), the others are counted in the tree.

  /** Addresses of value v outside the leaves that span 2^c addresses or more. */
  ghost function TreeCount(t: Tree, k: nat, v: int, c: nat): nat
    requires Fits(t, k)
  {
    match t
    case Leaf(w) => if w == v && k < c then Pow2(k) else 0
    case Branch(l, r) => TreeCount(l, k - 1, v, c) + TreeCount(r, k - 1, v, c)
  }

  /** Block q of 2^c addresses lies inside a leaf of value v. */
  ghost predicate Covered(t: Tree, k: nat, v: int, c: nat, q: nat)
    requires Fits(t, k) && c <= k && q < Pow2(k - c)
  {
    match t
    case Leaf(w) => w == v
    case Branch(l, r) =>
      k > c &&
      if q < Pow2(k - 1 - c) then Covered(l, k - 1, v, c, q)
      else Covered(r, k - 1, v, c, q - Pow2(k - 1 - c))
  }

  /** How many of the first n blocks are covered. */
  ghost function CoveredBefore(t: Tree, k: nat, v: int, c: nat, n: nat): nat
    requires Fits(t, k) && c <= k && n <= Pow2(k - c)
    decreases n
  {
    if n == 0 then 0
    else CoveredBefore(t, k, v, c, n - 1) + (if Covered(t, k, v, c, n - 1) then 1 else 0)
  }

  lemma {:induction false} CoveredInLeft(t: Tree, k: nat, v: int, c: nat, n: nat)
    requires Fits(t, k) && t.Branch? && c < k && n <= Pow2(k - 1 - c)
    ensures CoveredBefore(t, k, v, c, n) == CoveredBefore(t.left, k - 1, v, c, n)
    decreases n
  {
    if n > 0 { CoveredInLeft(t, k, v, c, n - 1); }
  }

  lemma {:induction false} CoveredInRight(t: Tree, k: nat, v: int, c: nat, n: nat)
    requires Fits(t, k) && t.Branch? && c < k && n <= Pow2(k - 1 - c)
    ensures CoveredBefore(t, k, v, c, Pow2(k - 1 - c) + n)
         == CoveredBefore(t.left, k - 1, v, c, Pow2(k - 1 - c)) + CoveredBefore(t.right, k - 1, v, c, n)
    decreases n
  {
    if n == 0 {
      CoveredInLeft(t, k, v, c, Pow2(k - 1 - c));
    } else {
      CoveredInRight(t, k, v, c, n - 1);
      assert Covered(t, k, v, c, Pow2(k - 1 - c) + (n - 1)) == Covered(t.right, k - 1, v, c, n - 1);
    }
  }

  lemma {:induction false} CoveredInLeaf(t: Tree, k: nat, v: int, c: nat, n: nat)
    requires Fits(t, k) && t.Leaf? && c <= k && n <= Pow2(k - c)
    ensures CoveredBefore(t, k, v, c, n) == if t.value == v then n else 0
    decreases n
  {
    if n > 0 { CoveredInLeaf(t, k, v, c, n - 1); }
  }

  /** Nothing of height at most c is left out of the tree count, except a whole leaf. */
  lemma {:induction false} TreeCountBelow(t: Tree, k: nat, v: int, c: nat)
    requires Fits(t, k) && k < c
    ensures TreeCount(t, k, v, c) == Count(t, k, v)
  {
    if t.Branch? {
      TreeCountBelow(t.left, k - 1, v, c);
      TreeCountBelow(t.right, k - 1, v, c);
    }
  }

  /** The fast count: what the tree counts plus what the radix array covers is the count. */
  lemma {:induction false} FastCount(t: Tree, k: nat, v: int, c: nat)
    requires Fits(t, k) && c <= k
    ensures TreeCount(t, k, v, c) + Shl(CoveredBefore(t, k, v, c, Pow2(k - c)), c) == Count(t, k, v)
  {
    if t.Leaf? {
      CoveredInLeaf(t, k, v, c, Pow2(k - c));
      ShlPow2(k - c, c);
      ShlIsMul(0, c);
    } else if k == c {
      TreeCountBelow(t.left, k - 1, v, c);
      TreeCountBelow(t.right, k - 1, v, c);
      assert CoveredBefore(t, k, v, c, Pow2(k - c)) == CoveredBefore(t, k, v, c, 0) == 0;
      ShlIsMul(0, c);
    } else {
      FastCount(t.left, k - 1, v, c);
      FastCount(t.right, k - 1, v, c);
      CoveredInRight(t, k, v, c, Pow2(k - 1 - c));
      var nl := CoveredBefore(t.left, k - 1, v, c, Pow2(k - 1 - c));
      var nr := CoveredBefore(t.right, k - 1, v, c, Pow2(k - 1 - c));
      ShlAdd(nl, nr, c);
    }
  }

  /** All addresses of a covered block have the value. */
  lemma {:induction false} CoveredValue(t: Tree, k: nat, v: int, c: nat, a: nat)
    requires Fits(t, k) && c <= k && a < Pow2(k)
    ensures Shr(a, c) < Pow2(k - c)
    ensures Covered(t, k, v, c, Shr(a, c)) ==> Lookup(t, k, a) == v
  {
    ShlPow2(k - c, c);
    ShrBelow(a, Pow2(k - c), c);
    if t.Branch? && k > c {
      BlockOfHalf(a, k, c);
      if a < Pow2(k - 1) {
        CoveredValue(t.left, k - 1, v, c, a);
      } else {
        CoveredValue(t.right, k - 1, v, c, a - Pow2(k - 1));
      }
    }
  }

  /** Which half an address lies in decides which half its block lies in. */
  lemma BlockOfHalf(a: nat, k: nat, c: nat)
    requires c < k && a < Pow2(k)
    ensures a < Pow2(k - 1) <==> Shr(a, c) < Pow2(k - 1 - c)
    ensures a >= Pow2(k - 1) ==> Shr(a - Pow2(k - 1), c) == Shr(a, c) - Pow2(k - 1 - c)
  {
    var half := Pow2(k - 1 - c);
    ShlPow2(k - 1 - c, c);
    ShrBelow(a, half, c);
    if a >= Pow2(k - 1) {
      ShiftParts(a, c);
      ShlAdd(Shr(a, c) - half, half, c);
      ShiftUnique(a - Pow2(k - 1), Shr(a, c) - half, Low(a, c), c);
    }
  }

  // ------------------------------------------------------------- the n-th painted address

  /** The n-th address (in address order) that the tree counts. */
  ghost function Select(t: Tree, k: nat, v: int, c: nat, n: nat): nat
    requires Fits(t, k) && n < TreeCount(t, k, v, c)
  {
    match t
    case Leaf(_) => n
    case Branch(l, r) =>
      var cl := TreeCount(l, k - 1, v, c);
      if n < cl then Select(l, k - 1, v, c, n) else Pow2(k - 1) + Select(r, k - 1, v, c, n - cl)
  }

  /** How many addresses counted by the tree lie before a. */
  ghost function TreeRank(t: Tree, k: nat, v: int, c: nat, a: nat): nat
    requires Fits(t, k) && a < Pow2(k)
  {
    match t
    case Leaf(_) => a
    case Branch(l, r) =>
      if a < Pow2(k - 1) then TreeRank(l, k - 1, v, c, a)
      else TreeCount(l, k - 1, v, c) + TreeRank(r, k - 1, v, c, a - Pow2(k - 1))
  }

  /** An address the tree counts: it has the value and its block, if any, is not covered. */
  ghost predicate InTreeRegion(t: Tree, k: nat, v: int, c: nat, a: nat)
    requires Fits(t, k) && a < Pow2(k)
  {
    match t
    case Leaf(w) => w == v && k < c
    case Branch(l, r) =>
      if a < Pow2(k - 1) then InTreeRegion(l, k - 1, v, c, a)
      else InTreeRegion(r, k - 1, v, c, a - Pow2(k - 1))
  }

  lemma {:induction false} TreeRegionSplit(t: Tree, k: nat, v: int, c: nat, a: nat)
    requires Fits(t, k) && a < Pow2(k)
    ensures k < c ==> (InTreeRegion(t, k, v, c, a) <==> Lookup(t, k, a) == v)
    ensures k >= c ==> Shr(a, c) < Pow2(k - c)
    ensures k >= c ==> (InTreeRegion(t, k, v, c, a) <==>
              Lookup(t, k, a) == v && !Covered(t, k, v, c, Shr(a, c)))
  {
    if k >= c { CoveredValue(t, k, v, c, a); }
    if t.Branch? {
      if k > c { BlockOfHalf(a, k, c); }
      if a < Pow2(k - 1) {
        TreeRegionSplit(t.left, k - 1, v, c, a);
      } else {
        TreeRegionSplit(t.right, k - 1, v, c, a - Pow2(k - 1));
      }
    }
  }

  lemma {:induction false} SelectThenRank(t: Tree, k: nat, v: int, c: nat, n: nat)
    requires Fits(t, k) && n < TreeCount(t, k, v, c)
    ensures Select(t, k, v, c, n) < Pow2(k)
    ensures InTreeRegion(t, k, v, c, Select(t, k, v, c, n))
    ensures TreeRank(t, k, v, c, Select(t, k, v, c, n)) == n
  {
    if t.Branch? {
      var cl := TreeCount(t.left, k - 1, v, c);
      if n < cl { SelectThenRank(t.left, k - 1, v, c, n); }
      else { SelectThenRank(t.right, k - 1, v, c, n - cl); }
    }
  }

  lemma {:induction false} RankThenSelect(t: Tree, k: nat, v: int, c: nat, a: nat)
    requires Fits(t, k) && a < Pow2(k) && InTreeRegion(t, k, v, c, a)
    ensures TreeRank(t, k, v, c, a) < TreeCount(t, k, v, c)
    ensures Select(t, k, v, c, TreeRank(t, k, v, c, a)) == a
  {
    if t.Branch? {
      if a < Pow2(k - 1) { RankThenSelect(t.left, k - 1, v, c, a); }
      else { RankThenSelect(t.right, k - 1, v, c, a - Pow2(k - 1)); }
    }
  }

  /** The tree's addresses come in ascending order. */
  lemma {:induction false} SelectIncreases(t: Tree, k: nat, v: int, c: nat, i: nat, j: nat)
    requires Fits(t, k) && i < j < TreeCount(t, k, v, c)
    ensures Select(t, k, v, c, i) < Select(t, k, v, c, j)
  {
    if t.Branch? {
      var cl := TreeCount(t.left, k - 1, v, c);
      if j < cl {
        SelectIncreases(t.left, k - 1, v, c, i, j);
      } else if i >= cl {
        SelectIncreases(t.right, k - 1, v, c, i - cl, j - cl);
      } else {
        SelectThenRank(t.left, k - 1, v, c, i);
      }
    }
  }

  // ------------------------------------------------------------- painted trees

  /** The start addresses of the covered ones among the first n blocks, in order. */
  ghost function Blocks(t: Tree, k: nat, v: int, c: nat, n: nat): (r: seq<nat>)
    requires Fits(t, k) && c <= k && n <= Pow2(k - c)
    ensures |r| == CoveredBefore(t, k, v, c, n)
    decreases n
  {
    if n == 0 then []
    else Blocks(t, k, v, c, n - 1) + (if Covered(t, k, v, c, n - 1) then [Shl(n - 1, c)] else [])
  }

  /** The radix array of a painted tree. */
  ghost function Radix(t: Tree, k: nat, v: int, c: nat): seq<nat>
    requires Fits(t, k) && c <= k
  {
    Blocks(t, k, v, c, Pow2(k - c))
  }

  /** Where the start address of a covered block stands. */
  lemma {:induction false} BlockEntry(t: Tree, k: nat, v: int, c: nat, n: nat, q: nat)
    requires Fits(t, k) && c <= k && q < n <= Pow2(k - c) && Covered(t, k, v, c, q)
    ensures CoveredBefore(t, k, v, c, q) < |Blocks(t, k, v, c, n)|
    ensures Blocks(t, k, v, c, n)[CoveredBefore(t, k, v, c, q)] == Shl(q, c)
    decreases n
  {
    if q < n - 1 { BlockEntry(t, k, v, c, n - 1, q); }
  }

  /** Which block an entry is the start of. */
  lemma {:induction false} EntryBlock(t: Tree, k: nat, v: int, c: nat, n: nat, j: nat) returns (q: nat)
    requires Fits(t, k) && c <= k && n <= Pow2(k - c) && j < |Blocks(t, k, v, c, n)|
    ensures q < n && Covered(t, k, v, c, q) && CoveredBefore(t, k, v, c, q) == j
    ensures Blocks(t, k, v, c, n)[j] == Shl(q, c)
    decreases n
  {
    if j < |Blocks(t, k, v, c, n - 1)| {
      q := EntryBlock(t, k, v, c, n - 1, j);
    } else {
      q := n - 1;
    }
  }

  /** The fast count, in terms of the radix array. */
  lemma CachedCount(t: Tree, k: nat, v: int, c: nat)
    requires Fits(t, k) && c <= k
    ensures TreeCount(t, k, v, c) + Shl(|Radix(t, k, v, c)|, c) == Count(t, k, v)
  {
    FastCount(t, k, v, c);
  }

  /** The i-th painted address: first the radix blocks, then the rest of the tree. */
  ghost function Nth(t: Tree, k: nat, v: int, c: nat, i: nat): nat
    requires Fits(t, k) && c <= k && i < Count(t, k, v)
  {
    var radix := Radix(t, k, v, c);
    CachedCount(t, k, v, c);
    ShrBelow(i, |radix|, c);
    if Shr(i, c) < |radix| then radix[Shr(i, c)] + Low(i, c)
    else Select(t, k, v, c, i - Shl(|radix|, c))
  }

  lemma NthOffset(t: Tree, k: nat, v: int, c: nat, i: nat)
    requires Fits(t, k) && c <= k && i < Count(t, k, v) && Shr(i, c) < |Radix(t, k, v, c)|
    ensures Nth(t, k, v, c, i) == Radix(t, k, v, c)[Shr(i, c)] + Low(i, c)
  {
  }

  lemma NthInRadix(t: Tree, k: nat, v: int, c: nat, i: nat)
    requires Fits(t, k) && c <= k && i < Count(t, k, v) && Shr(i, c) < |Radix(t, k, v, c)|
    ensures Nth(t, k, v, c, i) == BitOr(Radix(t, k, v, c)[Shr(i, c)], Low(i, c))
  {
    var q := EntryBlock(t, k, v, c, Pow2(k - c), Shr(i, c));
    BitOrDisjoint(q, Low(i, c), c);
  }

  /** Past the radix array, the i-th painted address is found in the tree. */
  lemma NthInTree(t: Tree, k: nat, v: int, c: nat, i: nat)
    requires Fits(t, k) && c <= k && i < Count(t, k, v) && Shr(i, c) >= |Radix(t, k, v, c)|
    ensures var before := Shl(|Radix(t, k, v, c)|, c);
      && before <= i && i - before < TreeCount(t, k, v, c)
      && Nth(t, k, v, c, i) == Select(t, k, v, c, i - before)
  {
    CachedCount(t, k, v, c);
    ShrBelow(i, |Radix(t, k, v, c)|, c);
  }

  /** The position of an address among the painted ones. */
  ghost function Position(t: Tree, k: nat, v: int, c: nat, a: nat): nat
    requires Fits(t, k) && c <= k && a < Pow2(k)
  {
    CoveredValue(t, k, v, c, a);
    if Covered(t, k, v, c, Shr(a, c)) then
      Shl(CoveredBefore(t, k, v, c, Shr(a, c)), c) + Low(a, c)
    else Shl(|Radix(t, k, v, c)|, c) + TreeRank(t, k, v, c, a)
  }

  /** Rank lookup is onto: every address of the painted value has a position. */
  lemma NthOfPosition(t: Tree, k: nat, v: int, c: nat, a: nat)
    requires Fits(t, k) && c <= k && a < Pow2(k) && Lookup(t, k, a) == v
    ensures Position(t, k, v, c, a) < Count(t, k, v)
    ensures Nth(t, k, v, c, Position(t, k, v, c, a)) == a
  {
    CachedCount(t, k, v, c);
    CoveredValue(t, k, v, c, a);
    var i := Position(t, k, v, c, a);
    var n := |Radix(t, k, v, c)|;
    var q := Shr(a, c);
    ShrBelow(i, n, c);
    if Covered(t, k, v, c, q) {
      var j := CoveredBefore(t, k, v, c, q);
      ShiftUnique(i, j, Low(a, c), c);
      ShiftParts(a, c);
      BlockEntry(t, k, v, c, Pow2(k - c), q);
    } else {
      TreeRegionSplit(t, k, v, c, a);
      RankThenSelect(t, k, v, c, a);
    }
  }

  /** Rank lookup hits only addresses of the painted value, each from one position. */
  lemma PositionOfNth(t: Tree, k: nat, v: int, c: nat, i: nat)
    requires Fits(t, k) && c <= k && i < Count(t, k, v)
    ensures Nth(t, k, v, c, i) < Pow2(k)
    ensures Lookup(t, k, Nth(t, k, v, c, i)) == v
    ensures Position(t, k, v, c, Nth(t, k, v, c, i)) == i
  {
    ShiftParts(i, c);
    if Shr(i, c) < |Radix(t, k, v, c)| {
      RadixAddress(t, k, v, c, i);
    } else {
      NthInTree(t, k, v, c, i);
      var n := i - Shl(|Radix(t, k, v, c)|, c);
      SelectThenRank(t, k, v, c, n);
      TreeRegionSplit(t, k, v, c, Select(t, k, v, c, n));
    }
  }

  lemma RadixAddress(t: Tree, k: nat, v: int, c: nat, i: nat)
    requires Fits(t, k) && c <= k && Shr(i, c) < |Radix(t, k, v, c)|
    ensures var a := Radix(t, k, v, c)[Shr(i, c)] + Low(i, c);
      && a < Pow2(k) && Lookup(t, k, a) == v
      && Shr(a, c) < Pow2(k - c) && Covered(t, k, v, c, Shr(a, c))
      && Low(a, c) == Low(i, c) && CoveredBefore(t, k, v, c, Shr(a, c)) == Shr(i, c)
  {
    var j, o := Shr(i, c), Low(i, c);
    var q := EntryBlock(t, k, v, c, Pow2(k - c), j);
    var a := Radix(t, k, v, c)[j] + o;
    ShiftUnique(a, q, o, c);
    ShlPow2(k - c, c);
    ShrBelow(a, Pow2(k - c), c);
    CoveredValue(t, k, v, c, a);
  }

  // ------------------------------------------------------------- order

  /** All addresses of block q have value v. */
  ghost predicate Uniform(t: Tree, k: nat, v: int, c: nat, q: nat)
    requires Fits(t, k)
  {
    forall a: nat | a < Pow2(k) && Shr(a, c) == q :: Lookup(t, k, a) == v
  }

  /** Blocks that have the value everywhere lie inside one leaf. */
  lemma {:induction false} UniformIsCovered(t: Tree, k: nat, v: int, c: nat, q: nat)
    requires Fits(t, k) && Canonical(t) && c <= k && q < Pow2(k - c)
    requires Uniform(t, k, v, c, q)
    ensures Covered(t, k, v, c, q)
  {
    if t.Leaf? {
      BlockStartsIn(k, c, q);
      assert Lookup(t, k, Shl(q, c)) == v;
    } else if k == c {
      forall a: nat | a < Pow2(k) ensures Lookup(t, k, a) == v {
        CoveredValue(t, k, v, c, a);
      }
      UniformIsLeaf(t, k, v);
    } else {
      var half := Pow2(k - 1 - c);
      if q < half {
        UniformIsCovered(t.left, k - 1, v, c, q);
      } else {
        forall a: nat | a < Pow2(k - 1) && Shr(a, c) == q - half ensures Lookup(t.right, k - 1, a) == v {
          BlockOfHalf(a + Pow2(k - 1), k, c);
          assert Lookup(t, k, a + Pow2(k - 1)) == v;
        }
        UniformIsCovered(t.right, k - 1, v, c, q - half);
      }
    }
  }

  lemma BlockStartsIn(k: nat, c: nat, q: nat)
    requires c <= k && q < Pow2(k - c)
    ensures Shl(q, c) < Pow2(k) && Shr(Shl(q, c), c) == q
  {
    ShiftUnique(Shl(q, c), q, 0, c);
    ShlPow2(k - c, c);
    ShrBelow(Shl(q, c), Pow2(k - c), c);
  }

  /** The radix array of a canonical tree lists the blocks that have the value everywhere. */
  lemma RadixIs(t: Tree, k: nat, v: int, c: nat, q: nat)
    requires Fits(t, k) && Canonical(t) && c <= k && q < Pow2(k - c)
    ensures Shl(q, c) in Radix(t, k, v, c) <==> Uniform(t, k, v, c, q)
  {
    var radix := Radix(t, k, v, c);
    if Shl(q, c) in radix {
      var j :| 0 <= j < |radix| && radix[j] == Shl(q, c);
      var p := EntryBlock(t, k, v, c, Pow2(k - c), j);
      BlockStartsIn(k, c, p);
      BlockStartsIn(k, c, q);
    }
    CoveredIsUniform(t, k, v, c, q);
    if Uniform(t, k, v, c, q) {
      BlockEntry(t, k, v, c, Pow2(k - c), q);
      assert radix[CoveredBefore(t, k, v, c, q)] == Shl(q, c);
    }
  }

  lemma {:induction false} CoveredMonotone(t: Tree, k: nat, v: int, c: nat, m: nat, n: nat)
    requires Fits(t, k) && c <= k && m <= n <= Pow2(k - c)
    ensures CoveredBefore(t, k, v, c, m) <= CoveredBefore(t, k, v, c, n)
    decreases n
  {
    if m < n { CoveredMonotone(t, k, v, c, m, n - 1); }
  }

  /** The radix array ascends. */
  lemma RadixIncreases(t: Tree, k: nat, v: int, c: nat, i: nat, j: nat)
    requires Fits(t, k) && c <= k && i < j < |Radix(t, k, v, c)|
    ensures Radix(t, k, v, c)[i] + Pow2(c) <= Radix(t, k, v, c)[j]
  {
    var p := EntryBlock(t, k, v, c, Pow2(k - c), i);
    var q := EntryBlock(t, k, v, c, Pow2(k - c), j);
    if q <= p { CoveredMonotone(t, k, v, c, q, p); }
    ShlStep(p, q, c);
  }

  /** Rank lookup ascends through the radix blocks, and again through the rest of the tree. */
  lemma NthIncreases(t: Tree, k: nat, v: int, c: nat, i: nat, j: nat)
    requires Fits(t, k) && c <= k && i < j < Count(t, k, v)
    requires Shr(j, c) < |Radix(t, k, v, c)| || Shr(i, c) >= |Radix(t, k, v, c)|
    ensures Nth(t, k, v, c, i) < Nth(t, k, v, c, j)
  {
    if Shr(j, c) < |Radix(t, k, v, c)| {
      IncreasesInRadix(t, k, v, c, i, j);
    } else {
      IncreasesInTree(t, k, v, c, i, j);
    }
  }

  lemma IncreasesInRadix(t: Tree, k: nat, v: int, c: nat, i: nat, j: nat)
    requires Fits(t, k) && c <= k && i < j < Count(t, k, v) && Shr(j, c) < |Radix(t, k, v, c)|
    ensures Nth(t, k, v, c, i) < Nth(t, k, v, c, j)
  {
    RadixEntries(i, j, c, Radix(t, k, v, c), t, k, v);
    NthOffset(t, k, v, c, i);
    NthOffset(t, k, v, c, j);
  }

  lemma TreeIndex(t: Tree, k: nat, v: int, c: nat, i: nat) returns (n: nat)
    requires Fits(t, k) && c <= k && i < Count(t, k, v) && Shr(i, c) >= |Radix(t, k, v, c)|
    ensures i == Shl(|Radix(t, k, v, c)|, c) + n && n < TreeCount(t, k, v, c)
    ensures Nth(t, k, v, c, i) == Select(t, k, v, c, n)
  {
    NthInTree(t, k, v, c, i);
    n := i - Shl(|Radix(t, k, v, c)|, c);
  }

  lemma IncreasesInTree(t: Tree, k: nat, v: int, c: nat, i: nat, j: nat)
    requires Fits(t, k) && c <= k && i < j < Count(t, k, v) && Shr(i, c) >= |Radix(t, k, v, c)|
    ensures Nth(t, k, v, c, i) < Nth(t, k, v, c, j)
  {
    ShrMonotone(i, j, c);
    var x := TreeIndex(t, k, v, c, i);
    var y := TreeIndex(t, k, v, c, j);
    SelectIncreases(t, k, v, c, x, y);
  }

  lemma CoveredIsUniform(t: Tree, k: nat, v: int, c: nat, q: nat)
    requires Fits(t, k) && Canonical(t) && c <= k && q < Pow2(k - c)
    ensures Covered(t, k, v, c, q) <==> Uniform(t, k, v, c, q)
  {
    if Covered(t, k, v, c, q) {
      forall a: nat | a < Pow2(k) && Shr(a, c) == q ensures Lookup(t, k, a) == v {
        CoveredValue(t, k, v, c, a);
      }
    }
    if Uniform(t, k, v, c, q) { UniformIsCovered(t, k, v, c, q); }
  }

  /** The addresses found through the radix array are those of the uniform blocks. */
  lemma RegionOfNth(t: Tree, k: nat, v: int, c: nat, i: nat)
    requires Fits(t, k) && Canonical(t) && c <= k && i < Count(t, k, v)
    ensures Nth(t, k, v, c, i) < Pow2(k)
    ensures Shr(i, c) < |Radix(t, k, v, c)| <==> Uniform(t, k, v, c, Shr(Nth(t, k, v, c, i), c))
  {
    if Shr(i, c) < |Radix(t, k, v, c)| {
      RadixAddress(t, k, v, c, i);
      NthOffset(t, k, v, c, i);
      CoveredIsUniform(t, k, v, c, Shr(Nth(t, k, v, c, i), c));
    } else {
      var n := TreeIndex(t, k, v, c, i);
      SelectThenRank(t, k, v, c, n);
      TreeRegionSplit(t, k, v, c, Select(t, k, v, c, n));
      CoveredIsUniform(t, k, v, c, Shr(Select(t, k, v, c, n), c));
    }
  }

  lemma RadixEntries(i: nat, j: nat, c: nat, radix: seq<nat>, t: Tree, k: nat, v: int)
    requires Fits(t, k) && c <= k && radix == Radix(t, k, v, c) && i < j && Shr(j, c) < |radix|
    ensures Shr(i, c) < |radix| && radix[Shr(i, c)] + Low(i, c) < radix[Shr(j, c)] + Low(j, c)
  {
    ShrMonotone(i, j, c);
    ShiftParts(i, c);
    ShiftParts(j, c);
    if Shr(i, c) < Shr(j, c) { RadixIncreases(t, k, v, c, Shr(i, c), Shr(j, c)); }
  }

  lemma {:induction false} ShrMonotone(a: nat, b: nat, c: nat)
    requires a <= b
    ensures Shr(a, c) <= Shr(b, c)
    decreases c
  {
    if c > 0 { ShrMonotone(a / 2, b / 2, c - 1); }
  }
}
