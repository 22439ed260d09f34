/** Random permutations of a range from a block cipher (Yarrp/libcperm/cycle.c and
    prefix.c): cycle walking and the sorted prefix vector. */
module Cperm {
  import opened Numbers

  const PERM_ERROR_RANGE: int := -4
  const PERM_END: int := -5

  /** A cipher on blocks below size; like the 32-bit ciphers, it reads only the block-sized
      low part of its input. */
  datatype Cipher = Cipher(size: nat, table: nat -> nat) {
    /** No two blocks have the same image. */
    ghost predicate Valid() {
      && size > 0
      && (forall x: nat {:trigger table(x)} | x < size :: table(x) < size)
      && (forall x: nat, y: nat {:trigger table(x), table(y)} | x < y < size :: table(x) != table(y))
    }

    function Enc(x: nat): nat
      requires size > 0
    {
      table(x % size)
    }
  }

  ghost predicate IsPermutation(s: seq<nat>, n: nat) {
    |s| == n && NoDuplicates(s) && (forall x: nat :: x in s <==> x < n)
  }

  // ---------------------------------------------------------------- cycle walking

  /** The images of 0, 1, .., n - 1 that fall into the range, in order. */
  function Accepted(c: Cipher, range: nat, n: nat): seq<nat>
    requires c.size > 0
  {
    if n == 0 then []
    else
      var y := c.Enc(n - 1);
      Accepted(c, range, n - 1) + if y < range then [y] else []
  }

  lemma {:induction false} AcceptedGrows(c: Cipher, range: nat, m: nat, n: nat)
    requires c.size > 0 && m <= n
    ensures Accepted(c, range, m) <= Accepted(c, range, n)
  {
    if m < n { AcceptedGrows(c, range, m, n - 1); }
  }

  /** Some of the first n blocks has image y. */
  ghost predicate Hit(c: Cipher, n: nat, y: nat) {
    exists x: nat {:trigger c.table(x)} :: x < n && c.table(x) == y
  }

  lemma EncSmall(c: Cipher, x: nat)
    requires x < c.size
    ensures c.Enc(x) == c.table(x)
  {
    assert x % c.size == x;
  }

  lemma {:induction false} AcceptedElements(c: Cipher, range: nat, n: nat)
    requires c.Valid() && n <= c.size
    ensures NoDuplicates(Accepted(c, range, n))
    ensures forall y: nat :: y in Accepted(c, range, n) <==> y < range && Hit(c, n, y)
  {
    if n > 0 {
      var x := n - 1;
      AcceptedElements(c, range, x);
      EncSmall(c, x);
      var y, s := c.table(x), Accepted(c, range, x);
      assert !Hit(c, x, y);
      assert y !in s;
      forall z: nat ensures Hit(c, n, z) <==> Hit(c, x, z) || z == y {
        if Hit(c, x, z) {
          var w: nat :| w < x && c.table(w) == z;
        }
      }
      var t := Accepted(c, range, n);
      assert t == if y < range then s + [y] else s;
    }
  }

  /** An injection of the blocks into themselves reaches every block. */
  lemma EveryBlock(c: Cipher, y: nat)
    requires c.Valid() && y < c.size
    ensures Hit(c, c.size, y)
  {
    var images: seq<nat> := seq(c.size, i requires 0 <= i < c.size => c.table(i));
    assert forall i: nat | i < c.size :: images[i] == c.table(i);
    Pigeonhole(images);
    assert y in images;
    var i: nat :| i < |images| && images[i] == y;
    assert c.table(i) == y;
  }

  /** One turn through all blocks accepts every number of the range once. */
  lemma OneTurn(c: Cipher, range: nat)
    requires c.Valid() && range <= c.size
    ensures IsPermutation(Accepted(c, range, c.size), range)
  {
    var s := Accepted(c, range, c.size);
    AcceptedElements(c, range, c.size);
    forall y: nat | y < range ensures y in s {
      EveryBlock(c, y);
    }
    assert Elements(s) == Below(range);
    ElementsSize(s);
    BelowSize(range);
  }

  /** A range beyond the block size rejects nothing. */
  lemma {:induction false} NoneRejected(c: Cipher, range: nat, n: nat)
    requires c.Valid() && c.size <= range
    ensures |Accepted(c, range, n)| == n
    ensures forall i | 0 <= i < n :: Accepted(c, range, n)[i] == c.Enc(i)
  {
    if n > 0 { NoneRejected(c, range, n - 1); }
  }

  /** All the outputs of a cycle-walking permutation, in order. */
  function Walk(c: Cipher, range: nat): seq<nat>
    requires c.size > 0
  {
    Accepted(c, range, Last(c, range))
  }

  function Last(c: Cipher, range: nat): nat {
    if range < c.size then c.size else range
  }

  /** Before the range is exhausted the walk has not come round. */
  lemma Unfinished(c: Cipher, range: nat, n: nat, k: nat)
    requires c.Valid() && Reached(c, range, n, k) && k < range
    ensures n < Last(c, range)
  {
    WalkSize(c, range);
    if Last(c, range) <= n {
      AcceptedGrows(c, range, Last(c, range), n);
    }
  }

  lemma WalkSize(c: Cipher, range: nat)
    requires c.Valid()
    ensures |Walk(c, range)| == range
  {
    if range < c.size {
      OneTurn(c, range);
    } else {
      NoneRejected(c, range, range);
    }
  }

  /** Beyond the blocks the walk comes round: it gives every block, and the first one again. */
  lemma WalkWraps(c: Cipher, range: nat)
    requires c.Valid() && range > c.size
    ensures |Walk(c, range)| == range && Walk(c, range)[0] == Walk(c, range)[c.size]
    ensures forall y: nat :: y in Walk(c, range) <==> y < c.size
  {
    var s := Walk(c, range);
    NoneRejected(c, range, range);
    assert c.size % c.size == 0 && 0 % c.size == 0;
    assert s[0] == c.Enc(0) && s[c.size] == c.Enc(c.size);
    forall y: nat | y < c.size ensures y in s {
      EveryBlock(c, y);
      var x: nat :| x < c.size && c.table(x) == y;
      EncSmall(c, x);
      assert s[x] == y;
    }
    forall y: nat | y in s ensures y < c.size {
      var i :| 0 <= i < |s| && s[i] == y;
      EncBelow(c, i);
    }
  }

  lemma EncBelow(c: Cipher, x: nat)
    requires c.Valid()
    ensures c.Enc(x) < c.size
  {
    assert c.table(x % c.size) < c.size;
  }

  /** The outputs are a permutation of the range exactly when the cipher has enough blocks. */
  lemma WalkPermutes(c: Cipher, range: nat)
    requires c.Valid()
    ensures IsPermutation(Walk(c, range), range) <==> range <= c.size
  {
    if range <= c.size {
      OneTurn(c, range);
    } else {
      WalkWraps(c, range);
    }
  }

  /** The block an output is the image of. */
  lemma {:induction false} BlockOf(c: Cipher, range: nat, n: nat, i: nat) returns (x: nat)
    requires c.size > 0 && i < |Accepted(c, range, n)|
    ensures x < n && Accepted(c, range, n)[i] == c.Enc(x) && |Accepted(c, range, x)| == i
    decreases n
  {
    if i < |Accepted(c, range, n - 1)| { x := BlockOf(c, range, n - 1, i); } else { x := n - 1; }
  }

  /** The walk goes through the blocks in order, from block 0. */
  lemma WalkInOrder(c: Cipher, range: nat, i: nat, j: nat)
    requires c.Valid() && range <= c.size && i < j < |Walk(c, range)|
    ensures exists x: nat, y: nat ::
      x < y < c.size && Walk(c, range)[i] == c.table(x) && Walk(c, range)[j] == c.table(y)
  {
    var x := BlockOf(c, range, Last(c, range), i);
    var y := BlockOf(c, range, Last(c, range), j);
    if y <= x { AcceptedGrows(c, range, y, x); }
    EncSmall(c, x);
    EncSmall(c, y);
  }

  /** struct cycle_data_t with the range and cipher of its permutation. */
  class Cycle {
    const cipher: Cipher
    const range: nat
    var next: nat
    var count: nat

    /** The walk so far has given the first count outputs. */
    ghost predicate Valid()
      reads this
    {
      && cipher.Valid()
      && count <= range
      && Reached(cipher, range, next, count)
    }

    /** perm_cycle_create */
    constructor (cipher: Cipher, range: nat)
      requires cipher.Valid()
      ensures Valid() && this.cipher == cipher && this.range == range && count == 0
    {
      this.cipher, this.range := cipher, range;
      next, count := 0, 0;
      WalkSize(cipher, range);
    }

    /** perm_cycle_next: the next output, or PERM_END when the range is exhausted. */
    method Next() returns (code: int, ct: nat)
      requires Valid()
      modifies this
      ensures Valid()
      ensures old(count) >= range ==> code == PERM_END && count == old(count)
      ensures old(count) < range ==> code == 0 && count == old(count) + 1
      ensures |Walk(cipher, range)| == range
      ensures old(count) < range ==> ct == Walk(cipher, range)[old(count)] && ct < range
    {
      WalkSize(cipher, range);
      ct := 0;
      if count >= range {
        return PERM_END, ct;
      }
      next, ct := Advance(cipher, range, next, count);
      count := count + 1;
      return 0, ct;
    }
  }

  /** The do-while loop: encrypt until an image falls into the range. */
  method Advance(c: Cipher, range: nat, start: nat, ghost k: nat) returns (next: nat, ct: nat)
    requires c.Valid() && Reached(c, range, start, k) && k < range == |Walk(c, range)|
    ensures Reached(c, range, next, k + 1) && ct == Walk(c, range)[k] && ct < range
  {
    next := start;
    Unfinished(c, range, next, k);
    ct := c.Enc(next);
    next := next + 1;
    while ct >= range
      invariant 0 < next <= Last(c, range) && ct == c.Enc(next - 1)
      invariant Reached(c, range, next - 1, k)
      decreases Last(c, range) - next
    {
      Rejected(c, range, next - 1, k);
      Unfinished(c, range, next, k);
      ct := c.Enc(next);
      next := next + 1;
    }
    NextInWalk(c, range, next - 1, k);
  }

  /** The first n blocks give the first k outputs. */
  ghost predicate Reached(c: Cipher, range: nat, n: nat, k: nat)
    requires c.size > 0
  {
    k <= |Walk(c, range)| && Accepted(c, range, n) == Walk(c, range)[..k]
  }

  lemma Rejected(c: Cipher, range: nat, n: nat, k: nat)
    requires c.Valid() && Reached(c, range, n, k) && c.Enc(n) >= range
    ensures Reached(c, range, n + 1, k)
  {
  }

  lemma NextInWalk(c: Cipher, range: nat, n: nat, k: nat)
    requires c.Valid() && Reached(c, range, n, k) && c.Enc(n) < range
    requires k < range == |Walk(c, range)| && n < Last(c, range)
    ensures Reached(c, range, n + 1, k + 1) && Walk(c, range)[k] == c.Enc(n)
  {
    AcceptedGrows(c, range, n + 1, Last(c, range));
    assert Accepted(c, range, n + 1)[k] == c.Enc(n);
  }

  // ---------------------------------------------------------------- the prefix vector

  /** struct prefix_element */
  datatype Element = Element(ct: nat, pt: nat)

  ghost predicate Sorted(v: seq<Element>) {
    |v| < 2 || (v[|v| - 2].ct <= v[|v| - 1].ct && Sorted(v[..|v| - 1]))
  }

  lemma {:induction false} SortedPairs(v: seq<Element>, i: nat, j: nat)
    requires Sorted(v) && i < j < |v|
    ensures v[i].ct <= v[j].ct
  {
    if j < |v| - 1 {
      SortedPairs(v[..|v| - 1], i, j);
    } else if i < j - 1 {
      SortedPairs(v[..|v| - 1], i, j - 1);
    }
  }

  /** The vector before sorting: every index with its image. */
  function Images(c: Cipher, n: nat): seq<Element>
    requires c.size > 0
  {
    if n == 0 then [] else Images(c, n - 1) + [Element(c.Enc(n - 1), n - 1)]
  }

  lemma {:induction false} ImagesAt(c: Cipher, n: nat)
    requires c.size > 0
    ensures |Images(c, n)| == n
    ensures forall i | 0 <= i < n :: Images(c, n)[i] == Element(c.Enc(i), i)
  {
    if n > 0 { ImagesAt(c, n - 1); }
  }

  /** Every element as often in one vector as in the other. */
  ghost predicate Rearranged(v: seq<Element>, w: seq<Element>) {
    forall e: Element :: multiset(v)[e] == multiset(w)[e]
  }

  function Plaintexts(v: seq<Element>): (r: seq<nat>)
    ensures |r| == |v|
  {
    if v == [] then [] else [v[0].pt] + Plaintexts(v[1..])
  }

  lemma {:induction false} PlaintextsAre(v: seq<Element>)
    ensures forall i | 0 <= i < |v| :: Plaintexts(v)[i] == v[i].pt
  {
    if v != [] { PlaintextsAre(v[1..]); }
  }

  /** Any rearrangement of the vector lists the range once. */
  lemma RearrangedPermutes(c: Cipher, range: nat, v: seq<Element>)
    requires c.size > 0 && multiset(v) == multiset(Images(c, range))
    ensures IsPermutation(Plaintexts(v), range)
  {
    var w := Images(c, range);
    ImagesAt(c, range);
    assert |v| == |multiset(v)| == |multiset(w)| == |w|;
    SameElements(v, w);
    var s := Plaintexts(v);
    PlaintextsAre(v);
    forall x: nat ensures x in s <==> x < range {
      if x < range {
        assert w[x] in v;
        var i :| 0 <= i < |v| && v[i] == w[x];
        assert s[i] == x;
      }
      if x in s {
        var i :| 0 <= i < |s| && s[i] == x;
        assert v[i] in w;
      }
    }
    assert Elements(s) == Below(range);
    BelowSize(range);
    FullSize(s);
  }

  lemma SameElements<T>(v: seq<T>, w: seq<T>)
    requires multiset(v) == multiset(w)
    ensures forall x :: x in v <==> x in w
  {
    forall x ensures x in v <==> x in w {
      assert x in v <==> x in multiset(v);
      assert x in w <==> x in multiset(w);
    }
  }

  /** As many elements as places leave no duplicates. */
  lemma {:induction false} FullSize<T>(s: seq<T>)
    requires |Elements(s)| == |s|
    ensures NoDuplicates(s)
  {
    if s != [] {
      var t, x := s[..|s| - 1], s[|s| - 1];
      assert s == t + [x];
      SizeOfElements(t);
      assert Elements(s) == Elements(t) + {x};
      assert x in Elements(t) ==> Elements(s) == Elements(t);
      assert x !in t;
      FullSize(t);
    }
  }

  /** No two elements have the same image. */
  ghost predicate Distinct(v: seq<Element>) {
    forall a, b | a in v && b in v && a.ct == b.ct :: a == b
  }

  /** With different images the sorted vector is the only one, whatever the sort. */
  lemma {:induction false} SortUnique(v: seq<Element>, w: seq<Element>)
    requires Sorted(v) && Sorted(w) && Distinct(v) && multiset(v) == multiset(w)
    ensures v == w
  {
    assert |v| == |multiset(v)| == |multiset(w)| == |w|;
    if v != [] {
      var n := |v| - 1;
      SameLast(v, w);
      DropLast(v);
      DropLast(w);
      SortUnique(v[..n], w[..n]);
    }
  }

  lemma SameLast(v: seq<Element>, w: seq<Element>)
    requires v != [] && |v| == |w| && Sorted(v) && Sorted(w) && Distinct(v) && multiset(v) == multiset(w)
    ensures v[|v| - 1] == w[|w| - 1]
  {
    SameElements(v, w);
    LastIsLargest(v, w[|w| - 1]);
    LastIsLargest(w, v[|v| - 1]);
  }

  lemma LastIsLargest(v: seq<Element>, e: Element)
    requires Sorted(v) && e in v
    ensures e.ct <= v[|v| - 1].ct
  {
    var i :| 0 <= i < |v| && v[i] == e;
    if i < |v| - 1 { SortedPairs(v, i, |v| - 1); }
  }

  lemma DropLast(v: seq<Element>)
    requires v != []
    ensures v == v[..|v| - 1] + [v[|v| - 1]]
    ensures multiset(v[..|v| - 1]) == multiset(v) - multiset{v[|v| - 1]}
    ensures Distinct(v) ==> Distinct(v[..|v| - 1])
  {
    assert v == v[..|v| - 1] + [v[|v| - 1]];
  }

  /** A sorted vector with one more element. */
  function Insert(e: Element, v: seq<Element>): (r: seq<Element>)
    ensures |r| == |v| + 1
  {
    if v == [] || v[|v| - 1].ct <= e.ct then v + [e] else Insert(e, v[..|v| - 1]) + [v[|v| - 1]]
  }

  lemma {:induction false} InsertKeeps(e: Element, v: seq<Element>)
    ensures multiset(Insert(e, v)) == multiset(v + [e])
  {
    if v != [] && v[|v| - 1].ct > e.ct {
      InsertKeeps(e, v[..|v| - 1]);
      assert v == v[..|v| - 1] + [v[|v| - 1]];
    }
  }

  lemma {:induction false} InsertSorted(e: Element, v: seq<Element>)
    requires Sorted(v)
    ensures Sorted(Insert(e, v))
  {
    if v != [] && v[|v| - 1].ct > e.ct {
      var t := v[..|v| - 1];
      InsertSorted(e, t);
      assert Insert(e, v)[..|v|] == Insert(e, t);
    } else {
      assert Insert(e, v)[..|v|] == v;
    }
  }

  /** The vector while a gap at j moves down from i. */
  function Gap(was: seq<Element>, j: nat, x: Element, i: nat): (r: seq<Element>)
    requires j <= i < |was|
    ensures |r| == |was|
  {
    was[..j] + [x] + was[j..i] + was[i + 1..]
  }

  /** Moving the gap down by one is storing one element. */
  lemma GapMoves(was: seq<Element>, j: nat, x: Element, i: nat)
    requires 0 < j <= i < |was|
    ensures Gap(was, j, x, i)[j - 1] == was[j - 1]
    ensures Gap(was, j, x, i)[j := was[j - 1]] == Gap(was, j - 1, was[j - 1], i)
  {
  }

  lemma GapAt(was: seq<Element>, j: nat, x: Element, y: Element, i: nat)
    requires j <= i < |was|
    ensures Gap(was, j, x, i)[j] == x && Gap(was, j, x, i)[j := y] == Gap(was, j, y, i)
    ensures Gap(was, i, was[i], i) == was
  {
  }

  /** One insertion in place: the element at i moves down into the sorted part. */
  method InsertInPlace(v: array<Element>, i: nat)
    requires i < v.Length
    modifies v
    ensures v[..] == Insert(old(v[i]), old(v[..i])) + old(v[i + 1..])
  {
    var e, j := v[i], i;
    ghost var was, x := v[..], e;
    GapAt(was, i, e, e, i);
    while j > 0 && v[j - 1].ct > e.ct
      invariant j <= i && v[..] == Gap(was, j, x, i)
      invariant Insert(e, was[..i]) == Insert(e, was[..j]) + was[j..i]
      decreases j
    {
      GapMoves(was, j, x, i);
      assert v[j - 1] == v[..][j - 1];
      Shifted(e, was, j, i);
      v[j] := v[j - 1];
      j := j - 1;
      x := was[j];
    }
    GapAt(was, j, x, e, i);
    v[j] := e;
    Settled(e, was, j, i);
  }

  lemma Settled(e: Element, was: seq<Element>, j: nat, i: nat)
    requires j <= i < |was| && (j > 0 ==> was[j - 1].ct <= e.ct)
    requires Insert(e, was[..i]) == Insert(e, was[..j]) + was[j..i]
    ensures Gap(was, j, e, i) == Insert(e, was[..i]) + was[i + 1..]
  {
    assert Insert(e, was[..j]) == was[..j] + [e];
  }

  /** A larger element before the place of the new one stays behind it. */
  lemma Shifted(e: Element, was: seq<Element>, j: nat, i: nat)
    requires 0 < j <= i < |was| && was[j - 1].ct > e.ct
    ensures Insert(e, was[..j]) + was[j..i] == Insert(e, was[..j - 1]) + was[j - 1..i]
  {
    assert was[..j][..j - 1] == was[..j - 1];
    assert was[j - 1..i] == [was[j - 1]] + was[j..i];
  }

  lemma InsertionStep(sorted: seq<Element>, was: seq<Element>, e: Element, i: nat)
    requires i < |was| && Sorted(sorted) && multiset(sorted) == multiset(was[..i]) && e == was[i]
    ensures Sorted(Insert(e, sorted)) && multiset(Insert(e, sorted)) == multiset(was[..i + 1])
  {
    InsertSorted(e, sorted);
    InsertKeeps(e, sorted);
    assert was[..i + 1] == was[..i] + [e];
  }

  /** Sort the vector in place: the stand-in for qsort. */
  method SortInPlace(v: array<Element>)
    modifies v
    ensures Sorted(v[..]) && multiset(v[..]) == multiset(old(v[..]))
  {
    ghost var was := v[..];
    var i := 0;
    while i < v.Length
      invariant 0 <= i <= v.Length && v[i..] == was[i..]
      invariant Sorted(v[..i]) && multiset(v[..i]) == multiset(was[..i])
    {
      InsertionStep(v[..i], was, v[i], i);
      ghost var more := Insert(v[i], v[..i]);
      assert v[i] == v[i..][0] && v[i + 1..] == v[i..][1..];
      InsertInPlace(v, i);
      i := i + 1;
      assert v[..i] == more && v[i..] == was[i..];
    }
    assert v[..i] == v[..] && was[..i] == was;
  }

  /** struct prefix_data_t with the range of its permutation. */
  class PrefixVector {
    const cipher: Cipher
    const range: nat
    const vector: array<Element>
    var next: nat

    ghost predicate Valid()
      reads this, vector
    {
      && cipher.Valid() && next <= range
      && vector.Length == range
      && Sorted(vector[..]) && Rearranged(vector[..], Images(cipher, range))
    }

    /** All the outputs, in order. */
    ghost function Order(): (r: seq<nat>)
      reads vector
      ensures |r| == vector.Length
    {
      Plaintexts(vector[..])
    }

    /** perm_prefix_create: fill and sort the vector. */
    constructor (cipher: Cipher, range: nat)
      requires cipher.Valid()
      ensures Valid() && this.cipher == cipher && this.range == range && next == 0 && fresh(vector)
    {
      this.cipher, this.range := cipher, range;
      next := 0;
      vector := new Element[range](_ => Element(0, 0));
      new;
      var i := 0;
      while i < range
        invariant 0 <= i <= range && fresh(vector) && next == 0
        invariant vector[..i] == Images(cipher, i)
      {
        vector[i] := Element(cipher.Enc(i), i);
        i := i + 1;
        assert vector[..i] == vector[..i - 1] + [vector[i - 1]];
      }
      assert vector[..] == vector[..range];
      SortInPlace(vector);
    }

    lemma Permutes()
      requires Valid()
      ensures IsPermutation(Order(), range)
    {
      assert multiset(vector[..]) == multiset(Images(cipher, range));
      RearrangedPermutes(cipher, range, vector[..]);
    }

    /** perm_prefix_get: any output by its position. */
    method Get(pt: nat) returns (code: int, ct: nat)
      requires Valid()
      ensures pt < range ==> code == 0 && ct == Order()[pt]
      ensures pt >= range ==> code == PERM_ERROR_RANGE
    {
      PlaintextsAre(vector[..]);
      if pt < range {
        return 0, vector[pt].pt;
      }
      return PERM_ERROR_RANGE, 0;
    }

    /** perm_prefix_next: the outputs one after the other. */
    method Next() returns (code: int, ct: nat)
      requires Valid()
      modifies this`next
      ensures Valid()
      ensures old(next) >= range ==> code == PERM_END && next == old(next)
      ensures old(next) < range ==> code == 0 && next == old(next) + 1 && ct == Order()[old(next)] && ct < range
    {
      if next < range {
        ct := vector[next].pt;
        Permutes();
        PlaintextsAre(vector[..]);
        assert Order()[next] in Order();
        next := next + 1;
        return 0, ct;
      }
      return PERM_END, 0;
    }
  }

  // ---------------------------------------------------------------- both modes

  datatype Mode = PrefixMode | CycleMode

  /** struct cperm_t: one of the two modes. */
  class Permutation {
    const range: nat
    const cipher: Cipher
    const size: nat
    const cycle: Cycle?
    const prefix: PrefixVector?

    /** The objects of the mode. */
    ghost function Parts(): set<object> {
      (if cycle == null then {} else {cycle}) + (if prefix == null then {} else {prefix, prefix.vector})
    }

    ghost predicate Valid()
      reads this, Parts()
    {
      && (cycle == null <==> prefix != null)
      && size == cipher.size
      && (cycle != null ==> cycle.Valid() && cycle.range == range && cycle.cipher == cipher)
      && (prefix != null ==> prefix.Valid() && prefix.range == range && prefix.cipher == cipher)
    }

    /** All the outputs, in order. */
    ghost function Order(): seq<nat>
      requires Valid()
      reads this, Parts()
    {
      if cycle != null then Walk(cycle.cipher, range) else prefix.Order()
    }

    ghost function Position(): nat
      requires Valid()
      reads this, Parts()
    {
      if cycle != null then cycle.count else prefix.next
    }

    /** cperm_create */
    constructor (range: nat, mode: Mode, cipher: Cipher)
      requires cipher.Valid()
      ensures Valid() && this.range == range && Position() == 0 && |Order()| == range
      ensures (cycle != null <==> mode == CycleMode) && this.cipher == cipher
      ensures fresh(Parts())
    {
      this.range, this.cipher, this.size := range, cipher, cipher.size;
      if mode == CycleMode {
        cycle := new Cycle(cipher, range);
        prefix := null;
      } else {
        prefix := new PrefixVector(cipher, range);
        cycle := null;
      }
      new;
      Permutes();
    }

    /** A permutation of the range: always in prefix mode, in cycle mode exactly when the
        cipher has enough blocks. */
    lemma Permutes()
      requires Valid()
      ensures |Order()| == range
      ensures IsPermutation(Order(), range) <==> prefix != null || range <= size
    {
      if cycle != null {
        WalkSize(cycle.cipher, range);
        WalkPermutes(cycle.cipher, range);
      } else {
        prefix.Permutes();
      }
    }

    /** Which numbers a permutation gives, and that a range beyond the blocks repeats one. */
    lemma Outputs()
      requires Valid()
      ensures |Order()| == range
      ensures forall y: nat :: y in Order() <==> y < range && (cycle != null && range > size ==> y < size)
      ensures cycle != null && range > size ==> Order()[0] == Order()[size]
    {
      Permutes();
      if cycle != null && range > size {
        WalkWraps(cycle.cipher, range);
      }
    }

    /** cperm_next */
    method Next() returns (code: int, ct: nat)
      requires Valid()
      modifies Parts()
      ensures Valid() && Order() == old(Order()) && |Order()| == range
      ensures old(Position()) >= range ==> code == PERM_END && Position() == old(Position())
      ensures old(Position()) < range ==>
        code == 0 && Position() == old(Position()) + 1 && ct == Order()[old(Position())] && ct < range
    {
      if cycle != null {
        code, ct := cycle.Next();
      } else {
        code, ct := prefix.Next();
      }
    }
  }
}
