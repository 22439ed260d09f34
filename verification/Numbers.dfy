/** Arithmetic and counting facts shared by the other modules: powers of two, bitwise
    operations on natural numbers (GMP's mpz_and and mpz_ior), quotients, and the
    pigeonhole principle. */
module Numbers {

  function Pow2(k: nat): (r: nat)
    ensures r >= 1
  {
    if k == 0 then 1 else 2 * Pow2(k - 1)
  }

  lemma {:induction false} Pow2Add(a: nat, b: nat)
    ensures Pow2(a + b) == Pow2(a) * Pow2(b)
    decreases a
  {
    if a > 0 {
      Pow2Add(a - 1, b);
      assert Pow2(a) * Pow2(b) == 2 * (Pow2(a - 1) * Pow2(b));
    }
  }

  lemma {:induction false} Pow2Monotone(a: nat, b: nat)
    requires a <= b
    ensures Pow2(a) <= Pow2(b)
    ensures a < b ==> Pow2(a) < Pow2(b)
    decreases b
  {
    if a < b { Pow2Monotone(a, b - 1); }
  }

  // ---------------------------------------------------------------- shifts

  /** a divided by 2^c, rounded down. */
  function Shr(a: nat, c: nat): nat
    decreases c
  {
    if c == 0 then a else Shr(a / 2, c - 1)
  }

  /** The remainder of that division. */
  function Low(a: nat, c: nat): (r: nat)
    ensures r < Pow2(c)
    decreases c
  {
    if c == 0 then 0 else 2 * Low(a / 2, c - 1) + a % 2
  }

  /** q times 2^c. */
  function Shl(q: nat, c: nat): nat {
    if c == 0 then q else 2 * Shl(q, c - 1)
  }

  lemma {:induction false} ShiftIsArithmetic(a: nat, c: nat)
    ensures Shl(a, c) == a * Pow2(c)
    ensures Shr(a, c) == a / Pow2(c)
    ensures Low(a, c) == a % Pow2(c)
  {
    ShlIsMul(a, c);
    ShlIsMul(Shr(a, c), c);
    ShiftParts(a, c);
    DivModUnique(a, Pow2(c), Shr(a, c), Low(a, c));
  }

  lemma {:induction false} ShlIsMul(a: nat, c: nat)
    ensures Shl(a, c) == a * Pow2(c)
  {
    if c > 0 {
      ShlIsMul(a, c - 1);
      assert 2 * (a * Pow2(c - 1)) == a * (2 * Pow2(c - 1));
    }
  }

  lemma {:induction false} ShiftParts(a: nat, c: nat)
    ensures a == Shl(Shr(a, c), c) + Low(a, c)
    decreases c
  {
    if c > 0 { ShiftParts(a / 2, c - 1); }
  }

  /** A number is determined by its high and its low part. */
  lemma {:induction false} ShiftUnique(a: nat, q: nat, o: nat, c: nat)
    requires o < Pow2(c) && a == Shl(q, c) + o
    ensures Shr(a, c) == q && Low(a, c) == o
    decreases c
  {
    if c > 0 { ShiftUnique(a / 2, q, o / 2, c - 1); }
  }

  lemma {:induction false} ZeroParts(c: nat)
    ensures Shl(0, c) == Shr(0, c) == Low(0, c) == 0
  {
    if c > 0 { ZeroParts(c - 1); }
  }

  lemma {:induction false} ShlAdd(a: nat, b: nat, c: nat)
    ensures Shl(a + b, c) == Shl(a, c) + Shl(b, c)
  {
    if c > 0 { ShlAdd(a, b, c - 1); }
  }

  lemma {:induction false} ShlStep(a: nat, b: nat, c: nat)
    requires a < b
    ensures Shl(a, c) + Pow2(c) <= Shl(b, c)
  {
    if c > 0 { ShlStep(a, b, c - 1); }
  }

  lemma {:induction false} ShlPow2(a: nat, c: nat)
    ensures Shl(Pow2(a), c) == Pow2(a + c)
  {
    if c > 0 { ShlPow2(a, c - 1); }
  }

  lemma {:induction false} ShlShl(q: nat, a: nat, b: nat)
    ensures Shl(Shl(q, a), b) == Shl(q, a + b)
  {
    if b > 0 { ShlShl(q, a, b - 1); }
  }

  lemma {:induction false} ShrShr(q: nat, a: nat, b: nat)
    ensures Shr(Shr(q, a), b) == Shr(q, a + b)
    decreases a
  {
    if a > 0 { ShrShr(q / 2, a - 1, b); }
  }

  lemma ShrBelow(a: nat, n: nat, c: nat)
    ensures a < Shl(n, c) <==> Shr(a, c) < n
  {
    ShiftParts(a, c);
    var q := Shr(a, c);
    if q < n { ShlStep(q, n, c); } else if n < q { ShlStep(n, q, c); }
  }

  lemma MulStep(q: int, q': int, d: int)
    requires q < q' && d > 0
    ensures q * d + d <= q' * d
  {
    assert (q' - q - 1) * d >= 0;
    assert (q' - q - 1) * d == q' * d - q * d - d;
  }

  lemma QuotientUnique(q: int, r: int, q': int, r': int, d: int)
    requires 0 <= r < d && 0 <= r' < d
    requires q * d + r == q' * d + r'
    ensures q == q' && r == r'
  {
    if q < q' { MulStep(q, q', d); }
    if q' < q { MulStep(q', q, d); }
  }

  /** Quotient and remainder are determined by the division equation. */
  lemma DivModUnique(a: int, d: int, q: int, r: int)
    requires 0 <= r < d
    requires a == q * d + r
    ensures a / d == q && a % d == r
  {
    QuotientUnique(a / d, a % d, q, r, d);
  }

  lemma MulPositive(b: int, c: int)
    requires b > 0 && c > 0
    ensures b * c > 0
  {
  }

  lemma ModOfSum(a: int, b: int, m: int)
    requires m > 0
    ensures (a + b) % m == (a % m + b % m) % m
    ensures (a + b) % m == (a % m + b) % m
    ensures (a + b) % m == (a + b % m) % m
  {
    var qa, qb := a / m, b / m;
    var s := a % m + b % m;
    DivModUnique(a + b, m, qa + qb + s / m, s % m);
    DivModUnique(a % m + b, m, qb + s / m, s % m);
    DivModUnique(a + b % m, m, qa + s / m, s % m);
  }

  lemma ModOfProduct(a: int, b: int, m: int)
    requires m > 0
    ensures (a * b) % m == ((a % m) * b) % m == ((a % m) * (b % m)) % m
  {
    var qa, ra := a / m, a % m;
    var qb, rb := b / m, b % m;
    ModOfMultiple(ra * b, qa * b, m);
    assert a * b == ra * b + qa * b * m;
    ModOfMultiple(ra * rb, ra * qb, m);
    assert ra * b == ra * rb + ra * qb * m;
  }

  lemma ModOfMultiple(a: int, q: int, m: int)
    requires m > 0
    ensures (a + q * m) % m == a % m
  {
    DivModUnique(a + q * m, m, a / m + q, a % m);
  }

  // ---------------------------------------------------------------- bitwise operations

  function BitAnd(a: nat, b: nat): nat
    decreases a
  {
    if a == 0 then 0
    else 2 * BitAnd(a / 2, b / 2) + (if a % 2 == 1 && b % 2 == 1 then 1 else 0)
  }

  function BitOr(a: nat, b: nat): nat
    decreases a + b
  {
    if a == 0 && b == 0 then 0
    else 2 * BitOr(a / 2, b / 2) + (if a % 2 == 1 || b % 2 == 1 then 1 else 0)
  }

  /** Bit k of a number. */
  predicate BitAt(a: nat, k: nat) {
    Shr(a, k) % 2 == 1
  }

  /** The operations work bit by bit. */
  lemma Bitwise(a: nat, b: nat, k: nat)
    ensures BitAt(BitAnd(a, b), k) <==> BitAt(a, k) && BitAt(b, k)
    ensures BitAt(BitOr(a, b), k) <==> BitAt(a, k) || BitAt(b, k)
    ensures BitAt(BitXor(a, b), k) <==> BitAt(a, k) != BitAt(b, k)
  {
    AndBits(a, b, k);
    OrBits(a, b, k);
    XorBits(a, b, k);
  }

  lemma AndHalves(a: nat, b: nat)
    ensures BitAnd(a, b) / 2 == BitAnd(a / 2, b / 2)
    ensures BitAnd(a, b) % 2 == if a % 2 == 1 && b % 2 == 1 then 1 else 0
  {
    HalvesOf(BitAnd(a / 2, b / 2), if a % 2 == 1 && b % 2 == 1 then 1 else 0);
  }

  lemma XorHalves(a: nat, b: nat)
    ensures BitXor(a, b) / 2 == BitXor(a / 2, b / 2)
    ensures BitXor(a, b) % 2 == if a % 2 != b % 2 then 1 else 0
  {
    HalvesOf(BitXor(a / 2, b / 2), if a % 2 != b % 2 then 1 else 0);
  }

  lemma {:induction false} AndBits(a: nat, b: nat, k: nat)
    ensures BitAt(BitAnd(a, b), k) <==> BitAt(a, k) && BitAt(b, k)
    decreases k
  {
    AndHalves(a, b);
    if k > 0 { AndBits(a / 2, b / 2, k - 1); }
  }

  lemma OrHalves(a: nat, b: nat)
    ensures BitOr(a, b) / 2 == BitOr(a / 2, b / 2)
    ensures BitOr(a, b) % 2 == if a % 2 == 1 || b % 2 == 1 then 1 else 0
  {
    HalvesOf(BitOr(a / 2, b / 2), if a % 2 == 1 || b % 2 == 1 then 1 else 0);
  }

  lemma HalvesOf(q: nat, r: nat)
    requires r < 2
    ensures (2 * q + r) / 2 == q && (2 * q + r) % 2 == r
  {
  }

  lemma {:induction false} OrBits(a: nat, b: nat, k: nat)
    ensures BitAt(BitOr(a, b), k) <==> BitAt(a, k) || BitAt(b, k)
    decreases k
  {
    OrHalves(a, b);
    if k > 0 { OrBits(a / 2, b / 2, k - 1); }
  }

  lemma {:induction false} XorBits(a: nat, b: nat, k: nat)
    ensures BitAt(BitXor(a, b), k) <==> BitAt(a, k) != BitAt(b, k)
    decreases k
  {
    XorHalves(a, b);
    if k > 0 { XorBits(a / 2, b / 2, k - 1); }
  }

  lemma {:induction false} ShrNext(a: nat, s: nat)
    ensures Shr(a, s + 1) == Shr(a, s) / 2
    decreases s
  {
    if s > 0 { ShrNext(a / 2, s - 1); }
  }

  /** Numbers of n bits agree above bit s exactly when their bits do. */
  lemma {:induction false} SameHighBits(a: nat, b: nat, s: nat, n: nat)
    requires s <= n && a < Pow2(n) && b < Pow2(n)
    ensures Shr(a, s) == Shr(b, s) <==> forall k | s <= k < n :: BitAt(a, k) == BitAt(b, k)
    decreases n - s
  {
    if s == n {
      ShrBelow(a, 1, n);
      ShrBelow(b, 1, n);
      ShlPow2(0, n);
    } else {
      SameHighBits(a, b, s + 1, n);
      ShrNext(a, s);
      ShrNext(b, s);
      if forall k | s + 1 <= k < n :: BitAt(a, k) == BitAt(b, k) {
        assert BitAt(a, s) == BitAt(b, s) ==> forall k | s <= k < n :: BitAt(a, k) == BitAt(b, k);
      }
      assert (forall k | s <= k < n :: BitAt(a, k) == BitAt(b, k)) ==> BitAt(a, s) == BitAt(b, s);
    }
  }

  /** The low bits keep the bits. */
  lemma {:induction false} LowBits(a: nat, n: nat, k: nat)
    requires k < n
    ensures BitAt(Low(a, n), k) == BitAt(a, k)
    decreases k
  {
    if k > 0 {
      LowBits(a / 2, n - 1, k - 1);
      assert Low(a, n) / 2 == Low(a / 2, n - 1);
    }
  }

  lemma BitAndZero(a: nat)
    ensures BitAnd(a, 0) == 0
    decreases a
  {
    if a > 0 { BitAndZero(a / 2); }
  }

  /** Masking with a single bit tests that bit. */
  lemma {:induction false} BitAndPow2(a: nat, k: nat)
    ensures BitAnd(a, Pow2(k)) != 0 <==> Low(a, k + 1) >= Pow2(k)
    ensures Low(a, k + 1) == Low(a, k) + (if BitAnd(a, Pow2(k)) != 0 then Pow2(k) else 0)
    decreases k
  {
    if k == 0 {
      if a > 0 { BitAndZero(a / 2); }
      assert Low(a, 1) == 2 * Low(a / 2, 0) + a % 2;
    } else {
      assert Pow2(k) / 2 == Pow2(k - 1) && Pow2(k) % 2 == 0;
      BitAndPow2(a / 2, k - 1);
      assert a == 0 ==> a / 2 == 0;
      assert a > 0 ==> BitAnd(a, Pow2(k)) == 2 * BitAnd(a / 2, Pow2(k - 1));
      assert Low(a, k + 1) == 2 * Low(a / 2, k) + a % 2;
    }
  }

  /** Masking with the k low bits keeps them. */
  lemma {:induction false} BitAndMask(a: nat, k: nat)
    ensures BitAnd(a, Pow2(k) - 1) == Low(a, k)
    decreases k
  {
    if k == 0 {
      BitAndZero(a);
    } else {
      assert (Pow2(k) - 1) / 2 == Pow2(k - 1) - 1 && (Pow2(k) - 1) % 2 == 1;
      BitAndMask(a / 2, k - 1);
      if a == 0 { ZeroParts(k); }
    }
  }

  /** Masking with bits b to k - 1 leaves nothing exactly when those bits are clear. */
  lemma BitAndHigh(a: nat, b: nat, k: nat)
    requires b <= k
    ensures Pow2(b) <= Pow2(k)
    ensures BitAnd(a, Pow2(k) - Pow2(b)) == 0 <==> Low(a, k) < Pow2(b)
  {
    Pow2Monotone(b, k);
    BitAndUpper(a, b, k, Pow2(k) - Pow2(b));
  }

  lemma {:induction false} BitAndUpper(a: nat, b: nat, k: nat, m: nat)
    requires b <= k && m + Pow2(b) == Pow2(k)
    ensures BitAnd(a, m) == 0 <==> Low(a, k) < Pow2(b)
    decreases b
  {
    if b == 0 {
      BitAndMask(a, k);
    } else {
      BitAndUpper(a / 2, b - 1, k - 1, Pow2(k - 1) - Pow2(b - 1));
      HighHalf(a, b, k, m, Pow2(k - 1) - Pow2(b - 1));
    }
  }

  lemma HighHalf(a: nat, b: nat, k: nat, m: nat, h: nat)
    requires 0 < b <= k && m == 2 * h
    ensures BitAnd(a, m) == 0 <==> BitAnd(a / 2, h) == 0
    ensures Low(a, k) < Pow2(b) <==> Low(a / 2, k - 1) < Pow2(b - 1)
  {
    AndHalves(a, m);
  }

  function BitXor(a: nat, b: nat): nat
    decreases a + b
  {
    if a == 0 && b == 0 then 0
    else 2 * BitXor(a / 2, b / 2) + (if a % 2 != b % 2 then 1 else 0)
  }

  lemma {:induction false} XorTwice(a: nat, b: nat)
    ensures BitXor(BitXor(a, b), b) == a
    decreases a + b
  {
    if a != 0 || b != 0 {
      XorTwice(a / 2, b / 2);
      XorHalves(a, b);
      XorHalves(BitXor(a, b), b);
    }
  }

  lemma {:induction false} XorBelow(a: nat, b: nat, k: nat)
    requires a < Pow2(k) && b < Pow2(k)
    ensures BitXor(a, b) < Pow2(k)
    decreases k
  {
    if k > 0 { XorBelow(a / 2, b / 2, k - 1); }
  }

  lemma BitOrZero(b: nat)
    ensures BitOr(0, b) == b
    ensures BitOr(b, 0) == b
    decreases b
  {
    if b > 0 { BitOrZero(b / 2); }
  }

  /** Or-ing numbers whose bits do not overlap adds them. */
  lemma {:induction false} BitOrDisjoint(q: nat, b: nat, k: nat)
    requires b < Pow2(k)
    ensures BitOr(Shl(q, k), b) == Shl(q, k) + b
    decreases k
  {
    if k == 0 {
      BitOrZero(q);
    } else {
      BitOrDisjoint(q, b / 2, k - 1);
    }
  }

  // ---------------------------------------------------------------- counting

  predicate NoDuplicates<T(==)>(s: seq<T>) {
    forall i, j :: 0 <= i < j < |s| ==> s[i] != s[j]
  }

  ghost function Elements<T>(s: seq<T>): set<T> {
    set x | x in s
  }

  ghost function Below(n: nat): (r: set<nat>)
    ensures forall x: nat :: x in r <==> x < n
  {
    if n == 0 then {} else Below(n - 1) + {n - 1}
  }

  lemma {:induction false} BelowSize(n: nat)
    ensures |Below(n)| == n
  {
    if n > 0 {
      BelowSize(n - 1);
      assert Below(n) == Below(n - 1) + {n - 1};
    }
  }

  lemma {:induction false} ElementsSize<T>(s: seq<T>)
    requires NoDuplicates(s)
    ensures |Elements(s)| == |s|
  {
    if s != [] {
      var t := s[..|s| - 1];
      ElementsSize(t);
      assert s == t + [s[|s| - 1]];
      assert s[|s| - 1] !in t;
      assert Elements(s) == Elements(t) + {s[|s| - 1]};
    }
  }

  lemma SubsetOfSameSize<T>(a: set<T>, b: set<T>)
    requires a <= b
    requires |a| >= |b|
    ensures a == b
  {
    if x :| x in b && x !in a {
      assert a + {x} <= b;
      SubsetSize(a + {x}, b);
    }
  }

  lemma {:induction false} SubsetSize<T>(a: set<T>, b: set<T>)
    requires a <= b
    ensures |a| <= |b|
    decreases |b|
  {
    if a != {} {
      var x :| x in a;
      SubsetSize(a - {x}, b - {x});
    }
  }

  /** Pigeonhole: n different numbers below n are all the numbers below n. */
  lemma Pigeonhole(s: seq<nat>)
    requires NoDuplicates(s)
    requires forall x :: x in s ==> x < |s|
    ensures forall x: nat :: x < |s| ==> x in s
  {
    ElementsSize(s);
    BelowSize(|s|);
    assert Elements(s) <= Below(|s|);
    SubsetOfSameSize(Elements(s), Below(|s|));
    forall x: nat | x < |s| ensures x in s { assert x in Below(|s|); }
  }

  /** There are no more than n different numbers below n. */
  lemma DistinctBelow(s: seq<nat>, n: nat)
    requires NoDuplicates(s)
    requires forall x :: x in s ==> x < n
    ensures |s| <= n
  {
    ElementsSize(s);
    BelowSize(n);
    assert Elements(s) <= Below(n);
    SubsetSize(Elements(s), Below(n));
  }

  lemma {:induction false} SizeOfElements<T>(s: seq<T>)
    ensures |Elements(s)| <= |s|
  {
    if s != [] {
      var t := s[..|s| - 1];
      SizeOfElements(t);
      assert s == t + [s[|s| - 1]];
      assert Elements(s) == Elements(t) + {s[|s| - 1]};
    }
  }
}
