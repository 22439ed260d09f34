/** The multiplicative group that orders the targets (HMapc/src/cyclic.c): which exponents
    turn a known primitive root into another generator, and what a generator enumerates. */
module Cyclic {
  import opened Numbers

  // ------------------------------------------------------------- divisibility

  predicate Divides(d: nat, a: nat) {
    d > 0 && a % d == 0
  }

  ghost predicate Prime(q: nat) {
    q > 1 && forall d: nat :: Divides(d, q) ==> d == 1 || d == q
  }

  /** No common divisor but 1. */
  ghost predicate Coprime(a: nat, b: nat) {
    forall d: nat :: Divides(d, a) && Divides(d, b) ==> d == 1
  }

  lemma DividesFromProduct(d: nat, a: nat, q: int)
    requires d > 0 && a == q * d
    ensures Divides(d, a)
  {
    DivModUnique(a, d, q, 0);
  }

  lemma DividesProduct(d: nat, q: nat)
    requires d > 0
    ensures Divides(d, q * d)
  {
    DividesFromProduct(d, q * d, q);
  }

  lemma DividesTrans(d: nat, e: nat, a: nat)
    requires Divides(d, e) && Divides(e, a)
    ensures Divides(d, a)
  {
    var x, y := e / d, a / e;
    assert e == x * d && a == y * e;
    assert a == (y * x) * d by { assert y * (x * d) == (y * x) * d; }
    DividesFromProduct(d, a, y * x);
  }

  lemma DividesSum(d: nat, a: int, b: int)
    requires d > 0 && a % d == 0 && b % d == 0
    ensures (a + b) % d == 0
  {
    ModOfSum(a, b, d);
  }

  lemma DividesMultiple(d: nat, a: int, x: int)
    requires d > 0 && a % d == 0
    ensures (a * x) % d == 0
  {
    ModOfProduct(a, x, d);
    assert (0 * x) % d == 0;
  }

  lemma DivisorBound(d: nat, a: nat)
    requires Divides(d, a) && a > 0
    ensures d <= a
  {
    if d > a { DivModUnique(a, d, 0, a); }
  }

  lemma {:induction false} PrimeDivisor(d: nat) returns (q: nat)
    requires d > 1
    ensures Prime(q) && Divides(q, d)
    decreases d
  {
    if Prime(d) {
      q := d;
    } else {
      var e: nat :| Divides(e, d) && e != 1 && e != d;
      DivisorBound(e, d);
      q := PrimeDivisor(e);
      DividesTrans(q, e, d);
    }
  }

  /** Bezout's identity. */
  lemma {:induction false} Bezout(a: nat, b: nat) returns (x: int, y: int, d: nat)
    requires a + b > 0
    ensures Divides(d, a) && Divides(d, b)
    ensures a * x + b * y == d
    decreases b
  {
    if b == 0 {
      x, y, d := 1, 0, a;
      DivModUnique(a, a, 1, 0);
    } else {
      var q, r := a / b, a % b;
      var x', y', d' := Bezout(b, r);
      x, y, d := y', x' - q * y', d';
      assert a == q * b + r;
      assert a * x + b * y == b * x' + r * y' by { BezoutStep(a, b, q, r, x', y'); }
      DividesMultiple(d, b, q);
      DividesSum(d, b * q, r);
      assert b * q + r == a;
    }
  }

  lemma BezoutStep(a: int, b: int, q: int, r: int, x: int, y: int)
    requires a == q * b + r
    ensures a * y + b * (x - q * y) == b * x + r * y
  {
    assert a * y == q * b * y + r * y;
    assert b * (x - q * y) == b * x - b * q * y;
    assert q * b * y == b * q * y;
  }

  /** Euclid's lemma: a factor coprime to the modulus can be cancelled. */
  lemma EuclidLemma(c: nat, i: nat, n: nat)
    requires n > 0 && Coprime(c, n) && Divides(n, c * i)
    ensures Divides(n, i)
  {
    var x, y, d := Bezout(c, n);
    assert d == 1;
    assert i == (c * i) * x + (n * i) * y by {
      assert (c * x + n * y) * i == c * x * i + n * y * i;
      assert c * x * i == (c * i) * x;
      assert n * y * i == (n * i) * y;
    }
    DividesMultiple(n, c * i, x);
    DividesFromProduct(n, n * i, i);
    DividesMultiple(n, n * i, y);
    DividesSum(n, (c * i) * x, (n * i) * y);
  }

  // ------------------------------------------------------------- powers modulo p

  /** a * b modulo p, added up (see MulModIsProduct). */
  function MulMod(a: nat, b: nat, p: nat): (r: nat)
    requires b < p
    ensures r < p
    decreases a
  {
    if a == 0 then 0
    else
      var sum := MulMod(a - 1, b, p) + b;
      if sum >= p then sum - p else sum
  }

  lemma {:induction false} MulModIsProduct(a: nat, b: nat, p: nat)
    requires b < p
    ensures MulMod(a, b, p) == (a * b) % p
    decreases a
  {
    if a == 0 {
      DivModUnique(0, p, 0, 0);
      assert a * b == 0;
    } else {
      MulModIsProduct(a - 1, b, p);
      assert (a - 1) * b + b == a * b;
      AddReduced((a - 1) * b, b, p);
    }
  }

  lemma AddReduced(x: nat, b: nat, p: nat)
    requires b < p
    ensures (x + b) % p == if x % p + b >= p then x % p + b - p else x % p + b
  {
    var q, r := x / p, x % p;
    assert x == q * p + r;
    if r + b >= p { DivModUnique(x + b, p, q + 1, r + b - p); } else { DivModUnique(x + b, p, q, r + b); }
  }

  lemma {:induction false} MulModZero(a: nat, p: nat)
    requires p > 0
    ensures MulMod(a, 0, p) == 0
  {
    if a > 0 { MulModZero(a - 1, p); }
  }

  /** mpz_powm */
  function PowMod(g: nat, e: nat, p: nat): (r: nat)
    requires p > 1
    ensures r < p
    decreases e
  {
    if e == 0 then 1 else MulMod(g, PowMod(g, e - 1, p), p)
  }

  function Pow(g: nat, e: nat): nat {
    if e == 0 then 1 else g * Pow(g, e - 1)
  }

  lemma {:induction false} PowModIsPower(g: nat, e: nat, p: nat)
    requires p > 1
    ensures PowMod(g, e, p) == Pow(g, e) % p
    decreases e
  {
    if e == 0 {
      DivModUnique(1, p, 0, 1);
    } else {
      PowModIsPower(g, e - 1, p);
      MulModIsProduct(g, PowMod(g, e - 1, p), p);
      ModOfProduct(Pow(g, e - 1), g, p);
      assert g * Pow(g, e - 1) == Pow(g, e - 1) * g;
      assert g * PowMod(g, e - 1, p) == PowMod(g, e - 1, p) * g;
    }
  }

  lemma {:induction false} MulModAdd(a: nat, b: nat, c: nat, p: nat)
    requires c < p
    ensures var sum := MulMod(a, c, p) + MulMod(b, c, p);
            MulMod(a + b, c, p) == if sum >= p then sum - p else sum
    decreases a
  {
    if a > 0 {
      MulModAdd(a - 1, b, c, p);
      assert a + b - 1 == (a - 1) + b;
    }
  }

  lemma MulModReduce(a: nat, c: nat, p: nat)
    requires c < p && a >= p
    ensures MulMod(a, c, p) == MulMod(a - p, c, p)
  {
    MulModAdd(a - p, p, c, p);
    MulModIsProduct(p, c, p);
    DivModUnique(p * c, p, c, 0);
  }

  lemma {:induction false} MulModAssoc(a: nat, b: nat, c: nat, p: nat)
    requires b < p && c < p
    ensures MulMod(MulMod(a, b, p), c, p) == MulMod(a, MulMod(b, c, p), p)
    decreases a
  {
    if a > 0 {
      MulModAssoc(a - 1, b, c, p);
      var x := MulMod(a - 1, b, p);
      MulModAdd(x, b, c, p);
      if x + b >= p { MulModReduce(x + b, c, p); }
    }
  }

  lemma MulModOne(a: nat, p: nat)
    requires a < p
    ensures MulMod(1, a, p) == a
  {
    assert MulMod(0, a, p) == 0;
  }

  lemma {:induction false} PowAdd(g: nat, a: nat, b: nat, p: nat)
    requires p > 1
    ensures PowMod(g, a + b, p) == MulMod(PowMod(g, a, p), PowMod(g, b, p), p)
    decreases a
  {
    if a == 0 {
      MulModOne(PowMod(g, b, p), p);
    } else {
      PowAdd(g, a - 1, b, p);
      MulModAssoc(g, PowMod(g, a - 1, p), PowMod(g, b, p), p);
    }
  }

  lemma {:induction false} PowOfPow(g: nat, a: nat, b: nat, p: nat)
    requires p > 1
    ensures PowMod(PowMod(g, a, p), b, p) == PowMod(g, a * b, p)
    decreases b
  {
    if b == 0 {
      assert a * b == 0;
    } else {
      PowOfPow(g, a, b - 1, p);
      assert a * b == a + a * (b - 1);
      PowAdd(g, a, a * (b - 1), p);
    }
  }

  // ------------------------------------------------------------- generators

  /** The powers g^1 .. g^(p-2) differ from 1 and g^(p-1) is 1: g has order p-1. */
  ghost predicate Generator(g: nat, p: nat) {
    && p > 1 && 1 <= g < p
    && PowMod(g, p - 1, p) == 1
    && forall i: nat :: 0 < i < p - 1 ==> PowMod(g, i, p) != 1
  }

  lemma PowPeriodic(g: nat, p: nat, e: nat)
    requires Generator(g, p)
    ensures PowMod(g, e + (p - 1), p) == PowMod(g, e, p)
  {
    PowAdd(g, p - 1, e, p);
    MulModOne(PowMod(g, e, p), p);
  }

  lemma {:induction false} PowReduced(g: nat, p: nat, e: nat)
    requires Generator(g, p)
    ensures PowMod(g, e, p) == PowMod(g, e % (p - 1), p)
    decreases e
  {
    var n := p - 1;
    if e < n {
      DivModUnique(e, n, 0, e);
    } else {
      PowPeriodic(g, p, e - n);
      PowReduced(g, p, e - n);
      ModOfMultiple(e, -1, n);
    }
  }

  lemma PowInverse(g: nat, p: nat, i: nat)
    requires Generator(g, p) && i <= p - 1
    ensures MulMod(PowMod(g, p - 1 - i, p), PowMod(g, i, p), p) == 1
  {
    PowAdd(g, p - 1 - i, i, p);
  }

  lemma PowNonZero(g: nat, p: nat, e: nat)
    requires Generator(g, p)
    ensures PowMod(g, e, p) != 0
  {
    PowReduced(g, p, e);
    PowInverse(g, p, e % (p - 1));
    MulModZero(PowMod(g, p - 1 - e % (p - 1), p), p);
  }

  lemma PowDistinct(g: nat, p: nat, i: nat, j: nat)
    requires Generator(g, p) && i < j < p - 1
    ensures PowMod(g, i, p) != PowMod(g, j, p)
  {
    var k := p - 1 - i;
    PowInverse(g, p, i);
    PowAdd(g, k, j, p);
    PowPeriodic(g, p, j - i);
  }

  /** Two powers of a generator are equal exactly when the exponents agree modulo p-1. */
  lemma PowEqual(g: nat, p: nat, a: nat, b: nat)
    requires Generator(g, p)
    ensures PowMod(g, a, p) == PowMod(g, b, p) <==> a % (p - 1) == b % (p - 1)
  {
    PowReduced(g, p, a);
    PowReduced(g, p, b);
    var i, j := a % (p - 1), b % (p - 1);
    if i < j { PowDistinct(g, p, i, j); } else if j < i { PowDistinct(g, p, j, i); }
  }

  /** Every number in [1, p) is a power of a generator, with one exponent below p-1. */
  lemma PowOnto(g: nat, p: nat, x: nat) returns (e: nat)
    requires Generator(g, p) && 1 <= x < p
    ensures e < p - 1 && PowMod(g, e, p) == x
  {
    var powers := seq(p - 1, i requires 0 <= i < p - 1 => PowLess(g, p, i));
    forall i, j | 0 <= i < j < |powers| ensures powers[i] != powers[j] {
      PowDistinct(g, p, i, j);
    }
    Pigeonhole(powers);
    assert x - 1 in powers;
    e :| 0 <= e < |powers| && powers[e] == x - 1;
  }

  ghost function PowLess(g: nat, p: nat, i: nat): (r: nat)
    requires Generator(g, p)
    ensures r < p - 1 && r + 1 == PowMod(g, i, p)
  {
    PowNonZero(g, p, i);
    PowMod(g, i, p) - 1
  }

  /** Raising a generator to an exponent coprime with p-1 gives a generator. */
  lemma CoprimePowerGenerates(r: nat, p: nat, c: nat)
    requires Generator(r, p) && Coprime(c, p - 1)
    ensures Generator(PowMod(r, c, p), p)
  {
    PowNonZero(r, p, c);
    LastPower(r, p, c);
    forall i: nat | 0 < i < p - 1 ensures PowMod(PowMod(r, c, p), i, p) != 1 {
      EarlierPower(r, p, c, i);
    }
  }

  /** With any other exponent the power has a smaller order. */
  lemma GeneratingPowerCoprime(r: nat, p: nat, c: nat)
    requires Generator(r, p) && p > 2 && Generator(PowMod(r, c, p), p)
    ensures Coprime(c, p - 1)
  {
    forall d: nat | Divides(d, c) && Divides(d, p - 1) ensures d == 1 {
      if d > 1 {
        var i := Cofactor(c, p - 1, d);
        PowerIsOne(r, p, c, i);
      }
    }
  }

  /** A common divisor leaves a smaller multiplier that reaches a multiple of n. */
  lemma Cofactor(c: nat, n: nat, d: nat) returns (i: nat)
    requires d > 1 && n > 0 && Divides(d, c) && Divides(d, n)
    ensures 0 < i < n && Divides(n, c * i)
  {
    i := n / d;
    var x := c / d;
    Quotient(n, d);
    Quotient(c, d);
    SmallFactor(i, d, n);
    Regroup(x, d, i);
    DividesFromProduct(n, c * i, x);
  }

  lemma Quotient(a: nat, d: nat)
    requires Divides(d, a)
    ensures a == a / d * d
  {
  }

  lemma Regroup(x: int, d: int, i: int)
    ensures (x * d) * i == x * (i * d)
  {
  }

  lemma SmallFactor(i: nat, d: nat, n: nat)
    requires n == i * d && d > 1 && n > 0
    ensures 0 < i < n
  {
    assert i > 0;
    assert i * d >= i * 2;
  }

  lemma LastPower(r: nat, p: nat, c: nat)
    requires Generator(r, p)
    ensures PowMod(PowMod(r, c, p), p - 1, p) == 1
  {
    DividesProduct(p - 1, c);
    PowerIsOne(r, p, c, p - 1);
  }

  lemma EarlierPower(r: nat, p: nat, c: nat, i: nat)
    requires Generator(r, p) && Coprime(c, p - 1) && 0 < i < p - 1
    ensures PowMod(PowMod(r, c, p), i, p) != 1
  {
    PowerIsOne(r, p, c, i);
    if Divides(p - 1, c * i) {
      EuclidLemma(c, i, p - 1);
      DivisorBound(p - 1, i);
    }
  }

  lemma PowerIsOne(r: nat, p: nat, c: nat, i: nat)
    requires Generator(r, p)
    ensures PowMod(PowMod(r, c, p), i, p) == 1 <==> Divides(p - 1, c * i)
  {
    PowOfPow(r, c, i, p);
    PowEqual(r, p, c * i, 0);
    DivModUnique(0, p - 1, 0, 0);
  }

  // ------------------------------------------------------------- cyclic.c

  /** cyclic_group_t: prime, primitive root and the distinct prime factors of prime - 1. */
  datatype Group = Group(prime: nat, knownPrimroot: nat, primeFactors: seq<nat>)

  /** What the table entries promise. */
  ghost predicate TableEntry(group: Group) {
    && group.prime >= 5 && Prime(group.prime)
    && Generator(group.knownPrimroot, group.prime)
    && (forall q :: q in group.primeFactors ==> Prime(q) && Divides(q, group.prime - 1))
    && (forall q: nat :: Prime(q) && Divides(q, group.prime - 1) ==> q in group.primeFactors)
  }

  datatype Cycle = Cycle(group: Group, generator: nat, order: nat, offset: nat)

  ghost predicate ValidCycle(c: Cycle) {
    && TableEntry(c.group)
    && Generator(c.generator, c.group.prime)
    && c.order == c.group.prime - 1
    && c.offset < c.group.prime
  }

  /** A common divisor greater than 1 shows in some prime factor of the table. */
  lemma CoprimeByFactors(check: nat, group: Group)
    requires TableEntry(group) && check > 1
    ensures Coprime(check, group.prime - 1) <==>
              forall q :: q in group.primeFactors ==> !Divides(q, check)
  {
    if forall q :: q in group.primeFactors ==> !Divides(q, check) {
      forall d: nat | Divides(d, check) && Divides(d, group.prime - 1) ensures d == 1 {
        if d > 1 {
          var q := PrimeDivisor(d);
          DividesTrans(q, d, check);
          DividesTrans(q, d, group.prime - 1);
        }
      }
    }
  }

  /** is_coprime */
  method IsCoprime(check: nat, group: Group) returns (flag: bool)
    requires TableEntry(group)
    ensures flag <==> check > 1 && Coprime(check, group.prime - 1)
  {
    if check == 0 || check == 1 {
      return false;
    }
    CoprimeByFactors(check, group);
    var i := 0;
    while i < |group.primeFactors|
      invariant 0 <= i <= |group.primeFactors|
      invariant forall j :: 0 <= j < i ==> !Divides(group.primeFactors[j], check)
    {
      var q := group.primeFactors[i];
      assert Prime(q);
      if q > check {
        assert !Divides(check, q);
        var t := q % check;
        if t == 0 {
          return false;
        }
        DivModUnique(check, q, 0, check);
      } else if q < check {
        var t := check % q;
        if t == 0 {
          assert Divides(q, check);
          return false;
        }
      } else {
        DivModUnique(check, q, 1, 0);
        assert Divides(q, check);
        return false;
      }
      i := i + 1;
    }
    return true;
  }

  lemma NeighboursCoprime(n: nat)
    requires n >= 1
    ensures Coprime(n, n + 1)
  {
    forall d: nat | Divides(d, n) && Divides(d, n + 1) ensures d == 1 {
      if d > 1 { DivModUnique(n + 1, d, n / d, 1); }
    }
  }

  /** isomorphism: the power of the known root, again a generator exactly for the exponents
      coprime with p-1. */
  method Isomorphism(additiveElt: nat, group: Group) returns (primroot: nat)
    requires additiveElt < group.prime && TableEntry(group)
    ensures primroot == Pow(group.knownPrimroot, additiveElt) % group.prime
    ensures Generator(primroot, group.prime) <==> Coprime(additiveElt, group.prime - 1)
  {
    primroot := PowMod(group.knownPrimroot, additiveElt, group.prime);
    PowModIsPower(group.knownPrimroot, additiveElt, group.prime);
    if Coprime(additiveElt, group.prime - 1) {
      CoprimePowerGenerates(group.knownPrimroot, group.prime, additiveElt);
    }
    if Generator(primroot, group.prime) {
      GeneratingPowerCoprime(group.knownPrimroot, group.prime, additiveElt);
    }
  }

  /** The j-th candidate of the search. */
  function Tried(random: nat, j: nat, p: nat): (candidate: nat)
    requires p > 0
    ensures candidate < p
  {
    (random + j) % p
  }

  lemma NextTried(random: nat, j: nat, p: nat)
    requires p > 0
    ensures Tried(random, j + 1, p) == (Tried(random, j, p) + 1) % p
  {
    ModOfSum(random + j, 1, p);
  }

  /** The candidates that end the search. */
  ghost predicate Accepted(candidate: nat, p: nat) {
    p > 1 && candidate > 1 && Coprime(candidate, p - 1)
  }

  /** The k-th candidate from the random number is the first one accepted, and gives g. */
  ghost predicate FoundAt(group: Group, random: nat, k: nat, g: nat)
    requires group.prime > 1
  {
    && Accepted(Tried(random, k, group.prime), group.prime)
    && (forall j: nat :: j < k ==> !Accepted(Tried(random, j, group.prime), group.prime))
    && g == PowMod(group.knownPrimroot, Tried(random, k, group.prime), group.prime)
  }

  /** The generator that the search finds from a random number. */
  ghost predicate FoundFrom(group: Group, random: nat, g: nat)
    requires group.prime > 1
  {
    exists k: nat :: FoundAt(group, random, k, g)
  }

  /** Candidate c can be reached from a random number below the limit: it is below the limit
      itself, or nothing is accepted from the last random number on up to it. */
  ghost predicate Reachable(c: nat, limit: nat, p: nat) {
    c < limit || forall j: nat :: limit - 1 <= j < c ==> !Accepted(j, p)
  }

  /** The generators that the search can find from random numbers below a limit are the powers of
      the root with an accepted exponent that is reachable. */
  lemma GeneratorsFound(group: Group, g: nat, limit: nat)
    requires TableEntry(group) && limit > 0
    ensures (exists random: nat :: random < limit && FoundFrom(group, random, g))
       <==> exists c: nat :: c < group.prime && Accepted(c, group.prime) && Reachable(c, limit, group.prime)
                          && g == PowMod(group.knownPrimroot, c, group.prime)
  {
    var p := group.prime;
    if random: nat :| random < limit && FoundFrom(group, random, g) {
      var k: nat :| FoundAt(group, random, k, g);
      FoundIsReachable(group, random, k, g, limit);
      assert Accepted(Tried(random, k, p), p);
    }
    if c: nat :| c < p && Accepted(c, p) && Reachable(c, limit, p) && g == PowMod(group.knownPrimroot, c, p) {
      var random := if c < limit then c else limit - 1;
      ReachableIsFound(group, random, c, g);
      assert FoundFrom(group, random, g);
    }
  }

  lemma FoundIsReachable(group: Group, random: nat, k: nat, g: nat, limit: nat)
    requires TableEntry(group) && random < limit && FoundAt(group, random, k, g)
    ensures Reachable(Tried(random, k, group.prime), limit, group.prime)
  {
    var p := group.prime;
    if limit < p {
      NoWrap(group, random, k, g);
      forall j: nat | limit - 1 <= j < random + k ensures !Accepted(j, p) {
        DivModUnique(j, p, 0, j);
        assert Tried(random, j - random, p) == j;
      }
    }
  }

  /** The search ends at p-2 at the latest. */
  lemma NoWrap(group: Group, random: nat, k: nat, g: nat)
    requires TableEntry(group) && random < group.prime - 1 && FoundAt(group, random, k, g)
    ensures random + k < group.prime && Tried(random, k, group.prime) == random + k
  {
    var p := group.prime;
    NeighboursCoprime(p - 2);
    DivModUnique(p - 2, p, 0, p - 2);
    assert Tried(random, p - 2 - random, p) == p - 2;
    assert Accepted(p - 2, p);
    DivModUnique(random + k, p, 0, random + k);
  }

  lemma ReachableIsFound(group: Group, random: nat, c: nat, g: nat)
    requires TableEntry(group) && random <= c < group.prime && Accepted(c, group.prime)
    requires forall j: nat :: random <= j < c ==> !Accepted(j, group.prime)
    requires g == PowMod(group.knownPrimroot, c, group.prime)
    ensures FoundFrom(group, random, g)
  {
    var p := group.prime;
    forall j: nat | j <= c - random ensures Tried(random, j, p) == random + j {
      DivModUnique(random + j, p, 0, random + j);
    }
    assert FoundAt(group, random, c - random, g);
  }

  /** With a limit no smaller than the prime those are all generators but the root in the table. */
  lemma AllButTheRoot(group: Group, g: nat, limit: nat)
    requires TableEntry(group) && limit >= group.prime
    ensures (exists random: nat :: random < limit && FoundFrom(group, random, g))
       <==> Generator(g, group.prime) && g != group.knownPrimroot
  {
    var p, r := group.prime, group.knownPrimroot;
    GeneratorsFound(group, g, limit);
    assert PowMod(r, 1, p) == r by { PowModIsPower(r, 1, p); assert Pow(r, 0) == 1; DivModUnique(r, p, 0, r); }
    if c: nat :| c < p && Accepted(c, p) && g == PowMod(r, c, p) {
      CoprimePowerGenerates(r, p, c);
      NotTheRoot(c, p);
      PowEqual(r, p, c, 1);
    }
    if Generator(g, p) && g != r {
      var c := PowOnto(r, p, g);
      GeneratingPowerCoprime(r, p, c);
      NotZero(c, p);
      assert Accepted(c, p);
    }
  }

  lemma NotTheRoot(c: nat, p: nat)
    requires 1 < c < p && p >= 5 && Coprime(c, p - 1)
    ensures c % (p - 1) != 1 % (p - 1)
  {
    DivModUnique(1, p - 1, 0, 1);
    if c == p - 1 { DivModUnique(c, p - 1, 1, 0); } else { DivModUnique(c, p - 1, 0, c); }
  }

  lemma NotZero(c: nat, p: nat)
    requires p >= 5 && Coprime(c, p - 1)
    ensures c != 0
  {
    if c == 0 {
      DivModUnique(p - 1, p - 1, 1, 0);
      DivModUnique(0, p - 1, 0, 0);
      assert Divides(p - 1, c) && Divides(p - 1, p - 1);
    }
  }

  /** How many increments modulo p lead from the candidate to p-2. */
  function Distance(candidate: nat, p: nat): nat
    requires candidate < p && p >= 5
  {
    if candidate <= p - 2 then p - 2 - candidate else p - 1
  }

  lemma NextCandidate(candidate: nat, p: nat)
    requires candidate < p && p >= 5 && candidate != p - 2
    ensures (candidate + 1) % p < p && Distance((candidate + 1) % p, p) < Distance(candidate, p)
  {
    if candidate + 1 == p {
      DivModUnique(candidate + 1, p, 1, 0);
    } else {
      DivModUnique(candidate + 1, p, 0, candidate + 1);
    }
  }

  /** find_primroot: from any random start the search ends, at a generator. */
  method FindPrimroot(group: Group, random: nat) returns (primroot: nat)
    requires TableEntry(group)
    ensures Generator(primroot, group.prime) && FoundFrom(group, random, primroot)
  {
    var p := group.prime;
    var candidate: nat := random % p;
    NeighboursCoprime(p - 2);
    var accepted := IsCoprime(candidate, group);
    ghost var k: nat := 0;
    while !accepted
      invariant candidate < p && candidate == Tried(random, k, p)
      invariant accepted <==> Accepted(candidate, p)
      invariant forall j: nat :: j < k ==> !Accepted(Tried(random, j, p), p)
      decreases Distance(candidate, p)
    {
      NextCandidate(candidate, p);
      NextTried(random, k, p);
      candidate := (candidate + 1) % p;
      k := k + 1;
      accepted := IsCoprime(candidate, group);
    }
    primroot := Isomorphism(candidate, group);
    PowModIsPower(group.knownPrimroot, candidate, p);
    assert FoundAt(group, random, k, primroot);
  }

  /** The first group of a table whose prime exceeds a size. */
  ghost predicate FirstAbove(groups: seq<Group>, minSize: nat, group: Group) {
    exists i :: 0 <= i < |groups| && group == groups[i] && group.prime > minSize &&
                forall j :: 0 <= j < i ==> groups[j].prime <= minSize
  }

  /** get_group: the first group of the table that is large enough. */
  method GetGroup(groups: seq<Group>, minSize: nat) returns (group: Group)
    requires exists k :: 0 <= k < |groups| && groups[k].prime > minSize
    ensures group in groups && group.prime > minSize
    ensures FirstAbove(groups, minSize, group)
  {
    group := groups[0];
    var i := 0;
    while i < |groups|
      invariant 0 <= i <= |groups|
      invariant forall j :: 0 <= j < i ==> groups[j].prime <= minSize
    {
      if groups[i].prime > minSize {
        return groups[i];
      }
      i := i + 1;
    }
    assert false;
  }

  /** The cycle made from two random numbers. */
  ghost predicate MadeFrom(cycle: Cycle, random0: nat, random1: nat) {
    && cycle.group.prime > 1
    && FoundFrom(cycle.group, random0, cycle.generator)
    && cycle.order == cycle.group.prime - 1
    && cycle.offset == random1 % cycle.group.prime
  }

  /** make_cycle */
  method MakeCycle(group: Group, random0: nat, random1: nat) returns (cycle: Cycle)
    requires TableEntry(group)
    ensures ValidCycle(cycle) && cycle.group == group && MadeFrom(cycle, random0, random1)
  {
    var generator := FindPrimroot(group, random0);
    cycle := Cycle(group, generator, group.prime - 1, random1 % group.prime);
  }
}
