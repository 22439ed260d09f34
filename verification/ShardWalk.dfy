/** What the subshards of a scan enumerate, as sequences: the cycle of the group, cut into
    ranges of exponents, filtered to valid indices, numbered targets and accepted slots. */
module ShardWalk {
  import opened Numbers
  import opened Cyclic
  import opened Blocklist

  ghost predicate AllBelow(xs: seq<nat>, n: nat) {
    xs == [] || (xs[0] < n && AllBelow(xs[1..], n))
  }

  // ------------------------------------------------------------- the walk through the group

  /** The group element at distance f from the start of the cycle. */
  ghost function Element(c: Cycle, f: nat): (x: nat)
    requires ValidCycle(c)
    ensures 1 <= x < c.group.prime
  {
    PowNonZero(c.generator, c.group.prime, c.offset + f);
    PowMod(c.generator, c.offset + f, c.group.prime)
  }

  lemma ElementIs(c: Cycle, f: nat)
    requires ValidCycle(c)
    ensures Element(c, f) == Pow(c.generator, c.offset + f) % c.group.prime
  {
    PowModIsPower(c.generator, c.offset + f, c.group.prime);
  }

  /** The indices below maxIndex that a walk over the exponents [from, end) meets, in order. */
  ghost function Walk(c: Cycle, maxIndex: nat, from: nat, end: nat): (w: seq<nat>)
    requires ValidCycle(c)
    ensures AllBelow(w, maxIndex)
    decreases end - from
  {
    if from >= end then []
    else
      var rest := Walk(c, maxIndex, from + 1, end);
      if Element(c, from) <= maxIndex then
        assert ([Element(c, from) - 1] + rest)[1..] == rest;
        [Element(c, from) - 1] + rest
      else rest
  }

  lemma WalkUnfolds(c: Cycle, maxIndex: nat, from: nat, end: nat)
    requires ValidCycle(c) && from < end
    ensures var x, rest := Element(c, from), Walk(c, maxIndex, from + 1, end);
      Walk(c, maxIndex, from, end) == if x <= maxIndex then [x - 1] + rest else rest
  {
  }

  lemma {:induction false} WalkJoins(c: Cycle, maxIndex: nat, a: nat, b: nat, d: nat)
    requires ValidCycle(c) && a <= b <= d
    ensures Walk(c, maxIndex, a, d) == Walk(c, maxIndex, a, b) + Walk(c, maxIndex, b, d)
    decreases b - a
  {
    if a < b { WalkJoins(c, maxIndex, a + 1, b, d); }
  }

  /** Elements repeat exactly with the order of the group. */
  lemma ElementsDiffer(c: Cycle, e: nat, f: nat)
    requires ValidCycle(c) && e < f < e + c.order
    ensures Element(c, e) != Element(c, f)
  {
    var n := c.order;
    PowEqual(c.generator, c.group.prime, c.offset + e, c.offset + f);
    if (c.offset + e) % n == (c.offset + f) % n { SameRemainder(c.offset + e, c.offset + f, n); }
  }

  lemma SameRemainder(a: nat, b: nat, n: nat)
    requires n > 0 && a < b && a % n == b % n
    ensures b >= a + n
  {
    var x, y := a / n, b / n;
    assert a == x * n + a % n && b == y * n + b % n;
    if x < y { MulStep(x, y, n); } else if y < x { MulStep(y, x, n); }
  }

  lemma ElementPeriod(c: Cycle, e: nat)
    requires ValidCycle(c)
    ensures Element(c, e + c.order) == Element(c, e)
  {
    PowPeriodic(c.generator, c.group.prime, c.offset + e);
  }

  lemma {:induction false} InWalk(c: Cycle, maxIndex: nat, from: nat, end: nat, x: nat)
    requires ValidCycle(c)
    ensures x in Walk(c, maxIndex, from, end) <==>
              x < maxIndex && exists f :: from <= f < end && Element(c, f) == x + 1
    decreases end - from
  {
    if from < end {
      InWalk(c, maxIndex, from + 1, end, x);
      if x < maxIndex && exists f :: from <= f < end && Element(c, f) == x + 1 {
        var f :| from <= f < end && Element(c, f) == x + 1;
        if f == from { assert Walk(c, maxIndex, from, end)[0] == x; }
      }
    }
  }

  lemma {:induction false} WalkNoDuplicates(c: Cycle, maxIndex: nat, from: nat, end: nat)
    requires ValidCycle(c) && end <= from + c.order
    ensures NoDuplicates(Walk(c, maxIndex, from, end))
    decreases end - from
  {
    if from < end {
      WalkNoDuplicates(c, maxIndex, from + 1, end);
      var x := Element(c, from) - 1;
      InWalk(c, maxIndex, from + 1, end, x);
      if x in Walk(c, maxIndex, from + 1, end) {
        var f :| from + 1 <= f < end && Element(c, f) == x + 1;
        ElementsDiffer(c, from, f);
      }
    }
  }

  /** The whole cycle meets every index exactly once. */
  lemma WalkIsComplete(c: Cycle, maxIndex: nat)
    requires ValidCycle(c) && maxIndex < c.group.prime
    ensures NoDuplicates(Walk(c, maxIndex, 0, c.order))
    ensures forall x: nat :: x in Walk(c, maxIndex, 0, c.order) <==> x < maxIndex
  {
    WalkNoDuplicates(c, maxIndex, 0, c.order);
    forall x: nat ensures x in Walk(c, maxIndex, 0, c.order) <==> x < maxIndex {
      InWalk(c, maxIndex, 0, c.order, x);
      if x < maxIndex {
        var e := PowOnto(c.generator, c.group.prime, x + 1);
        var f := FromOffset(c, e);
        assert Element(c, f) == x + 1;
      }
    }
  }

  /** The distance from the start of the cycle to the element with exponent e. */
  lemma FromOffset(c: Cycle, e: nat) returns (f: nat)
    requires ValidCycle(c) && e < c.order
    ensures f < c.order && Element(c, f) == PowMod(c.generator, e, c.group.prime)
  {
    var n, s := c.order, c.offset % c.order;
    f := if e >= s then e - s else e + n - s;
    RemainderOfDistance(c.offset, e, f, n);
    PowEqual(c.generator, c.group.prime, c.offset + f, e);
  }

  lemma RemainderOfDistance(offset: nat, e: nat, f: nat, n: nat)
    requires e < n
    requires f == if e >= offset % n then e - offset % n else e + n - offset % n
    ensures f < n && (offset + f) % n == e % n
  {
    var k, s := offset / n, offset % n;
    assert offset == k * n + s;
    DivModUnique(e, n, 0, e);
    if e >= s { DivModUnique(offset + f, n, k, e); } else { DivModUnique(offset + f, n, k + 1, e); }
  }

  // ------------------------------------------------------------- subshards

  /** n subshards of a cycle; each but the last takes order / n exponents. */
  ghost predicate Sharding(c: Cycle, n: nat) {
    ValidCycle(c) && 0 < n < c.order
  }

  ghost function Size(c: Cycle, n: nat): nat
    requires Sharding(c, n)
  {
    c.order / n
  }

  ghost function Begin(c: Cycle, n: nat, i: nat): nat
    requires Sharding(c, n)
  {
    if i == 0 then 0 else Begin(c, n, i - 1) + Size(c, n)
  }

  ghost function End(c: Cycle, n: nat, i: nat): nat
    requires Sharding(c, n) && i < n
  {
    if i == n - 1 then c.order else Begin(c, n, i + 1)
  }

  lemma {:induction false} BeginIsProduct(c: Cycle, n: nat, i: nat)
    requires Sharding(c, n)
    ensures Begin(c, n, i) == Size(c, n) * i
  {
    if i > 0 {
      BeginIsProduct(c, n, i - 1);
      assert Size(c, n) * i == Size(c, n) * (i - 1) + Size(c, n);
    }
  }

  lemma {:induction false} BeginMonotone(c: Cycle, n: nat, i: nat, j: nat)
    requires Sharding(c, n) && i <= j
    ensures Begin(c, n, i) <= Begin(c, n, j)
    decreases j
  {
    if i < j { BeginMonotone(c, n, i, j - 1); }
  }

  /** The ranges [Begin, End) are nonempty, adjacent, together [0, order), and of equal size but
      for the last one, which takes the rest as well. */
  lemma Ranges(c: Cycle, n: nat, i: nat)
    requires Sharding(c, n) && i < n
    ensures 0 <= Begin(c, n, i) < End(c, n, i) <= c.order
    ensures i < n - 1 ==> End(c, n, i) == Begin(c, n, i + 1)
    ensures i == n - 1 ==> End(c, n, i) == c.order
    ensures End(c, n, i) - Begin(c, n, i) == c.order / n + (if i == n - 1 then c.order % n else 0)
  {
    SizeBounds(c.order, n);
    BeginIsProduct(c, n, n);
    BeginMonotone(c, n, i + 1, n);
  }

  lemma SizeBounds(order: nat, n: nat)
    requires 0 < n <= order
    ensures order / n >= 1 && order / n * n <= order && order == order / n * n + order % n
  {
    var q, r := order / n, order % n;
    assert order == q * n + r;
    if q == 0 { DivModUnique(order, n, 0, r); }
  }

  /** The valid indices of subshard i. */
  ghost function Indices(c: Cycle, n: nat, maxIndex: nat, i: nat): seq<nat>
    requires Sharding(c, n) && i < n
  {
    Walk(c, maxIndex, Begin(c, n, i), End(c, n, i))
  }

  // ------------------------------------------------------------- targets

  /** What is probed: an address prefix, a slot of the port list, an index. */
  datatype Target = Target(ip: nat, port: nat, index: nat)

  /** target_port_num and target_index_num; 0 means the field is not used. */
  datatype Slots = Slots(ports: nat, indices: nat)

  /** init_target_port and init_target_index choose the least sufficient number of bits. */
  ghost predicate FitsSlots(s: Slots, w: Widths) {
    && s.ports <= Pow2(w.port) && s.indices <= Pow2(w.index)
    && (s.ports == 0 ==> w.port == 0) && (s.indices == 0 ==> w.index == 0)
  }

  function Split(a: nat, w: Widths): Target {
    Target(Shr(a, w.Rest()), Shr(Low(a, w.Rest()), w.index), Low(a, w.index))
  }

  predicate Accepts(t: Target, s: Slots) {
    !(s.ports != 0 && t.port >= s.ports) && !(s.indices != 0 && t.index >= s.indices)
  }

  /** The targets the scan is to probe. */
  ghost predicate Wanted(t: Target, k: Book, s: Slots) {
    && t.ip in k.allowed && Accepts(t, s)
    && t.port < Pow2(k.w.port) && t.index < Pow2(k.w.index)
  }

  /** Wanted are the allowed prefixes with each port of the list and each index, or with slot 0
      where a field is not used. */
  lemma WantedIs(t: Target, k: Book, s: Slots)
    requires FitsSlots(s, k.w)
    ensures Wanted(t, k, s) <==>
      && t.ip in k.allowed
      && t.port < (if s.ports == 0 then 1 else s.ports)
      && t.index < (if s.indices == 0 then 1 else s.indices)
  {
  }

  /** The fields of a target, from the highest bits to the lowest. */
  lemma SplitIs(a: nat, w: Widths)
    ensures var t := Split(a, w);
      && t.ip == a / (Pow2(w.port) * Pow2(w.index))
      && t.port == a / Pow2(w.index) % Pow2(w.port)
      && t.index == a % Pow2(w.index)
  {
    ShiftIsArithmetic(a, w.Rest());
    ShiftIsArithmetic(a, w.index);
    Pow2Add(w.port, w.index);
    ShrOfLow(a, w.port, w.index);
    ShiftIsArithmetic(Shr(a, w.index), w.port);
  }

  lemma {:induction false} ShrOfLow(a: nat, x: nat, y: nat)
    ensures Shr(Low(a, x + y), y) == Low(Shr(a, y), x)
    decreases y
  {
    if y > 0 {
      LowHalf(a, x + y);
      ShrOfLow(a / 2, x, y - 1);
    }
  }

  function Join(t: Target, w: Widths): nat {
    Shl(t.ip, w.Rest()) + (Shl(t.port, w.index) + t.index)
  }

  lemma SplitJoin(t: Target, w: Widths)
    requires t.port < Pow2(w.port) && t.index < Pow2(w.index)
    ensures Split(Join(t, w), w) == t
  {
    var low := Shl(t.port, w.index) + t.index;
    ShlPow2(w.port, w.index);
    ShiftUnique(low, t.port, t.index, w.index);
    ShrBelow(low, Pow2(w.port), w.index);
    ShiftUnique(Join(t, w), t.ip, low, w.Rest());
    LowLow(Join(t, w), w.index, w.port);
  }

  lemma {:induction false} LowLow(a: nat, x: nat, y: nat)
    ensures Low(Low(a, x + y), x) == Low(a, x)
    decreases x
  {
    if x > 0 {
      LowLow(a / 2, x - 1, y);
      LowHalf(a, x + y);
    }
  }

  lemma LowHalf(a: nat, k: nat)
    requires k > 0
    ensures Low(a, k) / 2 == Low(a / 2, k - 1) && Low(a, k) % 2 == a % 2
  {
  }

  lemma JoinSplit(a: nat, w: Widths)
    ensures Join(Split(a, w), w) == a
    ensures Split(a, w).port < Pow2(w.port) && Split(a, w).index < Pow2(w.index)
  {
    ShiftParts(a, w.Rest());
    var low := Low(a, w.Rest());
    ShiftParts(low, w.index);
    LowLow(a, w.index, w.port);
    ShlPow2(w.port, w.index);
    ShrBelow(low, Pow2(w.port), w.index);
  }

  /** The results for a sequence of numbers, one after the other. */
  ghost function Chain<T>(f: nat -> seq<T>, xs: seq<nat>): seq<T> {
    if xs == [] then [] else f(xs[0]) + Chain(f, xs[1..])
  }

  lemma {:induction false} ChainJoins<T>(f: nat -> seq<T>, xs: seq<nat>, ys: seq<nat>)
    ensures Chain(f, xs + ys) == Chain(f, xs) + Chain(f, ys)
  {
    if xs == [] {
      assert xs + ys == ys;
    } else {
      ChainJoins(f, xs[1..], ys);
      assert (xs + ys)[0] == xs[0] && (xs + ys)[1..] == xs[1..] + ys;
      assert Chain(f, xs + ys) == f(xs[0]) + Chain(f, xs[1..] + ys);
    }
  }

  lemma {:induction false} InChain<T>(f: nat -> seq<T>, xs: seq<nat>, t: T)
    ensures t in Chain(f, xs) <==> exists x :: x in xs && t in f(x)
  {
    if xs != [] {
      InChain(f, xs[1..], t);
      if x :| x in xs && t in f(x) {
        if x != xs[0] { assert x in xs[1..]; }
      }
    }
  }

  /** The target of an index, if its slots are used. */
  ghost function Emitted(k: Book, s: Slots, x: nat): seq<Target>
    requires k.Valid()
  {
    if x < k.Targets() && Accepts(Split(k.TargetAt(x), k.w), s) then [Split(k.TargetAt(x), k.w)] else []
  }

  ghost function Emitter(k: Book, s: Slots): nat -> seq<Target>
    requires k.Valid()
  {
    (x: nat) => Emitted(k, s, x)
  }

  /** The targets probed for a sequence of indices. */
  ghost function Emits(k: Book, s: Slots, xs: seq<nat>): (ts: seq<Target>)
    requires k.Valid() && AllBelow(xs, k.Targets())
  {
    Chain(Emitter(k, s), xs)
  }

  lemma InEmits(k: Book, s: Slots, xs: seq<nat>, t: Target)
    requires k.Valid() && AllBelow(xs, k.Targets())
    ensures t in Emits(k, s, xs) <==>
              Accepts(t, s) && exists x :: x in xs && x < k.Targets() && t == Split(k.TargetAt(x), k.w)
  {
    var f := Emitter(k, s);
    InChain(f, xs, t);
    if t in Emits(k, s, xs) {
      var x :| x in xs && t in f(x);
      assert t in Emitted(k, s, x);
    }
    if Accepts(t, s) && exists x :: x in xs && x < k.Targets() && t == Split(k.TargetAt(x), k.w) {
      var x :| x in xs && x < k.Targets() && t == Split(k.TargetAt(x), k.w);
      assert t in f(x);
    }
  }

  lemma DifferentTargets(k: Book, x: nat, y: nat)
    requires k.Valid() && x < k.Targets() && y < k.Targets()
    requires Split(k.TargetAt(x), k.w) == Split(k.TargetAt(y), k.w)
    ensures x == y
  {
    JoinSplit(k.TargetAt(x), k.w);
    JoinSplit(k.TargetAt(y), k.w);
    k.Numbering();
    assert k.IndexOf(k.TargetAt(x)) == x && k.IndexOf(k.TargetAt(y)) == y;
  }

  lemma {:induction false} EmitsNoDuplicates(k: Book, s: Slots, xs: seq<nat>)
    requires k.Valid() && AllBelow(xs, k.Targets()) && NoDuplicates(xs)
    ensures NoDuplicates(Emits(k, s, xs))
  {
    if xs != [] {
      EmitsNoDuplicates(k, s, xs[1..]);
      var t := Split(k.TargetAt(xs[0]), k.w);
      InEmits(k, s, xs[1..], t);
      if t in Emits(k, s, xs[1..]) {
        var x :| x in xs[1..] && x < k.Targets() && t == Split(k.TargetAt(x), k.w);
        DifferentTargets(k, x, xs[0]);
      }
    }
  }

  /** All indices together are emitted as the wanted targets, each once. */
  lemma EmitsWanted(k: Book, s: Slots, xs: seq<nat>)
    requires k.Valid() && NoDuplicates(xs) && AllBelow(xs, k.Targets())
    requires forall x: nat :: x < k.Targets() ==> x in xs
    ensures NoDuplicates(Emits(k, s, xs))
    ensures forall t :: t in Emits(k, s, xs) <==> Wanted(t, k, s)
  {
    EmitsNoDuplicates(k, s, xs);
    forall t ensures t in Emits(k, s, xs) <==> Wanted(t, k, s) {
      InEmits(k, s, xs, t);
      k.Numbering();
      if t in Emits(k, s, xs) {
        var x :| x in xs && x < k.Targets() && t == Split(k.TargetAt(x), k.w);
        JoinSplit(k.TargetAt(x), k.w);
      }
      if Wanted(t, k, s) {
        SplitJoin(t, k.w);
        var a := Join(t, k.w);
        ShlPow2(k.w.ip, k.w.Rest());
        ShrBelow(a, Pow2(k.w.ip), k.w.Rest());
        var x := k.IndexOf(a);
        assert x in xs && t == Split(k.TargetAt(x), k.w);
      }
    }
  }

  // ------------------------------------------------------------- whole scans

  /** A shard without any valid index still looks up the target numbered -1, and probes it
      when its slots are accepted and its prefix is not the end marker. */
  ghost predicate StrayIsProbed(k: Book, s: Slots)
    requires k.Valid()
  {
    Accepts(Split(k.Stray(), k.w), s) && Split(k.Stray(), k.w).ip != 0
  }

  /** What a sender probes when its subshard has the given valid indices. */
  ghost function Run(k: Book, s: Slots, xs: seq<nat>): seq<Target>
    requires k.Valid() && AllBelow(xs, k.Targets())
  {
    if xs != [] then Emits(k, s, xs)
    else if StrayIsProbed(k, s) then [Split(k.Stray(), k.w)]
    else []
  }

  /** The probes of the first m of n subshards. */
  ghost function Runs(k: Book, s: Slots, c: Cycle, n: nat, m: nat): seq<Target>
    requires k.Valid() && Sharding(c, n) && m <= n
  {
    if m == 0 then []
    else Runs(k, s, c, n, m - 1) + Run(k, s, Indices(c, n, k.Targets(), m - 1))
  }

  lemma NextOfRuns(k: Book, s: Slots, c: Cycle, n: nat, m: nat)
    requires k.Valid() && Sharding(c, n) && m < n
    ensures Runs(k, s, c, n, m + 1) == Runs(k, s, c, n, m) + Run(k, s, Indices(c, n, k.Targets(), m))
  {
  }

  /** How many of the first m subshards have no valid index. */
  ghost function Empty(k: Book, c: Cycle, n: nat, m: nat): nat
    requires k.Valid() && Sharding(c, n) && m <= n
  {
    if m == 0 then 0
    else Empty(k, c, n, m - 1) + (if Indices(c, n, k.Targets(), m - 1) == [] then 1 else 0)
  }

  ghost function RangeEnd(c: Cycle, n: nat, m: nat): nat
    requires Sharding(c, n) && m <= n
  {
    if m == n then c.order else Begin(c, n, m)
  }

  ghost function Occurrences(ts: seq<Target>, t: Target): nat {
    if ts == [] then 0 else (if ts[0] == t then 1 else 0) + Occurrences(ts[1..], t)
  }

  lemma {:induction false} OccurrencesAdd(ts: seq<Target>, us: seq<Target>, t: Target)
    ensures Occurrences(ts + us, t) == Occurrences(ts, t) + Occurrences(us, t)
  {
    if ts == [] {
      assert ts + us == us;
    } else {
      OccurrencesAdd(ts[1..], us, t);
      assert (ts + us)[1..] == ts[1..] + us;
    }
  }

  /** 1 for the stray target if it is probed, 0 for every other target. */
  ghost function StrayFactor(k: Book, s: Slots, t: Target): (r: nat)
    requires k.Valid()
    ensures r <= 1
  {
    if StrayIsProbed(k, s) && t == Split(k.Stray(), k.w) then 1 else 0
  }

  lemma RunCount(k: Book, s: Slots, xs: seq<nat>, t: Target)
    requires k.Valid() && AllBelow(xs, k.Targets())
    ensures Occurrences(Run(k, s, xs), t) ==
              Occurrences(Emits(k, s, xs), t) + if xs == [] then StrayFactor(k, s, t) else 0
  {
  }

  /** What the walk over the ranges of the first m subshards emits. */
  ghost function WalkTargets(k: Book, s: Slots, c: Cycle, n: nat, m: nat): seq<Target>
    requires k.Valid() && Sharding(c, n) && m <= n
  {
    Emits(k, s, Walk(c, k.Targets(), 0, RangeEnd(c, n, m)))
  }

  lemma WalkGrows(k: Book, s: Slots, c: Cycle, n: nat, m: nat)
    requires k.Valid() && Sharding(c, n) && 0 < m <= n
    ensures WalkTargets(k, s, c, n, m)
         == WalkTargets(k, s, c, n, m - 1) + Emits(k, s, Indices(c, n, k.Targets(), m - 1))
  {
    Ranges(c, n, m - 1);
    var lo, hi := Begin(c, n, m - 1), End(c, n, m - 1);
    WalkJoins(c, k.Targets(), 0, lo, hi);
    ChainJoins(Emitter(k, s), Walk(c, k.Targets(), 0, lo), Walk(c, k.Targets(), lo, hi));
  }

  /** How often t is probed by the first m subshards beyond what the walk emits. */
  ghost function Excess(k: Book, s: Slots, c: Cycle, n: nat, m: nat, t: Target): int
    requires k.Valid() && Sharding(c, n) && m <= n
  {
    Occurrences(Runs(k, s, c, n, m), t) - Occurrences(WalkTargets(k, s, c, n, m), t)
  }

  ghost function StrayProbes(k: Book, s: Slots, c: Cycle, n: nat, m: nat, t: Target): int
    requires k.Valid() && Sharding(c, n) && m <= n
  {
    if StrayFactor(k, s, t) == 1 then Empty(k, c, n, m) else 0
  }

  /** The probes are those of the walk, plus one stray probe for each empty subshard. */
  lemma {:induction false} RunsCount(k: Book, s: Slots, c: Cycle, n: nat, m: nat, t: Target)
    requires k.Valid() && Sharding(c, n) && m <= n
    ensures Excess(k, s, c, n, m, t) == StrayProbes(k, s, c, n, m, t)
  {
    if m == 0 {
      CountsStart(k, s, c, n, t);
    } else {
      RunsCount(k, s, c, n, m - 1, t);
      CountsStep(k, s, c, n, m, t);
    }
  }

  lemma CountsStart(k: Book, s: Slots, c: Cycle, n: nat, t: Target)
    requires k.Valid() && Sharding(c, n)
    ensures Excess(k, s, c, n, 0, t) == StrayProbes(k, s, c, n, 0, t) == 0
  {
    assert WalkTargets(k, s, c, n, 0) == [];
    assert Runs(k, s, c, n, 0) == [];
    assert Empty(k, c, n, 0) == 0;
  }

  lemma CountsStep(k: Book, s: Slots, c: Cycle, n: nat, m: nat, t: Target)
    requires k.Valid() && Sharding(c, n) && 0 < m <= n
    requires Excess(k, s, c, n, m - 1, t) == StrayProbes(k, s, c, n, m - 1, t)
    ensures Excess(k, s, c, n, m, t) == StrayProbes(k, s, c, n, m, t)
  {
    var e, z, f := RunsGrow(k, s, c, n, m, t);
    if f == 1 { assert StrayFactor(k, s, t) == 1; } else { assert StrayFactor(k, s, t) == 0; }
  }

  /** Subshard m-1 adds e occurrences of t from its walk, and one stray probe if it is empty. */
  lemma RunsGrow(k: Book, s: Slots, c: Cycle, n: nat, m: nat, t: Target) returns (e: nat, z: nat, f: nat)
    requires k.Valid() && Sharding(c, n) && 0 < m <= n
    ensures z <= 1 && f <= 1 && f == StrayFactor(k, s, t)
    ensures Empty(k, c, n, m) == Empty(k, c, n, m - 1) + z
    ensures Occurrences(WalkTargets(k, s, c, n, m), t) == Occurrences(WalkTargets(k, s, c, n, m - 1), t) + e
    ensures Occurrences(Runs(k, s, c, n, m), t) == Occurrences(Runs(k, s, c, n, m - 1), t) + e +
              if z == 1 then f else 0
  {
    var xs := Indices(c, n, k.Targets(), m - 1);
    e, z, f := Occurrences(Emits(k, s, xs), t), if xs == [] then 1 else 0, StrayFactor(k, s, t);
    RunCount(k, s, xs, t);
    WalkGrows(k, s, c, n, m);
    OccurrencesAdd(Runs(k, s, c, n, m - 1), Run(k, s, xs), t);
    OccurrencesAdd(WalkTargets(k, s, c, n, m - 1), Emits(k, s, xs), t);
  }

  ghost predicate ExactlyOnce(ts: seq<Target>, k: Book, s: Slots) {
    NoDuplicates(ts) && forall t :: t in ts <==> Wanted(t, k, s)
  }

  lemma {:induction false} NoDuplicatesOccurrences(ts: seq<Target>)
    ensures NoDuplicates(ts) <==> forall t :: t in ts ==> Occurrences(ts, t) == 1
  {
    if ts != [] {
      var u, last := ts[..|ts| - 1], ts[|ts| - 1];
      NoDuplicatesOccurrences(u);
      assert ts == u + [last];
      forall t ensures Occurrences(ts, t) == Occurrences(u, t) + if t == last then 1 else 0 {
        OccurrencesAdd(u, [last], t);
      }
      if NoDuplicates(ts) {
        assert last !in u;
        OccurrencesIn(u, last);
        forall t | t in ts ensures Occurrences(ts, t) == 1 {
          if t != last { assert t in u; }
        }
      }
      if forall t :: t in ts ==> Occurrences(ts, t) == 1 {
        OccurrencesIn(u, last);
        forall t | t in u ensures Occurrences(u, t) == 1 {
          OccurrencesIn(u, t);
          assert t in ts;
        }
      }
    }
  }

  lemma {:induction false} OccurrencesIn(ts: seq<Target>, t: Target)
    ensures t in ts <==> Occurrences(ts, t) > 0
  {
    if ts != [] {
      OccurrencesIn(ts[1..], t);
      assert ts == [ts[0]] + ts[1..];
    }
  }

  lemma AllCounts(k: Book, s: Slots, c: Cycle, n: nat)
    requires k.Valid() && Sharding(c, n)
    ensures forall t :: Occurrences(Runs(k, s, c, n, n), t)
                     == Occurrences(WalkTargets(k, s, c, n, n), t) + StrayProbes(k, s, c, n, n, t)
  {
    forall t
      ensures Occurrences(Runs(k, s, c, n, n), t)
           == Occurrences(WalkTargets(k, s, c, n, n), t) + StrayProbes(k, s, c, n, n, t)
    {
      RunsCount(k, s, c, n, n, t);
    }
  }

  /** What each target has to be counted for a scan to be exact. */
  lemma ExactByCount(ts: seq<Target>, k: Book, s: Slots)
    ensures ExactlyOnce(ts, k, s) <==> forall t :: Occurrences(ts, t) == if Wanted(t, k, s) then 1 else 0
  {
    NoDuplicatesOccurrences(ts);
    forall t ensures t in ts <==> Occurrences(ts, t) > 0 { OccurrencesIn(ts, t); }
    if ExactlyOnce(ts, k, s) {
      forall t ensures Occurrences(ts, t) == if Wanted(t, k, s) then 1 else 0 {
        assert t in ts <==> Wanted(t, k, s);
      }
    }
  }

  /** Every wanted target is probed exactly once, and nothing else, precisely when no subshard
      is empty or the stray lookup of an empty one is not probed. */
  lemma ScanIsExact(k: Book, s: Slots, c: Cycle, n: nat)
    requires k.Valid() && Sharding(c, n) && k.Targets() < c.group.prime
    ensures ExactlyOnce(Runs(k, s, c, n, n), k, s) <==> Empty(k, c, n, n) == 0 || !StrayIsProbed(k, s)
  {
    if Empty(k, c, n, n) == 0 || !StrayIsProbed(k, s) {
      ExactScan(k, s, c, n);
    } else {
      InexactScan(k, s, c, n);
    }
  }

  /** When the elements that are no index do not fill even one range of order / n exponents, no
      subshard is empty, whatever the cycle. */
  lemma NoneEmpty(k: Book, c: Cycle, n: nat)
    requires k.Valid() && Sharding(c, n) && k.Targets() < c.group.prime
    requires k.Targets() + c.order / n > c.order
    ensures Empty(k, c, n, n) == 0
  {
    FirstNotEmpty(k, c, n, n);
  }

  lemma {:induction false} FirstNotEmpty(k: Book, c: Cycle, n: nat, m: nat)
    requires k.Valid() && Sharding(c, n) && k.Targets() < c.group.prime && m <= n
    requires k.Targets() + Size(c, n) > c.order
    ensures Empty(k, c, n, m) == 0
    decreases m
  {
    if m > 0 {
      FirstNotEmpty(k, c, n, m - 1);
      RangeSize(c, n, m - 1);
      if Indices(c, n, k.Targets(), m - 1) == [] {
        EmptyIsShort(c, k.Targets(), Begin(c, n, m - 1), End(c, n, m - 1));
      }
    }
  }

  lemma RangeSize(c: Cycle, n: nat, i: nat)
    requires Sharding(c, n) && i < n
    ensures Begin(c, n, i) + Size(c, n) <= End(c, n, i) <= c.order
  {
    Ranges(c, n, i);
    SizeBounds(c.order, n);
    BeginIsProduct(c, n, n);
    BeginMonotone(c, n, i + 1, n);
  }

  /** A range without an index has no more exponents than there are other elements. */
  lemma EmptyIsShort(c: Cycle, maxIndex: nat, lo: nat, hi: nat)
    requires ValidCycle(c) && maxIndex <= c.order && lo <= hi <= lo + c.order
    requires Walk(c, maxIndex, lo, hi) == []
    ensures hi - lo + maxIndex <= c.order
  {
    forall f: nat | lo <= f < hi ensures Element(c, f) > maxIndex {
      InWalk(c, maxIndex, lo, hi, Element(c, f) - 1);
    }
    var s := seq(hi - lo, i requires 0 <= i < hi - lo => Element(c, lo + i) - 1 - maxIndex);
    forall i, j | 0 <= i < j < |s| ensures s[i] != s[j] { ElementsDiffer(c, lo + i, lo + j); }
    DistinctBelow(s, c.order - maxIndex);
  }

  /** Fewer targets than subshards leave at least the difference empty. */
  lemma FewTargets(k: Book, c: Cycle, n: nat)
    requires k.Valid() && Sharding(c, n) && k.Targets() < c.group.prime
    ensures Empty(k, c, n, n) + k.Targets() >= n
  {
    EmptyOrMet(k, c, n, n);
    WalkIsComplete(c, k.Targets());
    DistinctBelow(Walk(c, k.Targets(), 0, c.order), k.Targets());
  }

  lemma {:induction false} EmptyOrMet(k: Book, c: Cycle, n: nat, m: nat)
    requires k.Valid() && Sharding(c, n) && m <= n
    ensures Empty(k, c, n, m) + |Walk(c, k.Targets(), 0, RangeEnd(c, n, m))| >= m
    decreases m
  {
    if m > 0 {
      EmptyOrMet(k, c, n, m - 1);
      Ranges(c, n, m - 1);
      WalkJoins(c, k.Targets(), 0, Begin(c, n, m - 1), End(c, n, m - 1));
    }
  }

  /** No probe leaves the allowed prefixes. */
  ghost predicate Safe(ts: seq<Target>, k: Book) {
    forall t | t in ts :: t.ip in k.allowed
  }

  /** The stray lookup of an empty subshard is not probed, or happens to be allowed. */
  ghost predicate StrayIsSafe(k: Book, s: Slots)
    requires k.Valid()
  {
    !StrayIsProbed(k, s) || Split(k.Stray(), k.w).ip in k.allowed
  }

  /** Nothing but allowed prefixes is probed, precisely when no subshard is empty, or the stray
      lookup of an empty one is not probed, or happens to be allowed. */
  lemma ScanIsSafe(k: Book, s: Slots, c: Cycle, n: nat)
    requires k.Valid() && Sharding(c, n)
    ensures Safe(Runs(k, s, c, n, n), k) <==>
              Empty(k, c, n, n) == 0 || !StrayIsProbed(k, s) || Split(k.Stray(), k.w).ip in k.allowed
  {
    var runs, stray := Runs(k, s, c, n, n), Split(k.Stray(), k.w);
    forall t ensures t in runs <==> t in WalkTargets(k, s, c, n, n) || StrayProbes(k, s, c, n, n, t) > 0 {
      ProbedBy(k, s, c, n, t);
    }
    EmitsSafe(k, s, Walk(c, k.Targets(), 0, RangeEnd(c, n, n)));
    assert StrayIsProbed(k, s) && Empty(k, c, n, n) > 0 ==> stray in runs;
  }

  /** A target is probed by the walk or as the stray lookup of an empty subshard. */
  lemma ProbedBy(k: Book, s: Slots, c: Cycle, n: nat, t: Target)
    requires k.Valid() && Sharding(c, n)
    ensures t in Runs(k, s, c, n, n) <==> t in WalkTargets(k, s, c, n, n) || StrayProbes(k, s, c, n, n, t) > 0
  {
    RunsCount(k, s, c, n, n, t);
    OccurrencesIn(Runs(k, s, c, n, n), t);
    OccurrencesIn(WalkTargets(k, s, c, n, n), t);
  }

  lemma EmitsSafe(k: Book, s: Slots, xs: seq<nat>)
    requires k.Valid() && AllBelow(xs, k.Targets())
    ensures Safe(Emits(k, s, xs), k)
  {
    k.Numbering();
    forall t | t in Emits(k, s, xs) ensures t.ip in k.allowed {
      InEmits(k, s, xs, t);
      var x :| x in xs && x < k.Targets() && t == Split(k.TargetAt(x), k.w);
    }
  }

  lemma WholeIsExact(k: Book, s: Slots, c: Cycle, n: nat)
    requires k.Valid() && Sharding(c, n) && k.Targets() < c.group.prime
    ensures forall t :: Occurrences(WalkTargets(k, s, c, n, n), t) == if Wanted(t, k, s) then 1 else 0
  {
    WalkIsComplete(c, k.Targets());
    EmitsWanted(k, s, Walk(c, k.Targets(), 0, c.order));
    ExactByCount(WalkTargets(k, s, c, n, n), k, s);
  }

  lemma ExactScan(k: Book, s: Slots, c: Cycle, n: nat)
    requires k.Valid() && Sharding(c, n) && k.Targets() < c.group.prime
    requires Empty(k, c, n, n) == 0 || !StrayIsProbed(k, s)
    ensures ExactlyOnce(Runs(k, s, c, n, n), k, s)
  {
    var runs := Runs(k, s, c, n, n);
    WholeIsExact(k, s, c, n);
    AllCounts(k, s, c, n);
    forall t ensures Occurrences(runs, t) == if Wanted(t, k, s) then 1 else 0 {
      assert StrayProbes(k, s, c, n, n, t) == 0;
    }
    ExactByCount(runs, k, s);
  }

  /** The stray target of an empty subshard is among the probes. */
  lemma StrayIsThere(k: Book, s: Slots, c: Cycle, n: nat)
    requires k.Valid() && Sharding(c, n)
    requires Empty(k, c, n, n) > 0 && StrayIsProbed(k, s)
    ensures Split(k.Stray(), k.w) in Runs(k, s, c, n, n)
  {
    ProbedBy(k, s, c, n, Split(k.Stray(), k.w));
  }

  lemma InexactScan(k: Book, s: Slots, c: Cycle, n: nat)
    requires k.Valid() && Sharding(c, n) && k.Targets() < c.group.prime
    requires Empty(k, c, n, n) > 0 && StrayIsProbed(k, s)
    ensures !ExactlyOnce(Runs(k, s, c, n, n), k, s)
  {
    var t := Split(k.Stray(), k.w);
    WholeIsExact(k, s, c, n);
    AllCounts(k, s, c, n);
    assert StrayProbes(k, s, c, n, n, t) == Empty(k, c, n, n);
    assert Occurrences(Runs(k, s, c, n, n), t) > if Wanted(t, k, s) then 1 else 0;
    ExactByCount(Runs(k, s, c, n, n), k, s);
  }
}
