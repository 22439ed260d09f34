/** One sender's share of the cycle (HMapc/src/shard.c): its first and last group element and
    the current one, stepped in place until the last element is met. */
module Shard {
  import opened Numbers
  import opened Cyclic
  import opened Blocklist
  import opened ShardWalk

  const PMAP_SHARD_DONE: nat := 0

  /** The part of a total that subshard i of n gets (max_targets, max_packets). */
  function Quota(total: nat, n: nat, i: nat): nat
    requires n > 0
  {
    total / n + (if i < total % n then 1 else 0)
  }

  ghost function QuotaSum(total: nat, n: nat, m: nat): nat
    requires n > 0
  {
    if m == 0 then 0 else QuotaSum(total, n, m - 1) + Quota(total, n, m - 1)
  }

  lemma NextMultiple(q: nat, m: nat)
    requires m > 0
    ensures q * m == q * (m - 1) + q
  {
  }

  lemma {:induction false} QuotaSumIs(total: nat, n: nat, m: nat)
    requires 0 < n && m <= n
    ensures QuotaSum(total, n, m) == total / n * m + (if m < total % n then m else total % n)
  {
    if m > 0 {
      QuotaSumIs(total, n, m - 1);
      NextMultiple(total / n, m);
    } else {
      assert total / n * 0 == 0;
    }
  }

  /** The quotas add up to the total, none is 0, which would mean "no limit", and they differ by
      at most 1, the larger ones first. */
  lemma QuotasPartition(total: nat, n: nat)
    requires n > 0
    ensures QuotaSum(total, n, n) == total
    ensures total >= n ==> forall i: nat :: i < n ==> Quota(total, n, i) >= 1
    ensures forall i: nat, j: nat :: i <= j < n ==> Quota(total, n, j) <= Quota(total, n, i) <= Quota(total, n, j) + 1
  {
    QuotaSumIs(total, n, n);
    assert total == total / n * n + total % n;
    if total >= n { SizeBounds(total, n); }
  }

  /** The start and the stop of subshard i, as shard_init computes them. */
  method EndPoints(cycle: Cycle, numSubshards: nat, subIdx: nat) returns (start: nat, stop: nat)
    requires Sharding(cycle, numSubshards) && subIdx < numSubshards
    ensures start == Element(cycle, Begin(cycle, numSubshards, subIdx))
    ensures stop == Element(cycle, End(cycle, numSubshards, subIdx))
    ensures start == Pow(cycle.generator, cycle.offset + Begin(cycle, numSubshards, subIdx)) % cycle.group.prime
    ensures stop == Pow(cycle.generator, cycle.offset + End(cycle, numSubshards, subIdx)) % cycle.group.prime
  {
    ElementIs(cycle, Begin(cycle, numSubshards, subIdx));
    ElementIs(cycle, End(cycle, numSubshards, subIdx));
    var numElts := cycle.order;
    var exponentBegin := numElts / numSubshards * subIdx;
    var exponentEnd := numElts / numSubshards * ((subIdx + 1) % numSubshards);
    exponentBegin := (exponentBegin + cycle.offset) % numElts;
    exponentEnd := (exponentEnd + cycle.offset) % numElts;
    BeginPoint(cycle, numSubshards, subIdx);
    EndPoint(cycle, numSubshards, subIdx);
    start := PowMod(cycle.generator, exponentBegin, cycle.group.prime);
    stop := PowMod(cycle.generator, exponentEnd, cycle.group.prime);
  }

  /** The number of subshards, and the index of the one that a thread of a shard runs. */
  function Subshards(numShards: nat, numThreads: nat): nat {
    numShards * numThreads
  }

  function SubIndex(shardIdx: nat, numShards: nat, threadIdx: nat, numThreads: nat): (i: nat)
    requires shardIdx < numShards && threadIdx < numThreads
    ensures i < Subshards(numShards, numThreads)
  {
    MulStep(shardIdx, numShards, numThreads);
    shardIdx * numThreads + threadIdx
  }

  /** Different threads of different shards run different subshards. */
  lemma SubIndexInjective(s: nat, t: nat, s': nat, t': nat, numShards: nat, numThreads: nat)
    requires s < numShards && s' < numShards && t < numThreads && t' < numThreads
    ensures SubIndex(s, numShards, t, numThreads) == SubIndex(s', numShards, t', numThreads) <==> s == s' && t == t'
  {
    if SubIndex(s, numShards, t, numThreads) == SubIndex(s', numShards, t', numThreads) {
      QuotientUnique(s, t, s', t', numThreads);
    }
  }

  /** A packet made for a target: the address probed, and the target's port slot and index. */
  datatype Packet = Packet(address: nat, port: nat, index: nat)

  class Shard {
    // shard_params
    const factor: nat
    const modulus: nat
    const first: nat
    const last: nat
    // shard_state
    const maxHosts: nat
    const maxPackets: nat
    var hostsBlocklisted: nat
    var hostsAllowlisted: nat
    var hostsScanned: nat
    var packetsSent: nat
    var packetsFailed: nat
    var packetsTried: nat
    const threadId: nat
    var current: nat
    var iterations: nat
    const maxIndex: nat   // xsend.max_index

    ghost const cycle: Cycle
    ghost const begin: nat   // the exponents of this subshard are [begin, end)
    ghost const end: nat
    ghost var pos: nat       // the exponent of current, or end when done
    ghost var made: seq<Packet>   // the packets made so far

    ghost predicate Valid()
      reads this`current, this`pos, this`hostsAllowlisted, this`hostsBlocklisted
    {
      && ValidCycle(cycle)
      && factor == cycle.generator && modulus == cycle.group.prime
      && maxIndex < modulus
      && begin < end <= begin + cycle.order
      && first == Element(cycle, begin) && last == Element(cycle, end)
      && (current == PMAP_SHARD_DONE ==> pos == end)
      && (current != PMAP_SHARD_DONE ==> begin <= pos < end && current == Element(cycle, pos))
      && hostsAllowlisted + hostsBlocklisted == (if pos == end then end - 1 - begin else pos - begin)
    }

    /** The valid indices still to come after the current element. */
    ghost function Rest(): (r: seq<nat>)
      requires Valid()
      reads this`current, this`pos, this`hostsAllowlisted, this`hostsBlocklisted
      ensures AllBelow(r, maxIndex)
    {
      Walk(cycle, maxIndex, pos + 1, end)
    }

    /** shard_get_next_elem */
    method GetNextElem()
      requires Valid() && current != PMAP_SHARD_DONE
      modifies this`current, this`pos
      ensures pos == old(pos) + 1 && current == Element(cycle, pos)
      ensures current == last <==> pos == end
      ensures old(Rest()) ==
        if pos == end then []
        else if current <= maxIndex then [current - 1] + Walk(cycle, maxIndex, pos + 1, end)
        else Walk(cycle, maxIndex, pos + 1, end)
    {
      NextElement(cycle, pos);
      AtLast(cycle, begin, pos + 1, end);
      current := (current * factor) % modulus;
      pos := pos + 1;
    }

    /** The loop of _shard_get_next_ipvx_port_index: step to the next valid index, or to the
        last element. */
    method Advance() returns (index: nat, found: bool)
      requires Valid() && current != PMAP_SHARD_DONE
      modifies this`current, this`pos, this`iterations, this`hostsAllowlisted, this`hostsBlocklisted
      ensures Valid() && iterations == old(iterations) + 1
      ensures found <==> old(Rest()) != []
      ensures found ==> index < maxIndex && current == index + 1 && old(Rest()) == [index] + Rest()
      ensures !found ==> current == PMAP_SHARD_DONE
      ensures hostsAllowlisted == old(hostsAllowlisted) + if found then 1 else 0
    {
      ghost var ahead := Rest();
      var done := false;
      while true
        invariant Valid() && current != PMAP_SHARD_DONE && Rest() == ahead
        invariant hostsAllowlisted == old(hostsAllowlisted) && iterations == old(iterations)
        decreases end - pos
      {
        done, index, found := Step();
        if done {
          iterations := iterations + 1;
          return index, found;
        }
      }
      assert false;
    }

    /** One turn of that loop: the end, an index, or an element without one. */
    method Step() returns (done: bool, index: nat, found: bool)
      requires Valid() && current != PMAP_SHARD_DONE
      modifies this`current, this`pos, this`hostsAllowlisted, this`hostsBlocklisted
      ensures Valid() && (found ==> done) && (!done ==> old(pos) < pos < end)
      ensures done && !found ==> current == PMAP_SHARD_DONE && old(Rest()) == []
      ensures found ==> index < maxIndex && current == index + 1 && old(Rest()) == [index] + Rest()
      ensures !done ==> current != PMAP_SHARD_DONE && old(Rest()) == Rest()
      ensures hostsAllowlisted == old(hostsAllowlisted) + if found then 1 else 0
    {
      GetNextElem();
      if current == last {
        current := PMAP_SHARD_DONE;
        return true, 0, false;
      }
      index := current - 1;
      found := index < maxIndex;
      if found {
        hostsAllowlisted := hostsAllowlisted + 1;
      } else {
        hostsBlocklisted := hostsBlocklisted + 1;
      }
      done := found;
    }

    /** _shard_get_next_ipvx_port_index */
    method GetNextIpvxPortIndex(b: Blocklist) returns (ipvx: nat)
      requires Valid() && b.Valid() && b.book.Targets() == maxIndex
      modifies this`current, this`pos, this`iterations, this`hostsAllowlisted, this`hostsBlocklisted
      ensures Valid()
      ensures old(Rest()) == [] ==>
                ipvx == PMAP_SHARD_DONE && current == PMAP_SHARD_DONE && Rest() == []
      ensures old(Rest()) != [] ==>
                && ipvx == b.book.TargetAt(old(Rest())[0])
                && current == old(Rest())[0] + 1 && Rest() == old(Rest())[1..]
      ensures hostsAllowlisted == old(hostsAllowlisted) + if old(Rest()) == [] then 0 else 1
      ensures iterations == old(iterations) + if old(current) == PMAP_SHARD_DONE then 0 else 1
    {
      if current == PMAP_SHARD_DONE {
        return PMAP_SHARD_DONE;
      }
      var index, found := Advance();
      if found {
        ipvx := b.LookupIndex(index);
      } else {
        ipvx := PMAP_SHARD_DONE;
      }
    }

    /** _shard_roll_to_valid */
    method RollToValid(b: Blocklist)
      requires Valid() && pos == begin && b.Valid() && b.book.Targets() == maxIndex
      modifies this`current, this`pos, this`iterations, this`hostsAllowlisted, this`hostsBlocklisted
      ensures Valid()
      ensures FromCurrent() == Walk(cycle, maxIndex, begin, end) && current <= maxIndex
    {
      WalkUnfolds(cycle, maxIndex, begin, end);
      if current <= maxIndex {
        return;
      }
      var _ := GetNextIpvxPortIndex(b);
    }

    /** shard_init */
    constructor (shardIdx: nat, numShards: nat, threadIdx: nat, numThreads: nat,
                 maxTotalTargets: nat, maxTotalPackets: nat, cycle: Cycle, b: Blocklist, maxIndex: nat)
      requires ValidCycle(cycle) && b.Valid() && b.book.Targets() == maxIndex < cycle.group.prime
      requires shardIdx < numShards && threadIdx < numThreads
      requires cycle.order > Subshards(numShards, numThreads)
      requires maxTotalTargets == 0 || maxTotalTargets >= Subshards(numShards, numThreads)
      requires maxTotalPackets == 0 || maxTotalPackets >= Subshards(numShards, numThreads)
      ensures Valid() && this.cycle == cycle && this.maxIndex == maxIndex && threadId == threadIdx
      ensures var n, i := Subshards(numShards, numThreads), SubIndex(shardIdx, numShards, threadIdx, numThreads);
        && begin == Begin(cycle, n, i) && end == End(cycle, n, i)
        && maxHosts == Quota(maxTotalTargets, n, i) && maxPackets == Quota(maxTotalPackets, n, i)
        && FromCurrent() == Indices(cycle, n, maxIndex, i)
      ensures current <= maxIndex
      ensures hostsScanned == 0 && packetsSent == 0 && packetsFailed == 0 && packetsTried == 0 && made == []
    {
      var numSubshards := Subshards(numShards, numThreads);
      var subIdx := SubIndex(shardIdx, numShards, threadIdx, numThreads);
      var start, stop := EndPoints(cycle, numSubshards, subIdx);
      first := start;
      last := stop;
      factor := cycle.generator;
      modulus := cycle.group.prime;
      current := start;
      threadId := threadIdx;
      maxHosts := Quota(maxTotalTargets, numSubshards, subIdx);
      maxPackets := Quota(maxTotalPackets, numSubshards, subIdx);
      this.maxIndex := maxIndex;
      hostsBlocklisted, hostsAllowlisted, hostsScanned, iterations := 0, 0, 0, 0;
      packetsSent, packetsFailed, packetsTried, made := 0, 0, 0, [];
      this.cycle := cycle;
      begin := Begin(cycle, numSubshards, subIdx);
      end := End(cycle, numSubshards, subIdx);
      pos := Begin(cycle, numSubshards, subIdx);
      new;
      Ranges(cycle, numSubshards, subIdx);
      RollToValid(b);
    }

    /** The indices from the current element on. */
    ghost function FromCurrent(): (r: seq<nat>)
      requires Valid()
      reads this`current, this`pos, this`hostsAllowlisted, this`hostsBlocklisted
      ensures current <= maxIndex ==> AllBelow(r, maxIndex)
    {
      if current == PMAP_SHARD_DONE then [] else [current - 1] + Rest()
    }

    /** The targets still to be probed after the current element. */
    ghost function Todo(k: Book, s: Slots): seq<Target>
      requires Valid() && k.Valid() && k.Targets() == maxIndex
      reads this`current, this`pos, this`hostsAllowlisted, this`hostsBlocklisted
    {
      Emits(k, s, Rest())
    }

    /** shard_get_next_ip_prefix_port_index: the next accepted target; prefix 0 marks the end. */
    method GetNextIpPrefixPortIndex(b: Blocklist, s: Slots) returns (t: Target)
      requires Valid() && b.Valid() && b.book.Targets() == maxIndex && FitsSlots(s, b.w)
      modifies this`current, this`pos, this`iterations, this`hostsAllowlisted, this`hostsBlocklisted
      ensures Valid()
      ensures Delivers(t, old(Todo(b.book, s)), Todo(b.book, s))
    {
      ghost var todo := Emits(b.book, s, Rest());
      NextUnfolds(b.book, s, Rest());
      var x := GetNextIpvxPortIndex(b);
      t := SkipRejected(b, s, x, todo);
    }

    /** The loop both getters share: drop targets whose port or index slot is unused. */
    method SkipRejected(b: Blocklist, s: Slots, x: nat, ghost todo: seq<Target>) returns (t: Target)
      requires Valid() && b.Valid() && b.book.Targets() == maxIndex
      requires Pending(x, todo, Emits(b.book, s, Rest()), Rest() == [], b.w, s)
      modifies this`current, this`pos, this`iterations, this`hostsAllowlisted, this`hostsBlocklisted
      ensures Valid()
      ensures Delivers(t, todo, Todo(b.book, s))
    {
      var y := x;
      t := Split(y, b.w);
      ZeroParts(b.w.Rest());
      while y != PMAP_SHARD_DONE && !Accepts(t, s)
        invariant Valid() && t == Split(y, b.w)
        invariant Pending(y, todo, Emits(b.book, s, Rest()), Rest() == [], b.w, s)
        decreases |Rest()|, y != PMAP_SHARD_DONE
      {
        NextUnfolds(b.book, s, Rest());
        y := GetNextIpvxPortIndex(b);
        t := Split(y, b.w);
      }
    }

    /** shard_get_current_ip_prefix_port_index. With no current element (the shard rolled to its
        end) the index looked up is -1. */
    method GetCurrentIpPrefixPortIndex(b: Blocklist, s: Slots) returns (t: Target)
      requires Valid() && b.Valid() && b.book.Targets() == maxIndex && FitsSlots(s, b.w)
      requires current <= maxIndex
      modifies this`current, this`pos, this`iterations, this`hostsAllowlisted, this`hostsBlocklisted
      ensures Valid()
      ensures Delivers(t, old(Run(b.book, s, FromCurrent())), Todo(b.book, s))
    {
      ghost var todo := Run(b.book, s, FromCurrent());
      FirstLookup(b.book, s, current, Rest());
      var x := b.LookupIndex(current - 1);
      t := SkipRejected(b, s, x, todo);
    }
  }

  /** Before the next test, x has been looked up and the targets in left come after it. */
  ghost predicate Pending(x: nat, todo: seq<Target>, left: seq<Target>, last: bool, w: Widths, s: Slots) {
    && (last ==> left == [])
    && if x == PMAP_SHARD_DONE then last && todo == []
       else
         && (Split(x, w).ip == 0 ==> last)
         && todo == (if Accepts(Split(x, w), s) && Split(x, w).ip != 0 then [Split(x, w)] else []) + left
  }

  /** The lookup for the current element, or the stray one, starts the run of the shard. */
  lemma FirstLookup(k: Book, s: Slots, current: nat, rest: seq<nat>)
    requires k.Valid() && AllBelow(rest, k.Targets()) && current <= k.Targets()
    requires current == PMAP_SHARD_DONE ==> rest == []
    ensures var xs := if current == PMAP_SHARD_DONE then [] else [current - 1] + rest;
            var x := if current == PMAP_SHARD_DONE then k.Stray() else k.TargetAt(current - 1);
            Pending(x, Run(k, s, xs), Emits(k, s, rest), rest == [], k.w, s)
  {
    ZeroParts(k.w.Rest());
    if current != PMAP_SHARD_DONE {
      NextUnfolds(k, s, [current - 1] + rest);
      assert ([current - 1] + rest)[1..] == rest;
    }
  }

  /** What a getter returns of the targets to do: the first of them, or the end marker. */
  ghost predicate Delivers(t: Target, todo: seq<Target>, left: seq<Target>) {
    if todo == [] then t.ip == 0 && left == []
    else t.ip != 0 && todo == [t] + left
  }

  /** The next index is a target with a nonzero prefix; it is emitted if its slots are used. */
  lemma NextUnfolds(k: Book, s: Slots, xs: seq<nat>)
    requires k.Valid() && AllBelow(xs, k.Targets())
    ensures xs != [] ==>
      var t := Split(k.TargetAt(xs[0]), k.w);
      && k.TargetAt(xs[0]) != 0 && t.ip != 0
      && Emits(k, s, xs) == (if Accepts(t, s) then [t] else []) + Emits(k, s, xs[1..])
  {
    if xs != [] {
      k.Numbering();
      ZeroParts(k.w.Rest());
    }
  }

  lemma NextElement(c: Cycle, f: nat)
    requires ValidCycle(c)
    ensures (Element(c, f) * c.generator) % c.group.prime == Element(c, f + 1)
  {
    MulModIsProduct(c.generator, Element(c, f), c.group.prime);
    assert Element(c, f) * c.generator == c.generator * Element(c, f);
  }

  /** A walk over at most one period meets its last element only at its end. */
  lemma AtLast(c: Cycle, begin: nat, f: nat, end: nat)
    requires ValidCycle(c) && begin < f <= end <= begin + c.order
    ensures Element(c, f) == Element(c, end) <==> f == end
  {
    if f < end { ElementsDiffer(c, f, end); }
  }

  /** The powers shard_init computes are the elements at the bounds of the range. */
  lemma BeginPoint(c: Cycle, n: nat, i: nat)
    requires Sharding(c, n)
    ensures PowMod(c.generator, (c.order / n * i + c.offset) % c.order, c.group.prime) == Element(c, Begin(c, n, i))
  {
    BeginIsProduct(c, n, i);
    assert c.order / n * i + c.offset == c.offset + Begin(c, n, i);
    PowReduced(c.generator, c.group.prime, c.offset + Begin(c, n, i));
  }

  lemma EndPoint(c: Cycle, n: nat, i: nat)
    requires Sharding(c, n) && i < n
    ensures PowMod(c.generator, (c.order / n * ((i + 1) % n) + c.offset) % c.order, c.group.prime)
         == Element(c, End(c, n, i))
  {
    BeginPoint(c, n, (i + 1) % n);
    if i == n - 1 {
      DivModUnique(i + 1, n, 1, 0);
      ElementPeriod(c, 0);
    } else {
      DivModUnique(i + 1, n, 0, i + 1);
    }
  }
}
