/** The iterator over all sender threads of one machine (HMapc/src/iterator.c): it chooses the
    group, sets up the shards, and collects the counters when threads complete. */
module Iterator {
  import opened Numbers
  import opened Cyclic
  import opened Blocklist
  import opened ShardWalk
  import opened Shard
  import opened SendMachine

  class Iterator {
    const numThreads: nat
    const threadShards: seq<Shard>
    const complete: array<bool>
    var currThreads: int
    // the counters of xsend
    var packetsSent: nat
    var hostsScanned: nat
    var blocklisted: nat
    var allowlisted: nat
    var sendtoFailures: nat
    var packetsTried: nat
    var done: bool   // xsend.complete

    ghost predicate Valid()
      reads this
    {
      |threadShards| == complete.Length == numThreads
    }

    /** The world that the iterator and its shards show. */
    ghost predicate Shows(w: World)
      requires Valid()
      reads this, complete, threadShards
    {
      && |w.threads| == numThreads && w.complete == complete[..]
      && (forall i :: 0 <= i < numThreads ==>
            && w.threads[i].hosts == threadShards[i].hostsScanned
            && w.threads[i].packets == threadShards[i].packetsSent)
      && w.currThreads == currThreads && w.done == done
      && w.packetsSent == packetsSent && w.hostsScanned == hostsScanned
    }

    constructor (threadShards: seq<Shard>)
      ensures Valid() && this.threadShards == threadShards && fresh(complete)
      ensures currThreads == numThreads && packetsSent == 0 && hostsScanned == 0 && !done
      ensures blocklisted == allowlisted == sendtoFailures == packetsTried == 0
      ensures forall i :: 0 <= i < complete.Length ==> !complete[i]
    {
      this.threadShards := threadShards;
      numThreads := |threadShards|;
      complete := new bool[|threadShards|](i => false);
      currThreads := |threadShards|;
      packetsSent, hostsScanned, done := 0, 0, false;
      blocklisted, allowlisted, sendtoFailures, packetsTried := 0, 0, 0, 0;
    }

    /** shard_complete_cbi, under the iterator's mutex. */
    method ShardComplete(threadId: nat, ghost w: World) returns (ghost w': World)
      requires Valid() && threadId < numThreads && Shows(w)
      requires w.threads[threadId].finished && !w.complete[threadId]
      modifies this, complete
      ensures Valid() && Shows(w') && Callback(w, w', threadId)
      ensures blocklisted == old(blocklisted) + threadShards[threadId].hostsBlocklisted
      ensures allowlisted == old(allowlisted) + threadShards[threadId].hostsAllowlisted
      ensures sendtoFailures == old(sendtoFailures) + threadShards[threadId].packetsFailed
      ensures packetsTried == old(packetsTried) + threadShards[threadId].packetsTried
    {
      complete[threadId] := true;
      currThreads := currThreads - 1;
      var s := threadShards[threadId];
      packetsSent := packetsSent + s.packetsSent;
      hostsScanned := hostsScanned + s.hostsScanned;
      blocklisted := blocklisted + s.hostsBlocklisted;
      allowlisted := allowlisted + s.hostsAllowlisted;
      sendtoFailures := sendtoFailures + s.packetsFailed;
      packetsTried := packetsTried + s.packetsTried;
      var all := true;
      var i := 0;
      while all && i < numThreads
        invariant 0 <= i <= numThreads
        invariant all <==> forall j :: 0 <= j < i ==> complete[j]
      {
        all := all && complete[i];
        i := i + 1;
      }
      if all {
        done := true;
      }
      w' := World(w.threads, complete[..], currThreads, packetsSent, hostsScanned, done);
    }

    /** iterator_get_sent */
    method GetSent(ghost w: World) returns (sent: nat)
      requires Valid() && Shows(w)
      ensures sent == TotalPackets(w.threads)
    {
      sent := 0;
      var i := 0;
      while i < numThreads
        invariant 0 <= i <= numThreads && sent == TotalPackets(w.threads[..i])
      {
        sent := sent + threadShards[i].packetsSent;
        assert w.threads[..i + 1][..i] == w.threads[..i];
        i := i + 1;
      }
      assert w.threads[..i] == w.threads;
    }

    /** iterator_get_scanned */
    method GetScanned(ghost w: World) returns (scanned: nat)
      requires Valid() && Shows(w)
      ensures scanned == TotalHosts(w.threads)
    {
      scanned := 0;
      var i := 0;
      while i < numThreads
        invariant 0 <= i <= numThreads && scanned == TotalHosts(w.threads[..i])
      {
        scanned := scanned + threadShards[i].hostsScanned;
        assert w.threads[..i + 1][..i] == w.threads[..i];
        i := i + 1;
      }
      assert w.threads[..i] == w.threads;
    }
  }

  /** Shard j is fresh, stands at the start of its subshard, and has its part of the limits. */
  ghost predicate AtStart(sd: Shard, j: nat, shard: nat, numShards: nat, numThreads: nat, c: Cycle, maxIndex: nat,
                          maxTargets: nat, maxPackets: nat)
    requires shard < numShards && j < numThreads && Sharding(c, Subshards(numShards, numThreads))
    reads sd
  {
    var n, i := Subshards(numShards, numThreads), SubIndex(shard, numShards, j, numThreads);
    && sd.Valid() && sd.maxIndex == maxIndex && sd.threadId == j
    && sd.FromCurrent() == Indices(c, n, maxIndex, i) && sd.current <= maxIndex
    && sd.maxHosts == Quota(maxTargets, n, i) && sd.maxPackets == Quota(maxPackets, n, i)
    && sd.hostsScanned == 0 && sd.packetsSent == 0 && sd.packetsFailed == 0 && sd.packetsTried == 0 && sd.made == []
  }

  /** The limits of the thread machine are those of the shards. */
  lemma LimitsAre(sd: Shard, j: nat, shard: nat, numShards: nat, numThreads: nat, c: Cycle, maxIndex: nat,
                  maxTargets: nat, maxPackets: nat, perHost: nat)
    requires shard < numShards && j < numThreads && Sharding(c, Subshards(numShards, numThreads))
    requires AtStart(sd, j, shard, numShards, numThreads, c, maxIndex, maxTargets, maxPackets)
    ensures Limits(perHost, sd.maxHosts, sd.maxPackets)
         == ShardLimits(shard, numShards, numThreads, perHost, maxTargets, maxPackets)[j]
  {
  }

  /** shard_init for thread t. */
  method InitShard(t: nat, numThreads: nat, shard: nat, numShards: nat, c: Cycle, b: Blocklist, maxIndex: nat,
                   maxTargets: nat, maxPackets: nat)
    returns (sd: Shard)
    requires t < numThreads && shard < numShards && b.Valid() && b.book.Targets() == maxIndex
    requires Sharding(c, Subshards(numShards, numThreads)) && maxIndex < c.group.prime
    requires maxTargets == 0 || maxTargets >= Subshards(numShards, numThreads)
    requires maxPackets == 0 || maxPackets >= Subshards(numShards, numThreads)
    ensures fresh(sd) && AtStart(sd, t, shard, numShards, numThreads, c, maxIndex, maxTargets, maxPackets)
  {
    sd := new Shard(shard, numShards, t, numThreads, maxTargets, maxPackets, c, b, maxIndex);
  }

  /** The loop of iterator_init over the threads. */
  method InitShards(numThreads: nat, shard: nat, numShards: nat, c: Cycle, b: Blocklist, maxIndex: nat,
                    maxTargets: nat, maxPackets: nat)
    returns (shards: seq<Shard>)
    requires shard < numShards && b.Valid() && b.book.Targets() == maxIndex
    requires Sharding(c, Subshards(numShards, numThreads)) && maxIndex < c.group.prime
    requires maxTargets == 0 || maxTargets >= Subshards(numShards, numThreads)
    requires maxPackets == 0 || maxPackets >= Subshards(numShards, numThreads)
    ensures |shards| == numThreads
    ensures forall j :: 0 <= j < numThreads ==>
              AtStart(shards[j], j, shard, numShards, numThreads, c, maxIndex, maxTargets, maxPackets)
  {
    shards := [];
    var t := 0;
    while t < numThreads
      invariant 0 <= t <= numThreads && |shards| == t
      invariant forall j :: 0 <= j < t ==>
                  AtStart(shards[j], j, shard, numShards, numThreads, c, maxIndex, maxTargets, maxPackets)
    {
      var sd := InitShard(t, numThreads, shard, numShards, c, b, maxIndex, maxTargets, maxPackets);
      shards := shards + [sd];
      t := t + 1;
    }
  }

  /** iterator_init: thread t of the machine gets subshard shard * numThreads + t of a cycle
      through a group with more elements than there are targets. */
  method IteratorInit(numThreads: nat, shard: nat, numShards: nat, groups: seq<Group>,
                      random0: nat, random1: nat, b: Blocklist, maxTargets: nat, maxPackets: nat)
    returns (it: Iterator, ghost c: Cycle, ghost w: World)
    requires numThreads > 0 && shard < numShards && b.Valid()
    requires forall g :: g in groups ==> TableEntry(g)
    requires exists j :: 0 <= j < |groups| && groups[j].prime > b.book.Targets()
    requires forall g :: g in groups && g.prime > b.book.Targets() ==>
               g.prime > Subshards(numShards, numThreads) + 1
    requires maxTargets == 0 || maxTargets >= Subshards(numShards, numThreads)
    requires maxPackets == 0 || maxPackets >= Subshards(numShards, numThreads)
    ensures it.Valid() && it.numThreads == numThreads && it.Shows(w) && InitWorld(w, numThreads)
    ensures Sharding(c, Subshards(numShards, numThreads)) && b.book.Targets() < c.group.prime
    ensures forall t :: 0 <= t < numThreads ==>
              AtStart(it.threadShards[t], t, shard, numShards, numThreads, c, b.book.Targets(), maxTargets, maxPackets)
    ensures MadeFrom(c, random0, random1) && FirstAbove(groups, b.book.Targets(), c.group)
    ensures it.blocklisted == it.allowlisted == it.sendtoFailures == it.packetsTried == 0
  {
    MulPositive(numShards, numThreads);
    var numTargets := b.CountAllowedIpPortIndex();
    var group := GetGroup(groups, numTargets);
    var maxIndex: int := numTargets;
    var all: int := Pow2(b.w.Total());
    if numTargets > all {
      maxIndex := all - 1;
    }
    TargetsFit(b.book);
    var cycle := MakeCycle(group, random0, random1);
    c := cycle;
    var shards := InitShards(numThreads, shard, numShards, cycle, b, maxIndex, maxTargets, maxPackets);
    it := new Iterator(shards);
    w := World(seq(numThreads, i => FreshThread), it.complete[..], numThreads, 0, 0, false);
  }

  lemma TargetsFit(k: Book)
    requires k.Valid()
    ensures k.Targets() <= Pow2(k.w.Total())
  {
    k.AllowedTargets();
    k.DisallowedTargets();
  }
}
