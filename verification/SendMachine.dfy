/** The senders as a state machine: threads that send packets in any interleaving and report
    to the iterator when they stop (HMapc/src/send.c, HMapc/src/iterator.c). */
module SendMachine {
  import opened Numbers
  import opened Shard

  /** count * each, added up. */
  function Repeat(count: nat, each: nat): nat {
    if count == 0 then 0 else Repeat(count - 1, each) + each
  }

  lemma {:induction false} RepeatIsProduct(count: nat, each: nat)
    ensures Repeat(count, each) == count * each
  {
    if count > 0 {
      RepeatIsProduct(count - 1, each);
      assert count * each == (count - 1) * each + each;
    }
  }

  // ------------------------------------------------------------- one thread

  /** Packets per host, and the limits of the subshard; a limit of 0 means none. */
  datatype Limits = Limits(perHost: nat, maxHosts: nat, maxPackets: nat)

  /** Counters of one sender; partial counts the packets of the host being scanned. */
  datatype Thread = Thread(hosts: nat, packets: nat, partial: nat, finished: bool)

  const FreshThread := Thread(0, 0, 0, false)

  predicate Under(count: nat, limit: nat) {
    limit == 0 || count < limit
  }

  predicate ThreadStep(c: Limits, t: Thread, t': Thread) {
    && !t.finished
    && (// a packet of the current host
        || (Under(t.hosts, c.maxHosts) && Under(t.packets, c.maxPackets) && t.partial < c.perHost
            && t' == t.(packets := t.packets + 1, partial := t.partial + 1))
        // the host is done
        || (Under(t.hosts, c.maxHosts) && t.partial == c.perHost
            && t' == t.(hosts := t.hosts + 1, partial := 0))
        // the sender stops, for whatever reason
        || t' == t.(finished := true))
  }

  /** What holds of a sender at every moment. */
  predicate ThreadInvariant(c: Limits, t: Thread) {
    && t.packets == Repeat(t.hosts, c.perHost) + t.partial && t.partial <= c.perHost
    && (c.maxHosts != 0 ==> t.hosts <= c.maxHosts && (t.partial > 0 ==> t.hosts < c.maxHosts))
    && (c.maxPackets != 0 ==> t.packets <= c.maxPackets)
  }

  lemma ThreadKeeps(c: Limits, t: Thread, t': Thread)
    requires ThreadInvariant(c, t) && ThreadStep(c, t, t')
    ensures ThreadInvariant(c, t')
  {
  }

  /** A history of one sender, from its start. */
  ghost predicate IsHistory(c: Limits, h: seq<Thread>) {
    |h| > 0 &&
    if |h| == 1 then h[0] == FreshThread
    else IsHistory(c, h[..|h| - 1]) && ThreadStep(c, h[|h| - 2], h[|h| - 1])
  }

  lemma {:induction false} HistoryInvariant(c: Limits, h: seq<Thread>)
    requires IsHistory(c, h)
    ensures ThreadInvariant(c, h[|h| - 1])
  {
    if |h| > 1 {
      HistoryInvariant(c, h[..|h| - 1]);
      ThreadKeeps(c, h[|h| - 2], h[|h| - 1]);
    }
  }


  ghost function Extend(c: Limits, h: seq<Thread>, t: Thread): (r: seq<Thread>)
    requires IsHistory(c, h) && ThreadStep(c, h[|h| - 1], t)
    ensures IsHistory(c, r) && r[|r| - 1] == t
  {
    assert (h + [t])[..|h|] == h;
    h + [t]
  }

  /** Conversely, counters with that relation are the last of a history. */
  lemma {:induction false} HistoryOf(c: Limits, hosts: nat, partial: nat) returns (h: seq<Thread>)
    requires partial <= c.perHost && (c.maxPackets != 0 ==> Repeat(hosts, c.perHost) + partial <= c.maxPackets)
    requires c.maxHosts != 0 ==> hosts <= c.maxHosts && (partial > 0 ==> hosts < c.maxHosts)
    ensures IsHistory(c, h) && h[|h| - 1] == Thread(hosts, Repeat(hosts, c.perHost) + partial, partial, false)
    decreases hosts, partial
  {
    if partial > 0 {
      h := HistoryOf(c, hosts, partial - 1);
      h := Extend(c, h, Thread(hosts, Repeat(hosts, c.perHost) + partial, partial, false));
    } else if hosts > 0 {
      h := HistoryOf(c, hosts - 1, c.perHost);
      h := Extend(c, h, Thread(hosts, Repeat(hosts, c.perHost), 0, false));
    } else {
      h := [FreshThread];
    }
  }
  // ------------------------------------------------------------- all threads of a machine

  /** The threads, and what the completion callback keeps: complete[], curr_threads and the
      global counters. */
  datatype World = World(threads: seq<Thread>, complete: seq<bool>, currThreads: int,
                         packetsSent: nat, hostsScanned: nat, done: bool)

  predicate AllTrue(flags: seq<bool>) {
    forall i :: 0 <= i < |flags| ==> flags[i]
  }

  predicate InitWorld(w: World, n: nat) {
    && |w.threads| == n && |w.complete| == n && w.currThreads == n
    && (forall i :: 0 <= i < n ==> w.threads[i] == FreshThread && !w.complete[i])
    && w.packetsSent == 0 && w.hostsScanned == 0 && !w.done
  }

  /** shard_complete_cbi for thread i. */
  predicate Callback(w: World, w': World, i: nat) {
    && i < |w.threads| == |w.complete|
    && w.threads[i].finished && !w.complete[i]
    && w' == World(w.threads, w.complete[i := true], w.currThreads - 1,
                   w.packetsSent + w.threads[i].packets, w.hostsScanned + w.threads[i].hosts,
                   w.done || AllTrue(w.complete[i := true]))
  }

  predicate Sends(limits: seq<Limits>, w: World, w': World, i: nat) {
    && i < |w.threads| == |limits|
    && |w'.threads| == |w.threads|
    && ThreadStep(limits[i], w.threads[i], w'.threads[i])
    && w' == w.(threads := w.threads[i := w'.threads[i]])
  }

  ghost predicate WorldStep(limits: seq<Limits>, w: World, w': World) {
    exists i: nat :: Sends(limits, w, w', i) || Callback(w, w', i)
  }

  function CompletePackets(w: World, n: nat): nat
    requires n <= |w.threads| == |w.complete|
  {
    if n == 0 then 0
    else CompletePackets(w, n - 1) + (if w.complete[n - 1] then w.threads[n - 1].packets else 0)
  }

  function CompleteHosts(w: World, n: nat): nat
    requires n <= |w.threads| == |w.complete|
  {
    if n == 0 then 0
    else CompleteHosts(w, n - 1) + (if w.complete[n - 1] then w.threads[n - 1].hosts else 0)
  }

  function Incomplete(flags: seq<bool>, n: nat): nat
    requires n <= |flags|
  {
    if n == 0 then 0 else Incomplete(flags, n - 1) + (if flags[n - 1] then 0 else 1)
  }

  /** iterator_get_sent and iterator_get_scanned: sums over the threads. */
  function TotalPackets(threads: seq<Thread>): nat {
    if threads == [] then 0 else TotalPackets(threads[..|threads| - 1]) + threads[|threads| - 1].packets
  }

  function TotalHosts(threads: seq<Thread>): nat {
    if threads == [] then 0 else TotalHosts(threads[..|threads| - 1]) + threads[|threads| - 1].hosts
  }

  ghost predicate WorldInvariant(limits: seq<Limits>, w: World) {
    var n := |limits|;
    && |w.threads| == n && |w.complete| == n
    && (forall i :: 0 <= i < n ==> ThreadInvariant(limits[i], w.threads[i]))
    && (forall i :: 0 <= i < n ==> w.complete[i] ==> w.threads[i].finished)
    && w.packetsSent == CompletePackets(w, n) && w.hostsScanned == CompleteHosts(w, n)
    && w.currThreads == Incomplete(w.complete, n)
    && (w.done <==> n > 0 && AllTrue(w.complete))
  }

  lemma {:induction false} InitSums(w: World, n: nat, m: nat)
    requires InitWorld(w, n) && m <= n
    ensures CompletePackets(w, m) == CompleteHosts(w, m) == 0 && Incomplete(w.complete, m) == m
  {
    if m > 0 { InitSums(w, n, m - 1); }
  }

  lemma {:induction false} CallbackSums(w: World, w': World, i: nat, m: nat)
    requires Callback(w, w', i) && m <= |w.threads|
    ensures CompletePackets(w', m) == CompletePackets(w, m) + if i < m then w.threads[i].packets else 0
    ensures CompleteHosts(w', m) == CompleteHosts(w, m) + if i < m then w.threads[i].hosts else 0
    ensures Incomplete(w'.complete, m) == Incomplete(w.complete, m) - if i < m then 1 else 0
  {
    if m > 0 { CallbackSums(w, w', i, m - 1); }
  }

  lemma {:induction false} SendSums(limits: seq<Limits>, w: World, w': World, i: nat, m: nat)
    requires Sends(limits, w, w', i) && m <= |w.threads| == |w.complete| && !w.complete[i]
    ensures CompletePackets(w', m) == CompletePackets(w, m) && CompleteHosts(w', m) == CompleteHosts(w, m)
  {
    if m > 0 { SendSums(limits, w, w', i, m - 1); }
  }

  lemma WorldKeeps(limits: seq<Limits>, w: World, w': World)
    requires WorldInvariant(limits, w) && WorldStep(limits, w, w')
    ensures WorldInvariant(limits, w')
  {
    var n := |limits|;
    var i: nat :| Sends(limits, w, w', i) || Callback(w, w', i);
    if Sends(limits, w, w', i) {
      ThreadKeeps(limits[i], w.threads[i], w'.threads[i]);
      SendSums(limits, w, w', i, n);
    } else {
      CallbackSums(w, w', i, n);
    }
  }

  /** A history of the machine, whatever the interleaving. */
  ghost predicate IsExecution(limits: seq<Limits>, ws: seq<World>) {
    |ws| > 0 &&
    if |ws| == 1 then InitWorld(ws[0], |limits|)
    else IsExecution(limits, ws[..|ws| - 1]) && WorldStep(limits, ws[|ws| - 2], ws[|ws| - 1])
  }

  lemma {:induction false} ExecutionInvariant(limits: seq<Limits>, ws: seq<World>)
    requires IsExecution(limits, ws)
    ensures WorldInvariant(limits, ws[|ws| - 1])
  {
    if |ws| == 1 {
      InitSums(ws[0], |limits|, |limits|);
    } else {
      ExecutionInvariant(limits, ws[..|ws| - 1]);
      WorldKeeps(limits, ws[|ws| - 2], ws[|ws| - 1]);
    }
  }

  lemma {:induction false} CompleteIsTotal(w: World, m: nat)
    requires m <= |w.threads| == |w.complete| && AllTrue(w.complete)
    ensures CompletePackets(w, m) == TotalPackets(w.threads[..m])
    ensures CompleteHosts(w, m) == TotalHosts(w.threads[..m])
    ensures Incomplete(w.complete, m) == 0
  {
    if m > 0 {
      CompleteIsTotal(w, m - 1);
      assert w.threads[..m][..m - 1] == w.threads[..m - 1];
    }
  }

  lemma {:induction false} SomeIncomplete(flags: seq<bool>, m: nat)
    requires m <= |flags| && Incomplete(flags, m) == 0
    ensures forall i :: 0 <= i < m ==> flags[i]
  {
    if m > 0 { SomeIncomplete(flags, m - 1); }
  }

  /** The scan is marked complete exactly when no thread is left, and then the global counters
      are the sums of the thread counters. */
  lemma Completion(limits: seq<Limits>, ws: seq<World>)
    requires IsExecution(limits, ws) && |limits| > 0
    ensures var w := ws[|ws| - 1];
      && (w.done <==> w.currThreads == 0)
      && (w.done ==> w.packetsSent == TotalPackets(w.threads) && w.hostsScanned == TotalHosts(w.threads))
  {
    var w, n := ws[|ws| - 1], |limits|;
    ExecutionInvariant(limits, ws);
    if w.done {
      CompleteIsTotal(w, n);
      assert w.threads[..n] == w.threads;
    }
    if w.currThreads == 0 { SomeIncomplete(w.complete, n); }
  }

  // ------------------------------------------------------------- from histories to a run

  lemma {:induction false} StepOfHistory(c: Limits, h: seq<Thread>, j: nat)
    requires IsHistory(c, h) && j + 1 < |h|
    ensures ThreadStep(c, h[j], h[j + 1])
  {
    if j + 2 < |h| {
      StepOfHistory(c, h[..|h| - 1], j);
    }
  }

  lemma {:induction false} FirstOfHistory(c: Limits, h: seq<Thread>)
    requires IsHistory(c, h)
    ensures h[0] == FreshThread
  {
    if |h| > 1 { FirstOfHistory(c, h[..|h| - 1]); }
  }

  /** How often a thread has had a turn. */
  function Turns(schedule: seq<nat>, i: nat): nat {
    if schedule == [] then 0
    else Turns(schedule[..|schedule| - 1], i) + if schedule[|schedule| - 1] == i then 1 else 0
  }

  /** Every thread has one history, which ends with the thread finished. */
  ghost predicate Histories(limits: seq<Limits>, hs: seq<seq<Thread>>) {
    && |hs| == |limits|
    && forall i | 0 <= i < |hs| :: IsHistory(limits[i], hs[i]) && hs[i][|hs[i]| - 1].finished
  }

  /** The schedule gives each thread no more turns than its history has steps and a callback. */
  ghost predicate Schedules(hs: seq<seq<Thread>>, schedule: seq<nat>) {
    && (forall k | 0 <= k < |schedule| :: schedule[k] < |hs|)
    && (forall i: nat | i < |hs| :: Turns(schedule, i) <= |hs[i]|)
  }

  /** The state of the machine after the turns of a schedule: a turn is the next step of the
      thread's history, or after the last one its completion callback. */
  ghost predicate Reached(hs: seq<seq<Thread>>, schedule: seq<nat>, w: World) {
    && |w.threads| == |w.complete| == |hs|
    && forall i: nat | i < |hs| ::
         && (if Turns(schedule, i) < |hs[i]| then w.threads[i] == hs[i][Turns(schedule, i)]
             else |hs[i]| > 0 && w.threads[i] == hs[i][|hs[i]| - 1])
         && (w.complete[i] <==> Turns(schedule, i) >= |hs[i]|)
  }

  /** Any interleaving of histories, with a callback after each, is a run of the machine. */
  lemma {:induction false} Interleaved(limits: seq<Limits>, hs: seq<seq<Thread>>, schedule: seq<nat>)
    returns (ws: seq<World>)
    requires Histories(limits, hs) && Schedules(hs, schedule)
    ensures IsExecution(limits, ws) && Reached(hs, schedule, ws[|ws| - 1])
  {
    if schedule == [] {
      ws := [World(seq(|hs|, i => FreshThread), seq(|hs|, i => false), |hs|, 0, 0, false)];
      forall i: nat | i < |hs| ensures hs[i][0] == FreshThread { FirstOfHistory(limits[i], hs[i]); }
    } else {
      var before, i := schedule[..|schedule| - 1], schedule[|schedule| - 1];
      var us := Interleaved(limits, hs, before);
      var w := NextWorld(limits, hs, before, i, us[|us| - 1]);
      assert before + [i] == schedule;
      ws := us + [w];
      assert ws[..|ws| - 1] == us;
    }
  }

  /** One turn of thread i. */
  lemma NextWorld(limits: seq<Limits>, hs: seq<seq<Thread>>, before: seq<nat>, i: nat, w: World) returns (w': World)
    requires Histories(limits, hs) && i < |hs| && Turns(before, i) < |hs[i]|
    requires Reached(hs, before, w)
    ensures WorldStep(limits, w, w') && Reached(hs, before + [i], w')
  {
    var at := Turns(before, i);
    forall j: nat ensures Turns(before + [i], j) == Turns(before, j) + if i == j then 1 else 0 {
      assert (before + [i])[..|before|] == before;
    }
    if at + 1 < |hs[i]| {
      StepOfHistory(limits[i], hs[i], at);
      w' := w.(threads := w.threads[i := hs[i][at + 1]]);
      assert Sends(limits, w, w', i);
    } else {
      w' := World(w.threads, w.complete[i := true], w.currThreads - 1,
                  w.packetsSent + w.threads[i].packets, w.hostsScanned + w.threads[i].hosts,
                  w.done || AllTrue(w.complete[i := true]));
      assert Callback(w, w', i);
    }
  }

  /** Where the histories end. */
  function Finals(hs: seq<seq<Thread>>): (r: seq<Thread>)
    requires forall i | 0 <= i < |hs| :: |hs[i]| > 0
    ensures |r| == |hs| && forall i | 0 <= i < |hs| :: r[i] == hs[i][|hs[i]| - 1]
  {
    seq(|hs|, i requires 0 <= i < |hs| => hs[i][|hs[i]| - 1])
  }

  /** When every thread has had all its turns, in any order, the scan is complete and the global
      counters are the sums of what the senders counted. */
  lemma AllSendersDone(limits: seq<Limits>, hs: seq<seq<Thread>>, schedule: seq<nat>) returns (ws: seq<World>)
    requires Histories(limits, hs) && |hs| > 0
    requires forall k | 0 <= k < |schedule| :: schedule[k] < |hs|
    requires forall i: nat | i < |hs| :: Turns(schedule, i) == |hs[i]|
    ensures IsExecution(limits, ws)
    ensures var w := ws[|ws| - 1];
      && w.done && w.threads == Finals(hs)
      && w.packetsSent == TotalPackets(Finals(hs)) && w.hostsScanned == TotalHosts(Finals(hs))
  {
    ws := Interleaved(limits, hs, schedule);
    var w := ws[|ws| - 1];
    assert w.threads == Finals(hs);
    ExecutionInvariant(limits, ws);
    Completion(limits, ws);
  }

  // ------------------------------------------------------------- limits of the whole scan

  /** The limits that shard_init gives the threads of shard s. */
  function ShardLimits(s: nat, numShards: nat, numThreads: nat, perHost: nat,
                       maxTargets: nat, maxPackets: nat): (ls: seq<Limits>)
    requires s < numShards
    ensures |ls| == numThreads
  {
    seq(numThreads, t requires 0 <= t < numThreads =>
      var i := SubIndex(s, numShards, t, numThreads);
      Limits(perHost, Quota(maxTargets, Subshards(numShards, numThreads), i),
             Quota(maxPackets, Subshards(numShards, numThreads), i)))
  }

  /** Packets and hosts of all threads of the first m machines. */
  function AllPackets(worlds: seq<World>, m: nat): nat
    requires m <= |worlds|
  {
    if m == 0 then 0 else AllPackets(worlds, m - 1) + TotalPackets(worlds[m - 1].threads)
  }

  function AllHosts(worlds: seq<World>, m: nat): nat
    requires m <= |worlds|
  {
    if m == 0 then 0 else AllHosts(worlds, m - 1) + TotalHosts(worlds[m - 1].threads)
  }

  lemma NextTotals(threads: seq<Thread>, m: nat)
    requires 0 < m <= |threads|
    ensures TotalHosts(threads[..m]) == TotalHosts(threads[..m - 1]) + threads[m - 1].hosts
    ensures TotalPackets(threads[..m]) == TotalPackets(threads[..m - 1]) + threads[m - 1].packets
  {
    assert threads[..m][..m - 1] == threads[..m - 1];
  }

  lemma {:induction false} ShardWithinQuota(s: nat, numShards: nat, numThreads: nat, perHost: nat,
                                            maxTargets: nat, maxPackets: nat, threads: seq<Thread>, m: nat, first: nat)
    requires first == s * numThreads
    requires s < numShards && m <= numThreads == |threads| && numThreads > 0
    requires maxTargets == 0 || maxTargets >= Subshards(numShards, numThreads)
    requires maxPackets == 0 || maxPackets >= Subshards(numShards, numThreads)
    requires var ls := ShardLimits(s, numShards, numThreads, perHost, maxTargets, maxPackets);
             forall t :: 0 <= t < numThreads ==> ThreadInvariant(ls[t], threads[t])
    ensures Subshards(numShards, numThreads) > 0
    ensures var n := Subshards(numShards, numThreads);
      && (maxTargets != 0 ==> QuotaSum(maxTargets, n, first) + TotalHosts(threads[..m])
                                <= QuotaSum(maxTargets, n, first + m))
      && (maxPackets != 0 ==> QuotaSum(maxPackets, n, first) + TotalPackets(threads[..m])
                                <= QuotaSum(maxPackets, n, first + m))
  {
    MulPositive(numShards, numThreads);
    if m > 0 {
      ShardWithinQuota(s, numShards, numThreads, perHost, maxTargets, maxPackets, threads, m - 1, first);
      var ls := ShardLimits(s, numShards, numThreads, perHost, maxTargets, maxPackets);
      assert ThreadInvariant(ls[m - 1], threads[m - 1]);
      NextTotals(threads, m);
      NextQuota(s, numShards, numThreads, maxTargets, m);
      NextQuota(s, numShards, numThreads, maxPackets, m);
    }
  }

  /** The quota of thread m-1 of shard s is what the sums of quotas differ by. */
  lemma NextQuota(s: nat, numShards: nat, numThreads: nat, total: nat, m: nat)
    requires s < numShards && 0 < m <= numThreads
    ensures Subshards(numShards, numThreads) > 0
    ensures
      var n, i := Subshards(numShards, numThreads), SubIndex(s, numShards, m - 1, numThreads);
      && QuotaSum(total, n, s * numThreads + m) == QuotaSum(total, n, s * numThreads + (m - 1)) + Quota(total, n, i)
      && (total >= n ==> Quota(total, n, i) >= 1)
  {
    MulPositive(numShards, numThreads);
    QuotasPartition(total, Subshards(numShards, numThreads));
  }

  /** Machine s of the scan ran its threads in some interleaving, up to the given state. */
  ghost predicate MachineRan(s: nat, numShards: nat, numThreads: nat, perHost: nat, maxTargets: nat, maxPackets: nat,
                             run: seq<World>, world: World)
    requires s < numShards
  {
    && IsExecution(ShardLimits(s, numShards, numThreads, perHost, maxTargets, maxPackets), run)
    && world == run[|run| - 1]
  }

  lemma MachineWithinQuota(s: nat, numShards: nat, numThreads: nat, perHost: nat, maxTargets: nat, maxPackets: nat,
                           run: seq<World>, world: World)
    requires s < numShards && numThreads > 0
    requires maxTargets == 0 || maxTargets >= Subshards(numShards, numThreads)
    requires maxPackets == 0 || maxPackets >= Subshards(numShards, numThreads)
    requires MachineRan(s, numShards, numThreads, perHost, maxTargets, maxPackets, run, world)
    ensures Subshards(numShards, numThreads) > 0
    ensures var n := Subshards(numShards, numThreads);
      && (maxTargets != 0 ==> QuotaSum(maxTargets, n, s * numThreads) + TotalHosts(world.threads)
                                <= QuotaSum(maxTargets, n, (s + 1) * numThreads))
      && (maxPackets != 0 ==> QuotaSum(maxPackets, n, s * numThreads) + TotalPackets(world.threads)
                                <= QuotaSum(maxPackets, n, (s + 1) * numThreads))
  {
    TimesStep(s, numThreads);
    ThreadsKeep(ShardLimits(s, numShards, numThreads, perHost, maxTargets, maxPackets), run);
    AllWithinQuota(s, numShards, numThreads, perHost, maxTargets, maxPackets, world.threads,
                   Subshards(numShards, numThreads), s * numThreads, (s + 1) * numThreads);
  }

  lemma AllWithinQuota(s: nat, numShards: nat, numThreads: nat, perHost: nat, maxTargets: nat, maxPackets: nat,
                       threads: seq<Thread>, n: nat, first: nat, last: nat)
    requires s < numShards && |threads| == numThreads > 0 && n == Subshards(numShards, numThreads)
    requires first == s * numThreads && last == first + numThreads
    requires maxTargets == 0 || maxTargets >= n
    requires maxPackets == 0 || maxPackets >= n
    requires var ls := ShardLimits(s, numShards, numThreads, perHost, maxTargets, maxPackets);
             forall t :: 0 <= t < numThreads ==> ThreadInvariant(ls[t], threads[t])
    ensures n > 0
    ensures maxTargets != 0 ==> QuotaSum(maxTargets, n, first) + TotalHosts(threads) <= QuotaSum(maxTargets, n, last)
    ensures maxPackets != 0 ==> QuotaSum(maxPackets, n, first) + TotalPackets(threads) <= QuotaSum(maxPackets, n, last)
  {
    assert threads[..numThreads] == threads;
    ShardWithinQuota(s, numShards, numThreads, perHost, maxTargets, maxPackets, threads, numThreads, first);
  }

  lemma ThreadsKeep(limits: seq<Limits>, run: seq<World>)
    requires IsExecution(limits, run)
    ensures var w := run[|run| - 1];
      |w.threads| == |limits| && forall t :: 0 <= t < |limits| ==> ThreadInvariant(limits[t], w.threads[t])
  {
    ExecutionInvariant(limits, run);
  }

  lemma TimesStep(s: nat, n: nat)
    ensures (s + 1) * n == s * n + n
  {
  }

  lemma {:induction false} MachinesWithinQuota(numShards: nat, numThreads: nat, perHost: nat, maxTargets: nat,
                                               maxPackets: nat, runs: seq<seq<World>>, worlds: seq<World>, m: nat)
    requires numThreads > 0 && m <= numShards && numShards > 0 && |runs| == |worlds| == numShards
    requires maxTargets == 0 || maxTargets >= Subshards(numShards, numThreads)
    requires maxPackets == 0 || maxPackets >= Subshards(numShards, numThreads)
    requires forall s: nat :: s < numShards ==>
      MachineRan(s, numShards, numThreads, perHost, maxTargets, maxPackets, runs[s], worlds[s])
    ensures Subshards(numShards, numThreads) > 0
    ensures maxTargets != 0 ==>
      AllHosts(worlds, m) <= QuotaSum(maxTargets, Subshards(numShards, numThreads), m * numThreads)
    ensures maxPackets != 0 ==>
      AllPackets(worlds, m) <= QuotaSum(maxPackets, Subshards(numShards, numThreads), m * numThreads)
  {
    MulPositive(numShards, numThreads);
    if m == 0 {
      assert m * numThreads == 0;
    } else {
      MachinesWithinQuota(numShards, numThreads, perHost, maxTargets, maxPackets, runs, worlds, m - 1);
      MachineWithinQuota(m - 1, numShards, numThreads, perHost, maxTargets, maxPackets, runs[m - 1], worlds[m - 1]);
    }
  }

  /** In every interleaving on every machine, the hosts and packets of the whole scan never
      exceed max_targets and max_packets. */
  lemma ScanWithinLimits(numShards: nat, numThreads: nat, perHost: nat, maxTargets: nat, maxPackets: nat,
                         runs: seq<seq<World>>, worlds: seq<World>)
    requires numThreads > 0 && |runs| == |worlds| == numShards
    requires maxTargets == 0 || maxTargets >= Subshards(numShards, numThreads)
    requires maxPackets == 0 || maxPackets >= Subshards(numShards, numThreads)
    requires forall s: nat :: s < numShards ==>
      MachineRan(s, numShards, numThreads, perHost, maxTargets, maxPackets, runs[s], worlds[s])
    ensures maxTargets != 0 ==> AllHosts(worlds, numShards) <= maxTargets
    ensures maxPackets != 0 ==> AllPackets(worlds, numShards) <= maxPackets
  {
    if numShards > 0 {
      MulPositive(numShards, numThreads);
      MachinesWithinQuota(numShards, numThreads, perHost, maxTargets, maxPackets, runs, worlds, numShards);
      QuotasPartition(maxTargets, Subshards(numShards, numThreads));
      QuotasPartition(maxPackets, Subshards(numShards, numThreads));
    }
  }
}
