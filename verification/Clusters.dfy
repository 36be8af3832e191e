/** The device list: one device per CPU, newest first, searched for the first match. Runs of
    cpu_limits_set_level over it refine a map from cluster to level. */
module Clusters {
  import opened Machine
  import opened FreqTable
  import opened CpuLimits

  /** One call of cpu_limits_set_level: its arguments, the device temperature and the module
      parameters it meets, and the answers of the QoS layer. */
  datatype Call = Call(cpu: nat, maxFreq: u32, temp: s32, k: Tunables, reply: int, retry: int)

  /** The first device on the list whose policy covers cpu. */
  function FindDevice(devs: seq<Device>, cpu: nat): (i: nat)
    ensures i <= |devs|
    ensures forall j | 0 <= j < i :: cpu !in devs[j].cpus
    ensures i < |devs| ==> cpu in devs[i].cpus
  {
    if devs == [] || cpu in devs[0].cpus then 0 else 1 + FindDevice(devs[1..], cpu)
  }

  /** cpu_limits_set_level. */
  function CallSetLevel(devs: seq<Device>, c: Call): (seq<Device>, int) {
    var i := FindDevice(devs, c.cpu);
    if !c.k.enable then (devs, 0)
    else if i == |devs| then (devs, -ENODEV)
    else
      var (d, ret) := Update(c.k, c.temp, devs[i], c.maxFreq, c.reply, c.retry);
      (devs[i := d], ret)
  }

  // ---------------------------------------------------------------------------
  // What every call keeps
  // ---------------------------------------------------------------------------

  /** Devices of one policy share its table; different policies have no CPU in common. */
  ghost predicate SamePartition(a: Device, b: Device) {
    if a.cpus == b.cpus then a.table == b.table else a.cpus !! b.cpus
  }

  /** Every device is valid and the policies partition the CPUs. */
  ghost predicate Clustered(devs: seq<Device>) {
    && (forall d | d in devs :: ValidDevice(d))
    && forall a, b | a in devs && b in devs :: SamePartition(a, b)
  }

  /** Every request agrees with the cached level, and of the devices of a cluster only the
      one nearest the list head can have left level 0. */
  ghost predicate Consistent(devs: seq<Device>) {
    && Clustered(devs)
    && (forall d | d in devs :: Agrees(d))
    && (forall i, j | 0 <= i < j < |devs| && devs[i].cpus == devs[j].cpus :: devs[j].level == 0)
  }

  lemma ReplacementKeepsPartition(devs: seq<Device>, i: nat, d: Device)
    requires Clustered(devs) && i < |devs| && ValidDevice(d)
    requires d.cpus == devs[i].cpus && d.table == devs[i].table
    ensures Clustered(devs[i := d])
  {
    var devs' := devs[i := d];
    forall a | a in devs' ensures a in devs || a == d {
      var n :| 0 <= n < |devs'| && devs'[n] == a;
    }
    assert devs[i] in devs;
    forall a, b | a in devs' && b in devs' ensures SamePartition(a, b) {
      var a', b' := if a in devs then a else devs[i], if b in devs then b else devs[i];
      assert SamePartition(a', b');
    }
  }

  /** Index safety for every answer of the QoS layer: whatever happens, the devices stay
      valid, only the matching device changes, and only in level and request; -EINVAL is
      never of the driver's own making. */
  lemma CallIsSafe(devs: seq<Device>, c: Call)
    requires Clustered(devs)
    ensures var (devs', ret) := CallSetLevel(devs, c);
            && Clustered(devs') && |devs'| == |devs|
            && (forall i | 0 <= i < |devs| :: devs'[i].cpus == devs[i].cpus && devs'[i].table == devs[i].table)
            && (forall i | 0 <= i < |devs| && i != FindDevice(devs, c.cpu) :: devs'[i] == devs[i])
            && (ret == -EINVAL ==> c.reply == -EINVAL || c.retry == -EINVAL)
  {
    var i := FindDevice(devs, c.cpu);
    if c.k.enable && i < |devs| {
      assert devs[i] in devs;
      UpdateIsSafe(c.k, c.temp, devs[i], c.maxFreq, c.reply, c.retry);
      ReplacementKeepsPartition(devs, i, Update(c.k, c.temp, devs[i], c.maxFreq, c.reply, c.retry).0);
    }
  }

  /** What the caller is told. 0 when limiting is off, -ENODEV when no device covers the CPU.
      Otherwise 0 when the level stays, and the answer of the QoS layer when it moves. An
      answer of -ENODEV to a scan makes the fallback speak instead: for the update of the
      deepest level or, when that is the level just cached, with a 0 that hides the failure. */
  lemma CallReturns(devs: seq<Device>, c: Call, i: nat)
    requires Clustered(devs)
    requires i <= |devs| && forall j | 0 <= j < i :: c.cpu !in devs[j].cpus
    requires i < |devs| ==> c.cpu in devs[i].cpus
    ensures var (devs', ret) := CallSetLevel(devs, c);
            && |devs'| == |devs|
            && (!c.k.enable ==> devs' == devs && ret == 0)
            && (c.k.enable && i == |devs| ==> devs' == devs && ret == -ENODEV)
            && (c.k.enable && i < |devs| ==>
                  var table, before, after := devs[i].table, devs[i].level, devs'[i].level;
                  var target := TargetLevel(c.k, c.temp, table, before, c.maxFreq);
                  var fits := table[|table| - 1] <= Max(c.maxFreq, FloorFreq(c.k, c.temp, table));
                  if c.reply == -ENODEV && c.maxFreq != 0 && fits && target != before
                  then after == |table| - 1 && ret == if target == after then 0 else c.retry
                  else after == target && ret == if after == before then 0 else c.reply)
  {
    var n := FindDevice(devs, c.cpu);
    assert n == i;
    if i < |devs| {
      assert devs[i] in devs;
      ScanIsOptimal(c.k, c.temp, devs[i].table, c.maxFreq);
    }
  }

  // ---------------------------------------------------------------------------
  // The list refines a map from cluster to level
  // ---------------------------------------------------------------------------

  datatype Cluster = Cluster(table: Table, level: u32)

  type ClusterMap = map<set<nat>, Cluster>

  /** A cluster has the table and the level of its device nearest the list head. */
  function ClustersOf(devs: seq<Device>): ClusterMap {
    if devs == [] then map[]
    else ClustersOf(devs[1..])[devs[0].cpus := Cluster(devs[0].table, devs[0].level)]
  }

  ghost predicate ValidClusters(m: ClusterMap) {
    && (forall p | p in m :: Descending(m[p].table) && m[p].level < |m[p].table|)
    && forall p, q | p in m && q in m && p != q :: p !! q
  }

  /** The abstract call: one level per cluster, no list, no requests. */
  function Retarget(m: ClusterMap, c: Call): ClusterMap {
    map p | p in m ::
      if c.k.enable && c.cpu in p
      then m[p].(level := TargetLevel(c.k, c.temp, m[p].table, m[p].level, c.maxFreq))
      else m[p]
  }

  lemma RetargetKeeps(m: ClusterMap, c: Call)
    requires ValidClusters(m)
    ensures ValidClusters(Retarget(m, c))
  {
  }

  lemma {:induction false} ClustersOfMeaning(devs: seq<Device>)
    ensures forall p :: p in ClustersOf(devs) <==> exists i :: 0 <= i < |devs| && devs[i].cpus == p
    ensures forall i | 0 <= i < |devs| && (forall j | 0 <= j < i :: devs[j].cpus != devs[i].cpus) ::
              ClustersOf(devs)[devs[i].cpus] == Cluster(devs[i].table, devs[i].level)
  {
    if devs != [] {
      var rest := devs[1..];
      ClustersOfMeaning(rest);
      forall p ensures p in ClustersOf(devs) <==> exists i :: 0 <= i < |devs| && devs[i].cpus == p {
        if i :| 0 <= i < |devs| && devs[i].cpus == p {
          assert i > 0 ==> rest[i - 1].cpus == p;
        }
        if i :| 0 <= i < |rest| && rest[i].cpus == p {
          assert devs[i + 1].cpus == p;
        }
      }
      forall i | 0 <= i < |devs| && (forall j | 0 <= j < i :: devs[j].cpus != devs[i].cpus)
        ensures ClustersOf(devs)[devs[i].cpus] == Cluster(devs[i].table, devs[i].level)
      {
        if i > 0 {
          assert devs[0].cpus != devs[i].cpus;
          assert rest[i - 1] == devs[i];
          forall j | 0 <= j < i - 1 ensures rest[j].cpus != rest[i - 1].cpus {
            assert rest[j] == devs[j + 1];
          }
        }
      }
    }
  }

  /** Every cluster of the map comes from a first device. */
  lemma FirstOf(devs: seq<Device>, p: set<nat>) returns (i: nat)
    requires p in ClustersOf(devs)
    ensures i < |devs| && devs[i].cpus == p
    ensures forall j | 0 <= j < i :: devs[j].cpus != p
    ensures ClustersOf(devs)[p] == Cluster(devs[i].table, devs[i].level)
  {
    ClustersOfMeaning(devs);
    var n :| 0 <= n < |devs| && devs[n].cpus == p;
    i := 0;
    while devs[i].cpus != p
      invariant 0 <= i <= n
      invariant forall j | 0 <= j < i :: devs[j].cpus != p
      decreases n - i
    {
      i := i + 1;
    }
  }

  lemma ClustersAreValid(devs: seq<Device>)
    requires Clustered(devs)
    ensures ValidClusters(ClustersOf(devs))
  {
    var m := ClustersOf(devs);
    forall p | p in m ensures Descending(m[p].table) && m[p].level < |m[p].table| {
      var i := FirstOf(devs, p);
      assert devs[i] in devs;
    }
    forall p, q | p in m && q in m && p != q ensures p !! q {
      var i := FirstOf(devs, p);
      var j := FirstOf(devs, q);
      assert SamePartition(devs[i], devs[j]);
    }
  }

  lemma {:induction false} ClustersOfUpdate(devs: seq<Device>, i: nat, d: Device)
    requires i < |devs| && d.cpus == devs[i].cpus
    requires forall j | 0 <= j < i :: devs[j].cpus != d.cpus
    ensures ClustersOf(devs[i := d]) == ClustersOf(devs)[d.cpus := Cluster(d.table, d.level)]
  {
    if i > 0 {
      assert devs[i := d][1..] == devs[1..][i - 1 := d];
      ClustersOfUpdate(devs[1..], i - 1, d);
    }
  }

  lemma CallKeepsConsistency(devs: seq<Device>, c: Call)
    requires Consistent(devs) && c.reply >= 0
    ensures Consistent(CallSetLevel(devs, c).0)
  {
    CallIsSafe(devs, c);
    var i := FindDevice(devs, c.cpu);
    if c.k.enable && i < |devs| {
      assert devs[i] in devs;
      UpdateAgrees(c.k, c.temp, devs[i], c.maxFreq, c.reply, c.retry);
    }
    var devs' := CallSetLevel(devs, c).0;
    forall d | d in devs' ensures Agrees(d) {
      var n :| 0 <= n < |devs'| && devs'[n] == d;
      assert devs[n] in devs;
    }
    forall m, n | 0 <= m < n < |devs| && devs'[m].cpus == devs'[n].cpus ensures devs'[n].level == 0 {
      assert devs[m].cpus == devs[n].cpus;
    }
  }

  lemma RetargetOne(m: ClusterMap, c: Call, p: set<nat>)
    requires ValidClusters(m) && p in m && c.cpu in p && c.k.enable
    ensures Retarget(m, c)
         == m[p := m[p].(level := TargetLevel(c.k, c.temp, m[p].table, m[p].level, c.maxFreq))]
  {
  }

  lemma RetargetNone(m: ClusterMap, c: Call)
    requires c.k.enable ==> forall p | p in m :: c.cpu !in p
    ensures Retarget(m, c) == m
  {
  }

  lemma FoundIsFirst(devs: seq<Device>, cpu: nat)
    requires Clustered(devs) && FindDevice(devs, cpu) < |devs|
    ensures var i := FindDevice(devs, cpu);
            forall j | 0 <= j < i :: devs[j].cpus != devs[i].cpus
  {
  }

  /** One call, as long as QoS updates succeed: the list stays consistent and its cluster
      map moves exactly as the abstract call says. */
  lemma CallRefines(devs: seq<Device>, c: Call)
    requires Consistent(devs) && c.reply >= 0
    ensures Consistent(CallSetLevel(devs, c).0)
    ensures ClustersOf(CallSetLevel(devs, c).0) == Retarget(ClustersOf(devs), c)
  {
    CallKeepsConsistency(devs, c);
    var m := ClustersOf(devs);
    var i := FindDevice(devs, c.cpu);
    ClustersAreValid(devs);
    ClustersOfMeaning(devs);
    if c.k.enable && i < |devs| {
      var e := devs[i];
      assert e in devs;
      FoundIsFirst(devs, c.cpu);
      UpdateAgrees(c.k, c.temp, e, c.maxFreq, c.reply, c.retry);
      var d := Update(c.k, c.temp, e, c.maxFreq, c.reply, c.retry).0;
      ClustersOfUpdate(devs, i, d);
      RetargetOne(m, c, e.cpus);
    } else {
      RetargetNone(m, c);
    }
  }

  function Run(devs: seq<Device>, calls: seq<Call>): seq<Device>
    decreases |calls|
  {
    if calls == [] then devs else Run(CallSetLevel(devs, calls[0]).0, calls[1..])
  }

  function RunClusters(m: ClusterMap, calls: seq<Call>): ClusterMap
    decreases |calls|
  {
    if calls == [] then m else RunClusters(Retarget(m, calls[0]), calls[1..])
  }

  ghost predicate UpdatesSucceed(calls: seq<Call>) {
    forall c | c in calls :: c.reply >= 0
  }

  /** Whole runs refine: after any sequence of calls, at any temperatures and under any
      changes of the module parameters, the list is consistent and stands for the levels
      the abstract run computes. */
  lemma {:induction false} RunRefines(devs: seq<Device>, calls: seq<Call>)
    requires Consistent(devs) && UpdatesSucceed(calls)
    ensures ValidClusters(ClustersOf(devs))
    ensures Consistent(Run(devs, calls))
    ensures ClustersOf(Run(devs, calls)) == RunClusters(ClustersOf(devs), calls)
    decreases |calls|
  {
    ClustersAreValid(devs);
    if calls != [] {
      CallRefines(devs, calls[0]);
      RunRefines(CallSetLevel(devs, calls[0]).0, calls[1..]);
    }
  }

  /** Levels stay in range over every run, whatever the QoS layer answers. */
  lemma {:induction false} RunIsSafe(devs: seq<Device>, calls: seq<Call>)
    requires Clustered(devs)
    ensures Clustered(Run(devs, calls)) && |Run(devs, calls)| == |devs|
    ensures forall i | 0 <= i < |devs| :: Run(devs, calls)[i].table == devs[i].table
    decreases |calls|
  {
    if calls != [] {
      CallIsSafe(devs, calls[0]);
      RunIsSafe(CallSetLevel(devs, calls[0]).0, calls[1..]);
    }
  }

  // ---------------------------------------------------------------------------
  // What a cluster sees
  // ---------------------------------------------------------------------------

  /** The limit a policy enforces: the minimum of its FREQ_QOS_MAX requests, those of the
      devices on the list and those of other users, whose minimum is others. */
  ghost predicate IsEffectiveCap(devs: seq<Device>, p: set<nat>, others: u32, cap: u32) {
    && cap <= others
    && (forall d | d in devs && d.cpus == p :: cap <= d.request)
    && (cap == others || exists d :: d in devs && d.cpus == p && d.request == cap)
  }

  /** After any run the policy is limited to the frequency of the level of its cluster,
      although each of its CPUs holds a request of its own. */
  lemma EffectiveCap(devs: seq<Device>, p: set<nat>, others: u32)
    requires Consistent(devs) && p in ClustersOf(devs)
    ensures var cluster := ClustersOf(devs)[p];
            && cluster.level < |cluster.table|
            && IsEffectiveCap(devs, p, others, Min(others, cluster.table[cluster.level]))
  {
    var i := FirstOf(devs, p);
    assert devs[i] in devs;
    forall d | d in devs && d.cpus == p ensures devs[i].request <= d.request {
      var j :| 0 <= j < |devs| && devs[j] == d;
      if j > i {
        assert d.level == 0 && d.table == devs[i].table;
        assert d.request == d.table[0];
      }
    }
  }

  /** Any two CPUs of a cluster are interchangeable as arguments. */
  lemma SameClusterSameEffect(devs: seq<Device>, c: Call, cpu: nat, p: set<nat>)
    requires Clustered(devs) && (exists d :: d in devs && d.cpus == p)
    requires c.cpu in p && cpu in p
    ensures CallSetLevel(devs, c) == CallSetLevel(devs, c.(cpu := cpu))
  {
    var i, j := FindDevice(devs, c.cpu), FindDevice(devs, cpu);
    var n :| 0 <= n < |devs| && devs[n].cpus == p;
    assert i <= n && j <= n;
    assert SamePartition(devs[i], devs[n]) && SamePartition(devs[j], devs[n]);
  }

  // ---------------------------------------------------------------------------
  // Runs of the abstract controller
  // ---------------------------------------------------------------------------

  /** A call below the hot temperature whose floor is not below the deepest entry. */
  ghost predicate Gentle(m: ClusterMap, c: Call) {
    && c.k.maxStep != 0 && c.temp < AsInt(c.k.hotTemp)
    && forall p | p in m :: m[p].table[|m[p].table| - 1] <= FloorFreq(c.k, c.temp, m[p].table)
  }

  lemma GentleStep(m: ClusterMap, c: Call, p: set<nat>)
    requires ValidClusters(m) && p in m && Gentle(m, c)
    ensures Retarget(m, c)[p].level <= m[p].level + c.k.maxStep
  {
    RateLimitWithinFloor(c.k, c.temp, m[p].table, m[p].level, c.maxFreq);
  }

  lemma GentleKept(m: ClusterMap, c: Call, next: Call)
    requires Gentle(m, next)
    ensures Gentle(Retarget(m, c), next)
  {
  }

  /** The steps a sequence of calls may take together. */
  function StepsAllowed(calls: seq<Call>): nat {
    if calls == [] then 0 else calls[0].k.maxStep + StepsAllowed(calls[1..])
  }

  /** While the device is cool and the floors are within the tables, a run deepens no
      cluster by more than the sum of the steps its calls allow. */
  lemma {:induction false} RateLimitOverRuns(m: ClusterMap, calls: seq<Call>, p: set<nat>)
    requires ValidClusters(m) && p in m
    requires forall c | c in calls :: Gentle(m, c)
    ensures p in RunClusters(m, calls)
    ensures RunClusters(m, calls)[p].level <= m[p].level + StepsAllowed(calls)
    decreases |calls|
  {
    if calls != [] {
      var c := calls[0];
      var m' := Retarget(m, c);
      RetargetKeeps(m, c);
      assert Gentle(m, c);
      GentleStep(m, c, p);
      forall next | next in calls[1..] ensures Gentle(m', next) {
        GentleKept(m, c, next);
      }
      RateLimitOverRuns(m', calls[1..], p);
    }
  }

  /** The same call n times over. */
  function Copies(c: Call, n: nat): seq<Call> {
    seq(n, i => c)
  }

  lemma {:induction false} RepeatedFromLater(
    k: Tunables, temp: s32, table: Table, level: u32, request: u32, n: nat)
    ensures Repeated(k, temp, table, level, request, n + 1)
         == Repeated(k, temp, table, TargetLevel(k, temp, table, level, request), request, n)
    decreases n
  {
    if n > 0 {
      RepeatedFromLater(k, temp, table, level, request, n - 1);
    } else {
      assert Repeated(k, temp, table, level, request, 0) == level;
    }
  }

  /** Equal calls move a cluster as Repeated says, so SettlesIff decides its convergence. */
  lemma {:induction false} CopiesRepeat(m: ClusterMap, c: Call, n: nat, p: set<nat>)
    requires ValidClusters(m) && p in m && c.cpu in p && c.k.enable
    ensures p in RunClusters(m, Copies(c, n))
    ensures RunClusters(m, Copies(c, n))[p]
         == Cluster(m[p].table, Repeated(c.k, c.temp, m[p].table, m[p].level, c.maxFreq, n))
    decreases n
  {
    if n > 0 {
      var m' := Retarget(m, c);
      RetargetKeeps(m, c);
      assert Copies(c, n)[1..] == Copies(c, n - 1);
      CopiesRepeat(m', c, n - 1, p);
      RepeatedFromLater(c.k, c.temp, m[p].table, m[p].level, c.maxFreq, n - 1);
    }
  }

  /** On the device list, repeating a call brings the cluster to the unlimited level after
      exactly the calls needed, and keeps it there. */
  ghost predicate SettlesOnList(devs: seq<Device>, c: Call, p: set<nat>)
    requires p in ClustersOf(devs) && c.k.maxStep != 0
  {
    var cluster := ClustersOf(devs)[p];
    var goal := UnlimitedLevel(c.k, c.temp, cluster.table, c.maxFreq);
    forall n: nat :: var after := ClustersOf(Run(devs, Copies(c, n)));
      p in after && (after[p].level == goal <==> n >= CallsNeeded(cluster.level, goal, c.k.maxStep))
  }

  /** Convergence on the list, for cool calls whose request fits: if and only if the limit
      does not wrap at the level reached nor, on the first call, wrap to below it. */
  lemma ListSettlesIff(devs: seq<Device>, c: Call, p: set<nat>)
    requires Consistent(devs) && p in ClustersOf(devs) && c.cpu in p
    requires c.k.enable && c.maxFreq != 0 && c.reply >= 0
    requires c.k.maxStep != 0 && c.temp < AsInt(c.k.hotTemp)
    requires Fits(c.k, c.temp, ClustersOf(devs)[p].table, c.maxFreq)
    ensures var cluster := ClustersOf(devs)[p];
            var goal := UnlimitedLevel(c.k, c.temp, cluster.table, c.maxFreq);
            SettlesOnList(devs, c, p) <==>
              goal + c.k.maxStep < U32_RANGE && AddU32(cluster.level, c.k.maxStep) >= Min(cluster.level, goal)
  {
    var cluster := ClustersOf(devs)[p];
    ClustersAreValid(devs);
    SettlesIff(c.k, c.temp, cluster.table, cluster.level, c.maxFreq);
    forall n: nat
      ensures var after := ClustersOf(Run(devs, Copies(c, n)));
              p in after && after[p].level
                         == Repeated(c.k, c.temp, cluster.table, cluster.level, c.maxFreq, n)
    {
      RunRefines(devs, Copies(c, n));
      CopiesRepeat(ClustersOf(devs), c, n, p);
    }
  }

  lemma {:induction false} RunClustersAppend(m: ClusterMap, first: seq<Call>, later: seq<Call>)
    ensures RunClusters(m, first + later) == RunClusters(RunClusters(m, first), later)
    decreases |first|
  {
    if first == [] {
      assert first + later == later;
    } else {
      assert (first + later)[1..] == first[1..] + later;
      RunClustersAppend(Retarget(m, first[0]), first[1..], later);
    }
  }

  lemma {:induction false} RunKeepsClusters(m: ClusterMap, calls: seq<Call>)
    requires ValidClusters(m)
    ensures ValidClusters(RunClusters(m, calls)) && RunClusters(m, calls).Keys == m.Keys
    ensures forall p | p in m :: RunClusters(m, calls)[p].table == m[p].table
    decreases |calls|
  {
    if calls != [] {
      RetargetKeeps(m, calls[0]);
      RunKeepsClusters(Retarget(m, calls[0]), calls[1..]);
    }
  }

  /** Hot calls forget the past: whatever calls came before, after one call from the hot
      temperature on (or with step 0), and any number of equal ones, the cluster is at the unlimited level. */
  lemma HotForgetsThePast(devs: seq<Device>, calls: seq<Call>, c: Call, n: nat, p: set<nat>)
    requires Consistent(devs) && UpdatesSucceed(calls) && p in ClustersOf(devs) && c.cpu in p && n > 0
    requires c.k.enable && c.maxFreq != 0 && c.reply >= 0
    requires c.temp >= AsInt(c.k.hotTemp) || c.k.maxStep == 0
    ensures var table, after := ClustersOf(devs)[p].table, ClustersOf(Run(devs, calls + Copies(c, n)));
            p in after && after[p] == Cluster(table, UnlimitedLevel(c.k, c.temp, table, c.maxFreq))
  {
    var m := ClustersOf(devs);
    RunRefines(devs, calls + Copies(c, n));
    RunClustersAppend(m, calls, Copies(c, n));
    RunKeepsClusters(m, calls);
    var before := RunClusters(m, calls);
    CopiesRepeat(before, c, n, p);
    HotIsNotLimited(c.k, c.temp, before[p].table, before[p].level, c.maxFreq, n);
  }

  // ---------------------------------------------------------------------------
  // Monotone over runs
  // ---------------------------------------------------------------------------

  /** hot is the call c made at a temperature at least as high and asking for no more. */
  predicate Harsher(c: Call, hot: Call) {
    && c.cpu == hot.cpu && c.k == hot.k && c.temp <= hot.temp
    && (c.maxFreq == 0 || 0 < hot.maxFreq <= c.maxFreq)
  }

  ghost predicate Deeper(m: ClusterMap, deep: ClusterMap) {
    m.Keys == deep.Keys && forall p | p in m :: m[p].table == deep[p].table && m[p].level <= deep[p].level
  }

  ghost predicate CannotWrap(m: ClusterMap, k: Tunables) {
    forall p | p in m :: |m[p].table| + k.maxStep <= U32_RANGE
  }

  /** A run that is at least as hot and asks for no more, call by call, never leaves any
      cluster at a shallower level. */
  lemma {:induction false} MonotoneRuns(m: ClusterMap, calls: seq<Call>, deep: ClusterMap, hot: seq<Call>)
    requires ValidClusters(m) && ValidClusters(deep) && Deeper(m, deep)
    requires |calls| == |hot| && forall i | 0 <= i < |calls| ::
               Harsher(calls[i], hot[i]) && FloorsOrdered(calls[i].k) && CannotWrap(m, calls[i].k)
    ensures Deeper(RunClusters(m, calls), RunClusters(deep, hot))
    decreases |calls|
  {
    if calls != [] {
      var c, h := calls[0], hot[0];
      RetargetKeeps(m, c);
      RetargetKeeps(deep, h);
      forall p | p in m ensures Retarget(m, c)[p].level <= Retarget(deep, h)[p].level {
        MonotoneStep(c.k, m[p].table, c.temp, m[p].level, c.maxFreq, h.temp, deep[p].level, h.maxFreq);
      }
      MonotoneRuns(Retarget(m, c), calls[1..], Retarget(deep, h), hot[1..]);
    }
  }
}
