/** Runs in which QoS updates may fail: the request of a device follows the updates that were
    granted, its level those that were asked for. */
module FailingUpdates {
  import opened Machine
  import opened FreqTable
  import opened CpuLimits
  import opened Clusters

  /** An update asked of the QoS layer, and its answer. */
  datatype Attempt = Attempt(level: u32, answer: int)

  predicate Concerns(d: Device, c: Call) {
    c.k.enable && c.cpu in d.cpus
  }

  /** The updates one call asks for a device, in order: none, one, or two when an -ENODEV
      answer makes the fallback run as well. */
  function AttemptsOfCall(d: Device, c: Call): seq<Attempt> {
    var target := TargetLevel(c.k, c.temp, d.table, d.level, c.maxFreq);
    if !Concerns(d, c) || target == d.level then []
    else
      [Attempt(target, c.reply)]
      + if FallsBack(c.k, c.temp, d, c.maxFreq, c.reply) then [Attempt(|d.table| - 1, c.retry)] else []
  }

  function CallDevice(d: Device, c: Call): Device {
    if Concerns(d, c) then Update(c.k, c.temp, d, c.maxFreq, c.reply, c.retry).0 else d
  }

  function RunDevice(d: Device, calls: seq<Call>): Device
    decreases |calls|
  {
    if calls == [] then d else RunDevice(CallDevice(d, calls[0]), calls[1..])
  }

  function Attempts(d: Device, calls: seq<Call>): seq<Attempt>
    decreases |calls|
  {
    if calls == [] then []
    else AttemptsOfCall(d, calls[0]) + Attempts(CallDevice(d, calls[0]), calls[1..])
  }

  /** The level of the last update asked for. */
  function LastLevel(asked: seq<Attempt>, level: u32): u32 {
    if asked == [] then level else asked[|asked| - 1].level
  }

  ghost predicate InTable(asked: seq<Attempt>, table: Table) {
    forall a | a in asked :: a.level < |table|
  }

  /** The frequency of the last update granted. */
  ghost function LastGranted(table: Table, asked: seq<Attempt>, request: u32): u32
    requires InTable(asked, table)
  {
    if asked == [] then request
    else
      var last := asked[|asked| - 1];
      if last.answer >= 0 then table[last.level] else LastGranted(table, asked[..|asked| - 1], request)
  }

  lemma {:induction false} GrantedInTwoParts(table: Table, a: seq<Attempt>, b: seq<Attempt>, request: u32)
    requires InTable(a, table) && InTable(b, table)
    ensures InTable(a + b, table)
    ensures LastGranted(table, a + b, request) == LastGranted(table, b, LastGranted(table, a, request))
    decreases |b|
  {
    if b == [] {
      assert a + b == a;
    } else {
      var front := b[..|b| - 1];
      assert (a + b)[..|a + b| - 1] == a + front;
      GrantedInTwoParts(table, a, front, request);
    }
  }

  lemma GrantedOfOne(table: Table, a: Attempt, request: u32)
    requires a.level < |table|
    ensures LastGranted(table, [a], request) == if a.answer >= 0 then table[a.level] else request
  {
    assert [a][..0] == [];
  }

  lemma GrantedOfTwo(table: Table, a: Attempt, b: Attempt, request: u32)
    requires a.level < |table| && b.level < |table| && a.answer < 0
    ensures LastGranted(table, [a] + [b], request) == if b.answer >= 0 then table[b.level] else request
  {
    GrantedOfOne(table, a, request);
    GrantedOfOne(table, b, request);
    GrantedInTwoParts(table, [a], [b], request);
  }

  lemma UpdateInCases(k: Tunables, temp: s32, d: Device, request: u32, reply: int, retry: int)
    requires ValidDevice(d)
    ensures var target, last := TargetLevel(k, temp, d.table, d.level, request), |d.table| - 1;
            var d' := Update(k, temp, d, request, reply, retry).0;
            && (target == d.level ==> d' == d)
            && (target != d.level && !FallsBack(k, temp, d, request, reply) ==>
                  d' == d.(level := target, request := if reply >= 0 then d.table[target] else d.request))
            && (target != d.level && FallsBack(k, temp, d, request, reply) ==>
                  d' == d.(level := last, request := if retry >= 0 then d.table[last] else d.request))
  {
  }

  /** One call: the level goes where the last update asked for it to go, the request keeps
      the value of the last one granted. */
  lemma CallFollowsAttempts(d: Device, c: Call)
    requires ValidDevice(d)
    ensures var asked, d' := AttemptsOfCall(d, c), CallDevice(d, c);
            && InTable(asked, d.table) && ValidDevice(d')
            && d' == Device(d.cpus, d.table, LastLevel(asked, d.level), LastGranted(d.table, asked, d.request))
  {
    var target := TargetLevel(c.k, c.temp, d.table, d.level, c.maxFreq);
    UpdateInCases(c.k, c.temp, d, c.maxFreq, c.reply, c.retry);
    if Concerns(d, c) && target != d.level {
      var first := Attempt(target, c.reply);
      if FallsBack(c.k, c.temp, d, c.maxFreq, c.reply) {
        GrantedOfTwo(d.table, first, Attempt(|d.table| - 1, c.retry), d.request);
      } else {
        GrantedOfOne(d.table, first, d.request);
        assert AttemptsOfCall(d, c) == [first];
      }
    }
  }

  /** The same over any sequence of calls, whatever the QoS layer answers. */
  lemma {:induction false} RunFollowsAttempts(d: Device, calls: seq<Call>)
    requires ValidDevice(d)
    ensures var asked, d' := Attempts(d, calls), RunDevice(d, calls);
            && InTable(asked, d.table) && ValidDevice(d')
            && d' == Device(d.cpus, d.table, LastLevel(asked, d.level), LastGranted(d.table, asked, d.request))
    decreases |calls|
  {
    if calls != [] {
      var d1 := CallDevice(d, calls[0]);
      CallFollowsAttempts(d, calls[0]);
      RunFollowsAttempts(d1, calls[1..]);
      GrantedInTwoParts(d.table, AttemptsOfCall(d, calls[0]), Attempts(d1, calls[1..]), d.request);
    }
  }

  /** So a device that starts in agreement ends in agreement exactly when nothing was asked
      for, or the last update was granted, or it asked for the frequency the updates before
      it had left in force. */
  lemma RunAgreesIff(d: Device, calls: seq<Call>)
    requires ValidDevice(d) && Agrees(d)
    ensures var asked, d' := Attempts(d, calls), RunDevice(d, calls);
            && ValidDevice(d') && InTable(asked, d.table)
            && (Agrees(d') <==>
                  || asked == [] || asked[|asked| - 1].answer >= 0
                  || LastGranted(d.table, asked[..|asked| - 1], d.request) == d.table[asked[|asked| - 1].level])
  {
    RunFollowsAttempts(d, calls);
  }

  // ---------------------------------------------------------------------------
  // On the list
  // ---------------------------------------------------------------------------

  /** The device of its cluster nearest the list head. */
  ghost predicate First(devs: seq<Device>, i: nat)
    requires i < |devs|
  {
    forall j | 0 <= j < i :: devs[j].cpus != devs[i].cpus
  }

  lemma CallOnList(devs: seq<Device>, c: Call, i: nat)
    requires Clustered(devs) && i < |devs|
    ensures var devs' := CallSetLevel(devs, c).0;
            && |devs'| == |devs| && devs'[i] == if First(devs, i) then CallDevice(devs[i], c) else devs[i]
  {
    var n := FindDevice(devs, c.cpu);
    if n < |devs| {
      FoundIsFirst(devs, c.cpu);
      assert SamePartition(devs[n], devs[i]);
    }
  }

  /** The first device of a cluster runs as if it were alone, the others never change. */
  lemma {:induction false} RunOnList(devs: seq<Device>, calls: seq<Call>, i: nat)
    requires Clustered(devs) && i < |devs|
    ensures var devs' := Run(devs, calls);
            && |devs'| == |devs| && devs'[i] == if First(devs, i) then RunDevice(devs[i], calls) else devs[i]
    decreases |calls|
  {
    if calls != [] {
      var devs1 := CallSetLevel(devs, calls[0]).0;
      CallIsSafe(devs, calls[0]);
      CallOnList(devs, calls[0], i);
      RunOnList(devs1, calls[1..], i);
    }
  }

  lemma {:induction false} GrantedIsBelowFastest(table: Table, asked: seq<Attempt>, request: u32)
    requires Descending(table) && InTable(asked, table) && request <= table[0]
    ensures LastGranted(table, asked, request) <= table[0]
  {
    if asked != [] {
      GrantedIsBelowFastest(table, asked[..|asked| - 1], request);
    }
  }

  /** After init and any calls, with any QoS answers, a policy is limited to the frequency of
      the last update granted for its first device, or to what other users ask for if that is
      less: a failed update leaves the old limit in force. */
  lemma EffectiveCapAfterFailures(devs: seq<Device>, calls: seq<Call>, i: nat, others: u32)
    requires Consistent(devs) && i < |devs| && First(devs, i)
    ensures var d := devs[i];
            && InTable(Attempts(d, calls), d.table)
            && IsEffectiveCap(Run(devs, calls), d.cpus, others,
                              Min(others, LastGranted(d.table, Attempts(d, calls), d.request)))
  {
    var d, devs' := devs[i], Run(devs, calls);
    assert d in devs;
    RunFollowsAttempts(d, calls);
    RunOnList(devs, calls, i);
    assert devs'[i] in devs';
    GrantedIsBelowFastest(d.table, Attempts(d, calls), d.request);
    RunIsSafe(devs, calls);
    forall e | e in devs' && e.cpus == d.cpus ensures devs'[i].request <= e.request {
      var j :| 0 <= j < |devs'| && devs'[j] == e;
      RunOnList(devs, calls, j);
      if j != i {
        OtherKeepsFastest(devs, calls, i, j);
      }
    }
  }

  /** The other devices of the cluster stay at level 0, their requests at the fastest
      frequency. */
  lemma OtherKeepsFastest(devs: seq<Device>, calls: seq<Call>, i: nat, j: nat)
    requires Consistent(devs) && i < |devs| && First(devs, i) && j < |devs| && j != i
    requires |Run(devs, calls)| == |devs| && Run(devs, calls)[j].cpus == devs[i].cpus
    ensures Run(devs, calls)[j].request == devs[i].table[0] && Run(devs, calls)[j].level == 0
  {
    RunOnList(devs, calls, j);
    assert devs[j] in devs && devs[i] in devs;
    RunFollowsAttempts(devs[j], calls);
    assert devs[j].cpus == devs[i].cpus;
    assert i < j;
    assert !First(devs, j);
    assert Agrees(devs[j]) && SamePartition(devs[i], devs[j]);
  }
}
