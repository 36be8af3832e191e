/** The module state of the limiter on the heap: the devices and their tables, the device
    list, and a ledger of what the kernel has handed out to it. */
module ThermalDriver {
  import opened Machine
  import opened FreqTable
  import opened Temperature
  import opened CpuLimits
  import opened Clusters

  /** A cpufreq policy; the driver never changes one. freqTable is the raw kernel table. */
  datatype Policy = Policy(cpu: nat, relatedCpus: set<nat>, freqTable: Option<seq<u32>>)

  /** An active FREQ_QOS_MAX request. */
  datatype QosRequest = QosRequest(policy: Policy, value: u32)

  class CpufreqDevice {
    var id: nat
    var cpufreqState: u32
    var maxLevel: u32
    var freqTable: array?<u32>
    var policy: Option<Policy>
    /** The CPU whose per_cpu(qos_req) the device owns. */
    var qosReq: Option<nat>

    /** kzalloc: every field is zero. */
    constructor ()
      ensures id == 0 && cpufreqState == 0 && maxLevel == 0
      ensures freqTable == null && policy == None && qosReq == None
    {
      id, cpufreqState, maxLevel := 0, 0, 0;
      freqTable, policy, qosReq := null, None, None;
    }
  }

  /** What the environment answers while init handles one possible CPU: the policy, the two
      allocations and freq_qos_add_request. */
  datatype Probe = Probe(
    cpu: nat, policy: Option<Policy>, deviceAllocated: bool, tableAllocated: bool, addReply: int)

  /** cpufreq_table_count_valid_entries. */
  function CountValidEntries(policy: Policy): nat {
    match policy.freqTable
    case Some(raw) => |ValidEntries(raw)|
    case None => 0
  }

  /** How init fails on a CPU, if it does. */
  function FailureOf(p: Probe): Option<int> {
    if p.policy.None? then Some(-ESRCH)
    else if CountValidEntries(p.policy.value) == 0 then Some(-ENODEV)
    else if !p.deviceAllocated || !p.tableAllocated then Some(-ENOMEM)
    else if p.addReply < 0 then Some(p.addReply)
    else None
  }

  /** The kernel table of a policy has an entry that is neither invalid nor the end mark. */
  ghost predicate HasValidEntry(policy: Policy) {
    match policy.freqTable
    case None => false
    case Some(raw) =>
      exists i | 0 <= i < |raw| :: raw[i] < TABLE_END && forall j | 0 <= j < i :: raw[j] != TABLE_END
  }

  lemma CountIsPositiveIff(policy: Policy)
    ensures CountValidEntries(policy) > 0 <==> HasValidEntry(policy)
  {
    if policy.freqTable.Some? {
      var raw := policy.freqTable.value;
      ValidEntriesAre(raw);
      if CountValidEntries(policy) > 0 {
        assert ValidEntries(raw)[0] in ValidEntries(raw);
      }
      if HasValidEntry(policy) {
        var i :| 0 <= i < |raw| && raw[i] < TABLE_END && forall j | 0 <= j < i :: raw[j] != TABLE_END;
        assert raw[i] in ValidEntries(raw);
      }
    }
  }

  /** Why a CPU fails: -ESRCH without a policy, -ENODEV without a valid entry in its table,
      -ENOMEM when either allocation fails, else a negative answer of the QoS layer. */
  lemma FailureReasons(p: Probe)
    ensures p.policy.None? ==> FailureOf(p) == Some(-ESRCH)
    ensures p.policy.Some? && !HasValidEntry(p.policy.value) ==> FailureOf(p) == Some(-ENODEV)
    ensures p.policy.Some? && HasValidEntry(p.policy.value) ==>
              FailureOf(p) == if !p.deviceAllocated || !p.tableAllocated then Some(-ENOMEM)
                              else if p.addReply < 0 then Some(p.addReply) else None
  {
    if p.policy.Some? {
      CountIsPositiveIff(p.policy.value);
    }
  }

  /** init stops at the first CPU that fails. */
  function Accepted(probes: seq<Probe>): (n: nat)
    ensures n <= |probes|
    ensures forall i | 0 <= i < n :: FailureOf(probes[i]).None?
    ensures n < |probes| ==> FailureOf(probes[n]).Some?
  {
    if probes == [] || FailureOf(probes[0]).Some? then 0 else 1 + Accepted(probes[1..])
  }

  lemma AcceptedIs(probes: seq<Probe>, n: nat)
    requires n <= |probes|
    requires forall i | 0 <= i < n :: FailureOf(probes[i]).None?
    requires n < |probes| ==> FailureOf(probes[n]).Some?
    ensures Accepted(probes) == n
  {
    var a := Accepted(probes);
    assert a < |probes| ==> FailureOf(probes[a]).Some?;
  }

  /** for_each_possible_cpu visits no CPU twice. */
  ghost predicate DistinctCpus(probes: seq<Probe>) {
    forall i, j | 0 <= i < j < |probes| :: probes[i].cpu != probes[j].cpu
  }

  /** A kernel table ends with the end mark. */
  ghost predicate ValidProbe(p: Probe) {
    p.policy.Some? && p.policy.value.freqTable.Some? ==> Terminated(p.policy.value.freqTable.value)
  }

  /** The cpufreq core: a CPU belongs to its policy, and policies partition the CPUs. */
  ghost predicate Partitioned(p: Probe, q: Probe) {
    p.policy.Some? && q.policy.Some? ==>
      && p.cpu in p.policy.value.relatedCpus
      && (p.policy == q.policy || p.policy.value.relatedCpus !! q.policy.value.relatedCpus)
  }

  ghost predicate PoliciesPartition(probes: seq<Probe>) {
    forall i, j | 0 <= i < |probes| && 0 <= j < |probes| :: Partitioned(probes[i], probes[j])
  }

  // ---------------------------------------------------------------------------
  // What the devices of a list hold
  // ---------------------------------------------------------------------------

  /** A device on the list with the resources it was given. */
  datatype Entry = Entry(dev: CpufreqDevice, table: array<u32>, policy: Policy, owner: nat) {

    /** As init leaves a device and every later call keeps it: it points to its resources,
        its table is the one of its policy, and its level is inside it. */
    ghost predicate Holds()
      reads dev, table
    {
      && dev.policy == Some(policy) && dev.qosReq == Some(owner) && dev.freqTable == table
      && dev.id == policy.cpu && dev.cpufreqState <= dev.maxLevel
      && table.Length == dev.maxLevel + 1 < U32_RANGE
      && policy.freqTable.Some? && IsTableOf(ValidEntries(policy.freqTable.value), table[..])
    }

    /** The device as the value the cluster lemmas are about. */
    ghost function View(qos: map<nat, QosRequest>): Device
      requires Holds() && owner in qos
      reads dev, table
    {
      Device(policy.relatedCpus, table[..], dev.cpufreqState, qos[owner].value)
    }
  }

  /** Devices, tables and requests are never shared. */
  ghost predicate Separate(es: seq<Entry>) {
    forall i, j | 0 <= i < j < |es| ::
      es[i].dev != es[j].dev && es[i].table != es[j].table && es[i].owner != es[j].owner
  }

  /** Policy references: one per device. */
  ghost function HeldPolicies(es: seq<Entry>): multiset<Policy> {
    if es == [] then multiset{} else multiset{es[0].policy} + HeldPolicies(es[1..])
  }

  /** Allocations: a device and a table each. */
  ghost function Allocations(es: seq<Entry>): set<object> {
    if es == [] then {} else {es[0].dev, es[0].table} + Allocations(es[1..])
  }

  /** The CPUs whose request a device owns. */
  ghost function RequestOwners(es: seq<Entry>): set<nat> {
    if es == [] then {} else {es[0].owner} + RequestOwners(es[1..])
  }

  lemma {:induction false} HoldingsOfMembers(es: seq<Entry>)
    ensures forall o :: o in Allocations(es) <==> exists e :: e in es && (o == e.dev || o == e.table)
    ensures forall c :: c in RequestOwners(es) <==> exists e :: e in es && e.owner == c
  {
    if es != [] {
      HoldingsOfMembers(es[1..]);
      assert forall e :: e in es <==> e == es[0] || e in es[1..];
    }
  }

  /** The active requests are those of the devices, each on the policy of its device. */
  ghost predicate RequestsMatch(es: seq<Entry>, qos: map<nat, QosRequest>) {
    && qos.Keys == RequestOwners(es)
    && forall e | e in es && e.owner in qos :: qos[e.owner].policy == e.policy
  }

  /** The ledger matches the list one for one: a policy reference, an active request on
      that policy, a device and a table for each entry, and nothing else. */
  ghost predicate Balanced(
    es: seq<Entry>, qos: map<nat, QosRequest>, refs: multiset<Policy>, live: set<object>)
  {
    && Separate(es)
    && refs == HeldPolicies(es)
    && live == Allocations(es)
    && RequestsMatch(es, qos)
  }

  lemma PushSeparate(e: Entry, es: seq<Entry>)
    requires Separate(es)
    requires e.dev !in Allocations(es) && e.table !in Allocations(es) && e.owner !in RequestOwners(es)
    ensures Separate([e] + es)
  {
    HoldingsOfMembers(es);
    forall i | 0 <= i < |es| ensures e.dev != es[i].dev && e.table != es[i].table && e.owner != es[i].owner {
      assert es[i] in es;
    }
  }

  lemma PushMatch(e: Entry, es: seq<Entry>, qos: map<nat, QosRequest>, request: QosRequest)
    requires RequestsMatch(es, qos) && e.owner !in qos && request.policy == e.policy
    ensures RequestsMatch([e] + es, qos[e.owner := request])
  {
    HoldingsOfMembers(es);
    assert ([e] + es)[1..] == es;
  }

  /** list_add of a device whose resources are all new. */
  lemma PushBalanced(
    e: Entry, es: seq<Entry>,
    qos: map<nat, QosRequest>, refs: multiset<Policy>, live: set<object>, value: u32)
    requires Balanced(es, qos, refs, live)
    requires e.dev !in live && e.table !in live && e.owner !in qos
    ensures Balanced([e] + es, qos[e.owner := QosRequest(e.policy, value)],
                     refs + multiset{e.policy}, live + {e.dev, e.table})
  {
    assert ([e] + es)[1..] == es;
    PushSeparate(e, es);
    PushMatch(e, es, qos, QosRequest(e.policy, value));
  }

  lemma HeadIsSeparate(es: seq<Entry>)
    requires es != [] && Separate(es)
    ensures Separate(es[1..])
    ensures es[0].owner !in RequestOwners(es[1..])
    ensures es[0].dev !in Allocations(es[1..]) && es[0].table !in Allocations(es[1..])
  {
    var pos, rest := es[0], es[1..];
    HoldingsOfMembers(rest);
    forall e | e in rest ensures e.dev != pos.dev && e.table != pos.table && e.owner != pos.owner {
      var i :| 0 <= i < |rest| && rest[i] == e;
      assert es[i + 1] == e;
    }
  }

  /** list_del of the head, with all it holds. */
  lemma PopBalanced(
    es: seq<Entry>, qos: map<nat, QosRequest>, refs: multiset<Policy>, live: set<object>)
    requires es != [] && Balanced(es, qos, refs, live)
    ensures Balanced(es[1..], qos - {es[0].owner}, refs - multiset{es[0].policy},
                     live - {es[0].table} - {es[0].dev})
  {
    HeadIsSeparate(es);
    assert forall e | e in es[1..] :: e in es;
  }

  lemma OwnersAreActive(es: seq<Entry>, qos: map<nat, QosRequest>, refs: multiset<Policy>, live: set<object>)
    requires Balanced(es, qos, refs, live)
    ensures forall e | e in es :: e.owner in qos
  {
    HoldingsOfMembers(es);
  }

  lemma NewOwnerIsInactive(
    es: seq<Entry>, cpu: nat, qos: map<nat, QosRequest>, refs: multiset<Policy>, live: set<object>)
    requires Balanced(es, qos, refs, live)
    requires forall e | e in es :: e.owner != cpu
    ensures cpu !in qos
  {
    HoldingsOfMembers(es);
  }

  /** The list as the value the cluster lemmas are about. */
  ghost function ViewsOf(es: seq<Entry>, qos: map<nat, QosRequest>): (views: seq<Device>)
    requires forall e | e in es :: e.Holds() && e.owner in qos
    reads set e | e in es :: e.dev, set e | e in es :: e.table
    ensures |views| == |es| && forall i | 0 <= i < |es| :: views[i] == es[i].View(qos)
  {
    if es == [] then [] else [es[0].View(qos)] + ViewsOf(es[1..], qos)
  }

  /** A device that init has just made for a CPU: level 0, its request at the fastest
      frequency of its table. */
  ghost predicate FromProbe(e: Entry, p: Probe, qos: map<nat, QosRequest>)
    reads e.dev, e.table
  {
    && p.policy == Some(e.policy) && p.cpu == e.owner && e.dev.cpufreqState == 0
    && e.table.Length > 0 && e.owner in qos && qos[e.owner].value == e.table[0]
  }

  lemma FreshDeviceIsValid(e: Entry, p: Probe, qos: map<nat, QosRequest>)
    requires e.Holds() && FromProbe(e, p, qos)
    ensures var d := e.View(qos); d.level == 0 && ValidDevice(d) && Agrees(d)
  {
  }

  lemma FreshDevicesPartition(e: Entry, f: Entry, p: Probe, q: Probe, qos: map<nat, QosRequest>)
    requires e.Holds() && FromProbe(e, p, qos) && f.Holds() && FromProbe(f, q, qos)
    requires Partitioned(p, q)
    ensures SamePartition(e.View(qos), f.View(qos))
  {
    if e.policy == f.policy {
      TableIsUnique(ValidEntries(e.policy.freqTable.value), e.table[..], f.table[..]);
    }
  }

  /** The device of CPU i stands at the mirrored place: newest first. */
  ghost predicate Mirrors(es: seq<Entry>, probes: seq<Probe>, qos: map<nat, QosRequest>)
    reads set e | e in es :: e.dev, set e | e in es :: e.table
  {
    |es| <= |probes| && forall i | 0 <= i < |es| :: FromProbe(es[|es| - 1 - i], probes[i], qos)
  }

  lemma NextCpuIsNew(es: seq<Entry>, probes: seq<Probe>, qos: map<nat, QosRequest>)
    requires DistinctCpus(probes) && |es| < |probes| && Mirrors(es, probes, qos)
    ensures forall e | e in es :: e.owner != probes[|es|].cpu
  {
    forall e | e in es ensures e.owner != probes[|es|].cpu {
      var j :| 0 <= j < |es| && es[j] == e;
      assert FromProbe(es[|es| - 1 - (|es| - 1 - j)], probes[|es| - 1 - j], qos);
    }
  }

  lemma MirrorsGrows(es: seq<Entry>, e: Entry, probes: seq<Probe>, before: map<nat, QosRequest>, value: QosRequest)
    requires |es| < |probes| && Mirrors(es, probes, before)
    requires forall o | o in es :: o.owner != e.owner
    requires FromProbe(e, probes[|es|], before[e.owner := value])
    ensures Mirrors([e] + es, probes, before[e.owner := value])
  {
    var es', n := [e] + es, |es|;
    forall i | 0 <= i <= n ensures FromProbe(es'[n - i], probes[i], before[e.owner := value]) {
      if i < n {
        assert es'[n - i] == es[n - 1 - i];
        assert FromProbe(es[n - 1 - i], probes[i], before);
      }
    }
  }

  class Driver {
    /** cpufreq_dev_list, head first. */
    var devices: seq<CpufreqDevice>
    /** Active requests by the CPU that owns them. */
    var qos: map<nat, QosRequest>
    /** References taken by cpufreq_cpu_get and not yet put. */
    var policyRefs: multiset<Policy>
    /** Allocations not yet freed. */
    var live: set<object>
    var k: Tunables
    /** The list with what each device was given. */
    ghost var entries: seq<Entry>

    constructor (k: Tunables)
      ensures Valid() && devices == [] && this.k == k
    {
      devices, qos, policyRefs, live := [], map[], multiset{}, {};
      entries := [];
      this.k := k;
    }

    ghost predicate Valid()
      reads this, set e | e in entries :: e.dev, set e | e in entries :: e.table
    {
      && |devices| == |entries|
      && (forall i | 0 <= i < |entries| :: entries[i].dev == devices[i])
      && (forall e | e in entries :: e.Holds())
      && Balanced(entries, qos, policyRefs, live)
    }

    // -------------------------------------------------------------------------
    // Registration and removal
    // -------------------------------------------------------------------------

    /** kzalloc, and the fields set before the table is there. */
    method NewDevice(cpu: nat, policy: Policy, count: nat) returns (dev: CpufreqDevice)
      requires 0 < count < U32_RANGE
      modifies `live
      ensures fresh(dev) && live == old(live) + {dev}
      ensures dev.policy == Some(policy) && dev.qosReq == Some(cpu) && dev.id == policy.cpu
      ensures dev.cpufreqState == 0 && dev.maxLevel == count - 1
    {
      dev := new CpufreqDevice();
      live := live + {dev};
      dev.policy := Some(policy);
      dev.qosReq := Some(cpu);
      dev.maxLevel := count - 1;
      dev.id := policy.cpu;
    }

    /** kmalloc_array and the loop that fills it. */
    method NewTable(raw: seq<u32>, count: nat) returns (table: array<u32>)
      requires Terminated(raw) && count == |ValidEntries(raw)|
      modifies `live
      ensures fresh(table) && live == old(live) + {table}
      ensures table.Length == count && IsTableOf(ValidEntries(raw), table[..])
    {
      table := new u32[count];
      live := live + {table};
      FillTable(raw, table);
    }

    /** kzalloc and kmalloc_array for one CPU. When either fails the policy reference is put
        and nothing stays allocated. */
    method Allocate(p: Probe, policy: Policy, count: nat)
      returns (dev: CpufreqDevice?, table: array?<u32>)
      requires policy.freqTable.Some? && Terminated(policy.freqTable.value)
      requires count == CountValidEntries(policy) > 0
      modifies `policyRefs, `live
      ensures (dev != null) == (table != null) == (p.deviceAllocated && p.tableAllocated)
      ensures dev == null ==> policyRefs == old(policyRefs) - multiset{policy} && live == old(live)
      ensures dev != null ==> policyRefs == old(policyRefs) && live == old(live) + {dev, table}
      ensures dev != null ==> fresh(dev) && fresh(table) && dev.cpufreqState == 0
      ensures dev != null ==> Entry(dev, table, policy, p.cpu).Holds()
    {
      dev, table := null, null;
      ValidEntriesBounds(policy.freqTable.value);
      if !p.deviceAllocated {
        policyRefs := policyRefs - multiset{policy};
        return;
      }
      var d := NewDevice(p.cpu, policy, count);
      if !p.tableAllocated {
        policyRefs := policyRefs - multiset{policy};
        live := live - {d};
        return;
      }
      var t := NewTable(policy.freqTable.value, count);
      d.freqTable := t;
      dev, table := d, t;
    }

    /** The second half of a round of mi_thermal_init_cpufreq: the device, its table and its
        request. Every failure gives back the policy reference and frees what was
        allocated. */
    method AddDevice(p: Probe, policy: Policy, count: nat) returns (ret: int, ghost e: Option<Entry>)
      requires policy.freqTable.Some? && Terminated(policy.freqTable.value)
      requires count == CountValidEntries(policy) > 0
      modifies `policyRefs, `live, `qos, `devices, `entries
      ensures e.Some? <==> p.deviceAllocated && p.tableAllocated && p.addReply >= 0
      ensures ret == if p.deviceAllocated && p.tableAllocated then p.addReply else -ENOMEM
      ensures e.None? ==> devices == old(devices) && entries == old(entries) && qos == old(qos)
      ensures e.None? ==> policyRefs == old(policyRefs) - multiset{policy} && live == old(live)
      ensures e.Some? ==> fresh(e.value.dev) && fresh(e.value.table)
      ensures e.Some? ==> e.value.Holds() && e.value.dev.cpufreqState == 0
      ensures e.Some? ==> policy == e.value.policy && p.cpu == e.value.owner
      ensures e.Some? ==> devices == [e.value.dev] + old(devices) && entries == [e.value] + old(entries)
      ensures e.Some? ==> qos == old(qos)[p.cpu := QosRequest(policy, e.value.table[0])]
      ensures e.Some? ==> policyRefs == old(policyRefs) && live == old(live) + {e.value.dev, e.value.table}
    {
      e := None;
      var dev, table := Allocate(p, policy, count);
      if dev == null {
        return -ENOMEM, None;
      }
      ret := p.addReply;
      if ret < 0 {
        policyRefs := policyRefs - multiset{policy};
        live := live - {table};
        live := live - {dev};
        return;
      }
      qos := qos[p.cpu := QosRequest(policy, table[0])];
      devices := [dev] + devices;
      e := Some(Entry(dev, table, policy, p.cpu));
      entries := [e.value] + entries;
    }

    /** One round of the loop of mi_thermal_init_cpufreq. A failure at any point leaves the
        ledger and the list as they were. */
    method RegisterCpu(p: Probe) returns (ret: int, ghost e: Option<Entry>)
      requires ValidProbe(p)
      modifies `policyRefs, `live, `qos, `devices, `entries
      ensures e.None? <==> FailureOf(p).Some?
      ensures e.None? ==> ret == FailureOf(p).value
      ensures e.None? ==> devices == old(devices) && entries == old(entries) && qos == old(qos)
      ensures e.None? ==> policyRefs == old(policyRefs) && live == old(live)
      ensures e.Some? ==> ret == p.addReply && fresh(e.value.dev) && fresh(e.value.table)
      ensures e.Some? ==> e.value.Holds() && e.value.dev.cpufreqState == 0
      ensures e.Some? ==> p.policy == Some(e.value.policy) && p.cpu == e.value.owner
      ensures e.Some? ==> devices == [e.value.dev] + old(devices) && entries == [e.value] + old(entries)
      ensures e.Some? ==> qos == old(qos)[p.cpu := QosRequest(e.value.policy, e.value.table[0])]
      ensures e.Some? ==> policyRefs == old(policyRefs) + multiset{e.value.policy}
      ensures e.Some? ==> live == old(live) + {e.value.dev, e.value.table}
    {
      e := None;
      if p.policy.None? {
        return -ESRCH, None;
      }
      var policy := p.policy.value;
      policyRefs := policyRefs + multiset{policy};
      var count := CountValidEntries(policy);
      if count == 0 {
        policyRefs := policyRefs - multiset{policy};
        return -ENODEV, None;
      }
      ret, e := AddDevice(p, policy, count);
    }

    /** The list holds the devices of the first n CPUs and the ledger matches it. */
    ghost predicate Registered(probes: seq<Probe>, n: nat)
      reads this, set e | e in entries :: e.dev, set e | e in entries :: e.table
    {
      |entries| == n && Valid() && Mirrors(entries, probes, qos)
    }

    /** The state after RegisterCpu has put one more device on a registered prefix. */
    lemma RegisteredGrows(
      probes: seq<Probe>, e: Entry, es: seq<Entry>,
      before: map<nat, QosRequest>, refs: multiset<Policy>, held: set<object>)
      requires |es| < |probes| && DistinctCpus(probes)
      requires Balanced(es, before, refs, held) && Mirrors(es, probes, before)
      requires (forall o | o in es :: o.Holds()) && e.Holds() && e.dev.cpufreqState == 0
      requires e.dev !in held && e.table !in held
      requires probes[|es|].policy == Some(e.policy) && probes[|es|].cpu == e.owner
      requires entries == [e] + es && qos == before[e.owner := QosRequest(e.policy, e.table[0])]
      requires policyRefs == refs + multiset{e.policy} && live == held + {e.dev, e.table}
      requires |devices| == |entries| && forall i | 0 <= i < |entries| :: entries[i].dev == devices[i]
      ensures Registered(probes, |es| + 1)
    {
      NextCpuIsNew(es, probes, before);
      NewOwnerIsInactive(es, e.owner, before, refs, held);
      PushBalanced(e, es, before, refs, held, e.table[0]);
      MirrorsGrows(es, e, probes, before, QosRequest(e.policy, e.table[0]));
    }

    /** One round on a registered prefix: the prefix grows, or all stays as it is. */
    method RegisterNext(probes: seq<Probe>, n: nat) returns (ret: int)
      requires n < |probes| && DistinctCpus(probes) && ValidProbe(probes[n])
      requires Registered(probes, n)
      modifies `policyRefs, `live, `qos, `devices, `entries
      ensures ret < 0 <==> FailureOf(probes[n]).Some?
      ensures ret == if ret < 0 then FailureOf(probes[n]).value else probes[n].addReply
      ensures Registered(probes, if ret < 0 then n else n + 1)
    {
      ghost var added;
      ret, added := RegisterCpu(probes[n]);
      assert forall o | o in old(entries) :: o.Holds();
      assert Mirrors(old(entries), probes, old(qos));
      if ret >= 0 {
        RegisteredGrows(probes, added.value, old(entries), old(qos), old(policyRefs), old(live));
      }
    }

    /** mi_thermal_init_cpufreq. Whatever fails, and on whichever CPU, the CPUs before it
        stay registered and nothing of the failing one is kept. */
    method InitCpufreq(probes: seq<Probe>) returns (ret: int)
      requires Valid() && devices == []
      requires DistinctCpus(probes) && forall i | 0 <= i < |probes| :: ValidProbe(probes[i])
      modifies `policyRefs, `live, `qos, `devices, `entries
      ensures Registered(probes, Accepted(probes))
      ensures var n := Accepted(probes);
              ret == if n < |probes| then FailureOf(probes[n]).value
                     else if n == 0 then 0 else probes[n - 1].addReply
    {
      ret := 0;
      var n := 0;
      while n < |probes|
        invariant 0 <= n <= |probes|
        invariant Registered(probes, n)
        invariant forall i | 0 <= i < n :: FailureOf(probes[i]).None?
        invariant ret == if n == 0 then 0 else probes[n - 1].addReply
      {
        ret := RegisterNext(probes, n);
        if ret < 0 {
          AcceptedIs(probes, n);
          return;
        }
        n := n + 1;
      }
      AcceptedIs(probes, n);
    }

    /** What mi_thermal_destroy_cpufreq gives back for one device. */
    method Release(pos: CpufreqDevice, ghost e: Entry)
      requires e.Holds() && pos == e.dev
      modifies `policyRefs, `live, `qos
      ensures qos == old(qos) - {e.owner}
      ensures policyRefs == old(policyRefs) - multiset{e.policy}
      ensures live == old(live) - {e.table} - {e.dev}
    {
      if pos.qosReq.Some? {
        qos := qos - {pos.qosReq.value};
      }
      if pos.policy.Some? {
        policyRefs := policyRefs - multiset{pos.policy.value};
      }
      if pos.freqTable != null {
        live := live - {pos.freqTable};
      }
      live := live - {pos};
    }

    /** One round of the loop of mi_thermal_destroy_cpufreq. */
    method RemoveHead()
      requires Valid() && devices != []
      modifies `policyRefs, `live, `qos, `devices, `entries
      ensures Valid() && devices == old(devices)[1..]
    {
      var pos := devices[0];
      assert entries[0] in entries;
      PopBalanced(entries, qos, policyRefs, live);
      devices := devices[1..];
      Release(pos, entries[0]);
      entries := entries[1..];
      forall e | e in entries ensures e.Holds() {
        assert e in old(entries);
      }
    }

    /** mi_thermal_destroy_cpufreq: every reference, request and allocation is given back. */
    method DestroyCpufreq()
      requires Valid()
      modifies this
      ensures devices == [] && qos == map[] && policyRefs == multiset{} && live == {} && k == old(k)
    {
      while devices != []
        invariant Valid() && k == old(k)
        decreases |devices|
      {
        RemoveHead();
      }
    }

    // -------------------------------------------------------------------------
    // Setting a level
    // -------------------------------------------------------------------------

    ghost function View(): seq<Device>
      requires Valid()
      reads this, set e | e in entries :: e.dev, set e | e in entries :: e.table
    {
      OwnersAreActive(entries, qos, policyRefs, live);
      ViewsOf(entries, qos)
    }

    lemma EntryOfProbe(probes: seq<Probe>, n: nat, i: nat)
      requires Registered(probes, n) && i < n
      ensures entries[i].Holds() && FromProbe(entries[i], probes[n - 1 - i], qos)
      ensures |View()| == n && View()[i] == entries[i].View(qos)
    {
      assert entries[i] in entries;
      assert FromProbe(entries[n - 1 - (n - 1 - i)], probes[n - 1 - i], qos);
      OwnersAreActive(entries, qos, policyRefs, live);
    }

    lemma FreshView(probes: seq<Probe>, n: nat, i: nat)
      requires Registered(probes, n) && i < n
      ensures |View()| == n
      ensures View()[i].level == 0 && ValidDevice(View()[i]) && Agrees(View()[i])
    {
      EntryOfProbe(probes, n, i);
      FreshDeviceIsValid(entries[i], probes[n - 1 - i], qos);
    }

    lemma FreshViewsPartition(probes: seq<Probe>, n: nat, i: nat, j: nat)
      requires Registered(probes, n) && PoliciesPartition(probes) && i < n && j < n
      ensures |View()| == n && SamePartition(View()[i], View()[j])
    {
      EntryOfProbe(probes, n, i);
      EntryOfProbe(probes, n, j);
      FreshDevicesPartition(entries[i], entries[j], probes[n - 1 - i], probes[n - 1 - j], qos);
    }

    /** After init the list is consistent, however many CPUs were registered: from here on
        RunRefines says what any sequence of calls does. */
    lemma RegisteredIsConsistent(probes: seq<Probe>, n: nat)
      requires Registered(probes, n) && PoliciesPartition(probes)
      ensures Consistent(View())
    {
      var v := View();
      forall i | 0 <= i < |v| ensures v[i].level == 0 && ValidDevice(v[i]) && Agrees(v[i]) {
        FreshView(probes, n, i);
      }
      forall a, b | a in v && b in v ensures SamePartition(a, b) {
        var i :| 0 <= i < |v| && v[i] == a;
        var j :| 0 <= j < |v| && v[j] == b;
        FreshViewsPartition(probes, n, i, j);
      }
    }

    /** cpufreq_set_level. */
    method SetDeviceLevel(dev: CpufreqDevice, state: nat, reply: int, ghost e: Entry) returns (ret: int)
      requires e.Holds() && dev == e.dev && e.owner in qos
      modifies `qos, dev`cpufreqState
      ensures e.Holds() && e.owner in qos
      ensures (e.View(qos), ret) == SetLevel(old(e.View(qos)), state, reply)
      ensures qos == old(qos)[e.owner := QosRequest(old(qos)[e.owner].policy, e.View(qos).request)]
    {
      if state > dev.maxLevel {
        return -EINVAL;
      }
      if dev.cpufreqState == state {
        return 0;
      }
      dev.cpufreqState := state;
      if reply >= 0 {
        var owner := dev.qosReq.value;
        qos := qos[owner := QosRequest(qos[owner].policy, dev.freqTable[state])];
      }
      return reply;
    }

    /** The request raised to the floor. */
    method RaiseToFloor(dev: CpufreqDevice, maxFreq: u32, temp: s32, ghost e: Entry) returns (cap: u32)
      requires e.Holds() && dev == e.dev
      ensures cap == Cap(k, temp, e.table[..], maxFreq)
    {
      cap := maxFreq;
      if dev.freqTable != null {
        var floorPct := EffectiveFloorPct(k, temp);
        var floorFreq := MultFrac(dev.freqTable[0], Min(floorPct, 100), 100);
        if cap < floorFreq {
          cap := floorFreq;
        }
      }
    }

    /** The scan: the first level that fits, rate-limited below the hot temperature. */
    method Scan(dev: CpufreqDevice, cap: u32, temp: s32, ghost e: Entry) returns (found: bool, level: u32)
      requires e.Holds() && dev == e.dev
      ensures var fit := FirstFit(e.table[..], cap);
              && (found <==> fit < e.table.Length)
              && (found ==> level == if k.maxStep != 0 && temp < AsInt(k.hotTemp)
                                     then Min(fit, AddU32(dev.cpufreqState, k.maxStep)) else fit)
    {
      level := 0;
      while level <= dev.maxLevel
        invariant 0 <= level <= e.table.Length
        invariant forall i | 0 <= i < level :: e.table[i] > cap
      {
        var targetFreq := dev.freqTable[level];
        if cap >= targetFreq {
          FirstFitIs(e.table[..], cap, level);
          if k.maxStep != 0 && temp < AsInt(k.hotTemp) && level > AddU32(dev.cpufreqState, k.maxStep) {
            level := AddU32(dev.cpufreqState, k.maxStep);
          }
          return true, level;
        }
        level := level + 1;
      }
      found := false;
    }

    /** What the call decides on for a nonzero request: the level of the scan or, if nothing
        fits, the deepest one. */
    method Decide(dev: CpufreqDevice, maxFreq: u32, temp: s32, ghost e: Entry)
      returns (found: bool, level: u32)
      requires e.Holds() && dev == e.dev && maxFreq != 0
      ensures found <==> Fits(k, temp, e.table[..], maxFreq)
      ensures (if found then level else dev.maxLevel)
           == TargetLevel(k, temp, e.table[..], dev.cpufreqState, maxFreq)
    {
      var cap := RaiseToFloor(dev, maxFreq, temp, e);
      found, level := Scan(dev, cap, temp, e);
    }

    /** The part of cpu_limits_set_level that deals with the matching device. */
    method UpdateDevice(
      dev: CpufreqDevice, maxFreq: u32, temp: s32, reply: int, retry: int, ghost e: Entry)
      returns (ret: int)
      requires e.Holds() && dev == e.dev && e.owner in qos
      modifies `qos, dev`cpufreqState
      ensures e.Holds() && e.owner in qos
      ensures (e.View(qos), ret) == Update(k, temp, old(e.View(qos)), maxFreq, reply, retry)
      ensures qos == old(qos)[e.owner := QosRequest(old(qos)[e.owner].policy, e.View(qos).request)]
    {
      if maxFreq == 0 {
        ret := SetDeviceLevel(dev, 0, reply, e);
        return;
      }
      var found, level := Decide(dev, maxFreq, temp, e);
      ret := -ENODEV;
      if found {
        ret := SetDeviceLevel(dev, level, reply, e);
      }
      if ret == -ENODEV {
        ret := SetDeviceLevel(dev, dev.maxLevel, if found then retry else reply, e);
      }
    }

    lemma OthersDiffer(n: nat)
      requires Valid() && n < |entries|
      ensures forall i | 0 <= i < |entries| && i != n ::
        entries[i].dev != entries[n].dev && entries[i].owner != entries[n].owner
    {
    }

    /** A new request value for one entry keeps the ledger in balance. */
    lemma NewValueBalances(e: Entry, before: map<nat, QosRequest>, value: u32)
      requires e in entries && e.owner in before && Balanced(entries, before, policyRefs, live)
      requires qos == before[e.owner := QosRequest(before[e.owner].policy, value)]
      ensures Balanced(entries, qos, policyRefs, live)
    {
    }

    lemma ViewIsUpdated(n: nat, before: seq<Device>, d: Device)
      requires Valid() && n < |entries| == |before|
      requires forall i | 0 <= i < |entries| ::
        entries[i].owner in qos && entries[i].View(qos) == if i == n then d else before[i]
      ensures View() == before[n := d]
    {
    }

    /** UpdateDevice on the n-th entry leaves every other entry as it was. */
    method UpdateOnly(
      n: nat, maxFreq: u32, temp: s32, reply: int, retry: int, ghost before: seq<Device>)
      returns (ret: int, ghost d: Device)
      requires Valid() && n < |entries|
      requires (forall e | e in entries :: e.owner in qos) && before == ViewsOf(entries, qos)
      modifies `qos, entries[n].dev`cpufreqState
      ensures (d, ret) == Update(k, temp, before[n], maxFreq, reply, retry)
      ensures forall e | e in entries :: e.Holds() && e.owner in qos
      ensures forall i | 0 <= i < |entries| :: entries[i].View(qos) == if i == n then d else before[i]
      ensures var owner := entries[n].owner;
              qos == old(qos)[owner := QosRequest(old(qos)[owner].policy, d.request)]
    {
      OthersDiffer(n);
      ghost var e := entries[n];
      assert e in entries;
      ret := UpdateDevice(devices[n], maxFreq, temp, reply, retry, e);
      d := e.View(qos);
    }

    /** The same, seen on the whole list. */
    method UpdateEntry(n: nat, maxFreq: u32, temp: s32, reply: int, retry: int)
      returns (ret: int, ghost d: Device)
      requires Valid() && n < |entries|
      modifies `qos, entries[n].dev`cpufreqState
      ensures Valid() && View() == old(View())[n := d]
      ensures (d, ret) == Update(k, temp, old(View())[n], maxFreq, reply, retry)
    {
      OwnersAreActive(entries, qos, policyRefs, live);
      ghost var before := View();
      ret, d := UpdateOnly(n, maxFreq, temp, reply, retry, before);
      NewValueBalances(entries[n], old(qos), d.request);
      ViewIsUpdated(n, before, d);
    }

    lemma FoundInView(n: nat, cpu: nat)
      requires Valid() && n <= |entries|
      requires forall i | 0 <= i < n :: cpu !in entries[i].policy.relatedCpus
      requires n < |entries| ==> cpu in entries[n].policy.relatedCpus
      ensures FindDevice(View(), cpu) == n
    {
      var i := FindDevice(View(), cpu);
      assert i < |entries| ==> cpu in View()[i].cpus;
      assert n < |entries| ==> cpu in View()[n].cpus;
      assert forall j | 0 <= j < n :: cpu !in View()[j].cpus;
    }

    /** The list loop of cpu_limits_set_level. */
    method SetLevelAt(cpu: nat, maxFreq: u32, temp: s32, reply: int, retry: int) returns (ret: int)
      requires Valid() && k.enable
      modifies `qos, (set e | e in entries :: e.dev)`cpufreqState
      ensures Valid()
      ensures (View(), ret) == CallSetLevel(old(View()), Call(cpu, maxFreq, temp, k, reply, retry))
    {
      ret := -ENODEV;
      var n := 0;
      while n < |devices|
        invariant 0 <= n <= |devices|
        invariant forall i | 0 <= i < n :: cpu !in entries[i].policy.relatedCpus
        invariant ret == -ENODEV
      {
        var dev := devices[n];
        assert entries[n] in entries && entries[n].Holds();
        if dev.policy.Some? && cpu in dev.policy.value.relatedCpus {
          FoundInView(n, cpu);
          ghost var d;
          ret, d := UpdateEntry(n, maxFreq, temp, reply, retry);
          return;
        }
        n := n + 1;
      }
      FoundInView(n, cpu);
    }

    /** cpu_limits_set_level: on the list as values it is CallSetLevel at the device
        temperature. */
    method SetLevelForCpu(cpu: nat, maxFreq: u32, sensors: Sensors, reply: int, retry: int)
      returns (ret: int)
      requires Valid()
      modifies `qos, (set e | e in entries :: e.dev)`cpufreqState
      ensures Valid()
      ensures var call := Call(cpu, maxFreq, DeviceTemp(sensors), k, reply, retry);
              (View(), ret) == CallSetLevel(old(View()), call)
    {
      if !k.enable {
        return 0;
      }
      var deviceTemp := GetDeviceTemp(sensors);
      ret := SetLevelAt(cpu, maxFreq, deviceTemp, reply, retry);
    }
  }
}
