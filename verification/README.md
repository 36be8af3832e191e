# Thermal CPU limiter and event queue: a Dafny model

This project models the two parts of the repository that hold real state and proves what they
keep: the CPU frequency limiter of `mi_thermal/mi_thermal_interface.c` and the event builder and
byte queue of `miev/miev.c`. `dafny verify dfyconfig.toml` checks everything.

## The limiter

Every possible CPU gets a device with a frequency table, a cached cooling level and one
FREQ_QOS_MAX request, and is put at the head of a list. A call for a CPU and a frequency takes the
first device on the list whose policy covers the CPU, raises the request to a floor that depends on
the device temperature, scans the table, rate-limits the level while the device is cool, and writes
level and request.

| module | what it holds |
|---|---|
| `Machine` | unsigned and signed 32-bit arithmetic, casts, errno values |
| `FreqTable` | the table built by repeated maximum search, in place on an array |
| `Digits`, `Temperature` | decimal text, base-0 parsing, normalisation, the seven sensors |
| `CpuLimits` | the decision for one device, as functions on values, and its laws |
| `Clusters` | the device list as values, and the cluster-to-level map it refines over runs |
| `FailingUpdates` | runs in which QoS updates fail: what limits are in force then |
| `ThermalDriver` | devices, tables and module state on the heap; init, set level, destroy |

The methods of `ThermalDriver` are proved against the functions of `CpuLimits` and `Clusters`, and
the laws are proved about those. Main results: whole runs of the per-CPU list refine a map from
cluster to level; the controller is monotone in temperature exactly when the floors of the bands
that temperatures can fall into are ordered; equal cool calls settle after an exact number of calls
exactly when the 32-bit limit does not wrap; over runs with any QoS failures a policy stays limited
to the last frequency granted; what is allocated, referenced and requested matches the list at every
failure point.

Where the code and its documentation differ, the model follows the code and the lemmas say how far:

- `MODULE_PARM_DESC` calls the floors a "minimum cap". The scan takes the largest entry at or below
  the raised request, so the cap can lie under the floor: `CpuLimits.FloorIsKeptIff`, and
  `CpuLimits.FloorIsMissed` at the default parameters.
- It calls `cpu_limits_max_step` the most a level can rise below the hot temperature. The fallback
  ignores it: `CpuLimits.RateLimitHoldsIff`, and `CpuLimits.RateLimitIsExceeded` at the defaults.
- A level above its goal comes down in one call, so settling takes one call then, not none:
  `CpuLimits.CallsNeeded`.
- The sum of level and step is an unsigned int, so with a step near 2^32 a device can go to
  and fro for ever: `CpuLimits.WrapNeverSettles`.
- The level is cached before the QoS update can fail. While the level still has to move, the next
  call repairs the request; once the call rests at the cached level, it reports success and the old
  request stays: `CpuLimits.FailedUpdateSticksIff`, and `CpuLimits.FailureSticksByDefault` at the
  defaults.
- Readings of unknown unit normalise consistently only for 0 and 10..99 degrees
  (`Temperature.UnitsAgree`), and readings next to INT_MAX come out as very cold
  (`Temperature.HotReadingWraps`).

## The event queue

An event is printed piece by piece into 2048 bytes and handed, with a footer, to a queue of 131072
bytes that readers drain in any sizes.

| module | what it holds |
|---|---|
| `Limits` | the sizes of queue, event and parameters |
| `EventText` | batch and incremental rendering as values, truncation, capacity |
| `EventParser` | a reader for the rendered text and the proof that it inverts rendering |
| `EventBuilder` | the event object and its buffer on the heap |
| `EventFifo` | the queue object: insert, write, read |
| `Framing` | splitting a byte stream at newlines |
| `FifoProtocol` | any number of readers and writers, step by step |
| `FifoSchedules` | schedules in which one thread at a time makes a whole call |
| `ReaderProgress` | calls are carried through: woken readers read, signals end only what sleeps |
| `EmptyReads` | when a read that has seen data can return 0 bytes |
| `CutInsertions` | when insertions are cut short, and what readers see then |
| `EventStream` | from adds and writes to what readers make of the stream |

Main results: over every interleaving bytes are conserved in order and nobody sleeps beside data
without a wake-up to come, after which he reads it; a call ends only at its end, on an empty queue it
must not wait for, or by a signal; readers that split at newlines get exactly the accepted events if and
only if every writer found room for its whole event or none at all, which a queue that is nearly full
denies to every message but a single newline; reads that have seen data return some exactly when at
most one thread reads; reading an event back gives its exact
typed parameters if and only if no key or value holds a double quote; a truncated event is never
written. A full buffer answers -ENOSPC except that an overlong key or value still gets -EINVAL
(`EventText.FullIsFinal`). An event is written whole exactly within the limits on its parameters and
2045 bytes of text (`EventText.WrittenWholeIff`). With the times the clock can show, i integer and s string
parameters always fit exactly when 87i + 580s <= 2002 (`EventText.CapacityIsExact`); beyond that all can
be reported as added although the event is then lost (`EventText.OneMoreIsLost`).

## The kernel, by contract

- `freq_qos_update_request` and `freq_qos_add_request`: the answer is a parameter; a negative one
  leaves the requests alone. A policy enforces the minimum of its requests.
- `cpufreq_for_each_valid_entry` ends at `CPUFREQ_TABLE_END` (~1) and skips `CPUFREQ_ENTRY_INVALID`
  (~0). A table is shorter than 2^32 entries. Policies partition the CPUs and do not change.
- `cpufreq_cpu_get`, `kzalloc`, `kmalloc_array`: whether they succeed is a parameter.
- `mult_frac`, `DIV_ROUND_CLOSEST` and `kstrtoint` are written out; signed overflow wraps, as the
  kernel is built.
- `scnprintf` writes and returns at most the room less one. `kfifo_in` and `kfifo_to_user` move the
  longest prefix that fits. `wake_up_interruptible` wakes all sleepers; `wait_event_interruptible`
  is modelled as test, prepare, test again, schedule.
- Clock, battery, sensor texts and module parameters are arguments of the call that reads them.

## Model

| member | source | states |
|---|---|---|
| Digits.GetIntegerSize | miev/miev.c:103-118 | the size is the length of the `%ld` text for a long if and only if it is not LONG_MIN, for which it is 2 |
| Digits.NatTextLength | miev/miev.c:103-118 | a number takes at most k digits exactly when it is below 10^k |
| Machine.CastIsModular | mi_thermal/mi_thermal_interface.c:392-394 | the cast of a threshold to int keeps its value modulo 2^32 |
| FreqTable.ValidEntriesAre | mi_thermal/mi_thermal_interface.c:465-469 | the entries visited are the frequencies before the first end mark that are not marked invalid |
| FreqTable.ValidEntriesCount | mi_thermal/mi_thermal_interface.c:465-469 | and each is visited as often as it stands there |
| FreqTable.FindNextMax | mi_thermal/mi_thermal_interface.c:459-472 | the largest positive valid entry below the previous maximum, 0 if there is none |
| FreqTable.FillTable | mi_thermal/mi_thermal_interface.c:769-778 | one slot per valid entry, strictly descending while positive, the positive slots being exactly the positive valid frequencies |
| FreqTable.PositivePrefix | mi_thermal/mi_thermal_interface.c:769-778 | the positive slots are a prefix as long as the number of distinct positive frequencies; duplicates leave zeros behind it |
| FreqTable.TableIsUnique | mi_thermal/mi_thermal_interface.c:769-778 | the construction's promise determines the table, so all CPUs of a policy share it |
| FreqTable.TableIsPermutation | mi_thermal/mi_thermal_interface.c:769-778 | distinct positive entries are only reordered, strictly descending |
| Temperature.PrintedIntParses | mi_thermal/mi_thermal_interface.c:371-372 | printing with `%d` and parsing with base 0 is the identity on every int |
| Temperature.BaseZeroReads | mi_thermal/mi_thermal_interface.c:341-342 | base 0 reads hexadecimal after 0x or 0X, octal after 0, decimal otherwise |
| Temperature.SignReads | mi_thermal/mi_thermal_interface.c:341-342 | one sign may stand before a number; a value that is no int is no reading |
| Temperature.GarbageIsNoReading | mi_thermal/mi_thermal_interface.c:341-342 | neither is a text with a character no number has, nor an empty one |
| Temperature.NormaliseRounds | mi_thermal/mi_thermal_interface.c:337-353 | readings below 100 are degrees, from 100 tenths and from 1000 thousandths of a degree, rounded to the nearest, up at the half |
| Temperature.UnitsAgree | mi_thermal/mi_thermal_interface.c:337-353 | degrees, tenths and thousandths of a temperature normalise alike if and only if it is 0 or 10..99 degrees |
| Temperature.HotReadingWraps | mi_thermal/mi_thermal_interface.c:347-348 | a reading of 1000 or more rounds to the nearest degree exactly up to INT_MAX - 500; above it wraps to a large negative temperature |
| Temperature.GetBatteryTemp | mi_thermal/mi_thermal_interface.c:355-373 | the normalised battery value, INT_MIN when there is none |
| Temperature.DeviceTemp | mi_thermal/mi_thermal_interface.c:375-388 | none of the seven readings exceeds it, and one of them is it |
| Temperature.GetDeviceTemp | mi_thermal/mi_thermal_interface.c:375-388 | the running maximum over the sources is the device temperature |
| CpuLimits.MultFracIsExact | mi_thermal/mi_thermal_interface.c:427-428 | for percentages up to 100 `mult_frac` is the rounded-down percentage, at most the frequency, and no product overflows 32 bits |
| CpuLimits.FloorOfBands | mi_thermal/mi_thermal_interface.c:390-398 | the floor is the rounded-down percentage of the fastest entry: the critical one from the critical threshold on, the hot one from the hot threshold to below it, else the normal one |
| CpuLimits.TargetLevel | mi_thermal/mi_thermal_interface.c:419-451 | the level decided on is inside the table for all tunables, even when state + step wraps |
| CpuLimits.ScanIsOptimal | mi_thermal/mi_thermal_interface.c:424-450 | before rate limiting the level has the largest frequency under the raised request, or is the deepest when none fits; it passes the floor by at most one level |
| CpuLimits.LevelDecided | mi_thermal/mi_thermal_interface.c:419-451 | 0 for request 0; from the hot temperature on, and with step 0, the unlimited level; below it the smaller of that and level plus step modulo 2^32 if the deepest entry fits, else the deepest level |
| CpuLimits.MonotoneInRequest | mi_thermal/mi_thermal_interface.c:424-450 | from the same state a larger nonzero request never gives a deeper level, wrap or not |
| CpuLimits.MonotoneInTemperature | mi_thermal/mi_thermal_interface.c:390-450 | with the floors of the possible bands ordered, from the same state a higher temperature never gives a shallower level, wrap or not |
| CpuLimits.MonotoneIffFloorsOrdered | mi_thermal/mi_thermal_interface.c:390-450 | for all module parameters: that holds for all devices if and only if the floors, each taken as at most 100, do not rise from band to band; without a hot band (critical threshold not above the hot one) only the critical floor and the floor count, and no temperature lies below a threshold of INT_MIN |
| CpuLimits.MonotoneStep | mi_thermal/mi_thermal_interface.c:390-450 | without wrap the decision is monotone in level, temperature and request together |
| CpuLimits.RateLimitHoldsIff | mi_thermal/mi_thermal_interface.c:438-450 | below the hot temperature a call rises by at most the step if and only if the deepest entry fits the raised request or the deepest level is within the step |
| CpuLimits.RateLimitIsExceeded | mi_thermal/mi_thermal_interface.c:448-450 | at the default parameters and 30 degrees one call on the table 1000, 980, 960 goes two levels for a step of one |
| CpuLimits.RateLimitWithinFloor | mi_thermal/mi_thermal_interface.c:438-450 | so every call keeps the step while the floor is not below the deepest entry |
| CpuLimits.FloorIsKeptIff | mi_thermal/mi_thermal_interface.c:424-450 | the frequency decided on reaches the floor if and only if no entry fits, or one lies between floor and raised request, or the rate limit stops above the request |
| CpuLimits.FloorIsMissed | mi_thermal/mi_thermal_interface.c:427-437 | at the default parameters and 30 degrees a call on the table 1000, 900, 800 ends at 900, under the floor of 920 |
| CpuLimits.SettlesIff | mi_thermal/mi_thermal_interface.c:433-446 | equal cool calls reach the unlimited level after exactly the calls needed, and stay, if and only if the limit does not wrap there nor wrap below it on the first call |
| CpuLimits.WrapNeverSettles | mi_thermal/mi_thermal_interface.c:441-444 | with the largest step the level alternates between 0 and 1 for ever |
| CpuLimits.UpdateIsSafe | mi_thermal/mi_thermal_interface.c:324-335 | whatever the QoS layer answers the level stays in range and -EINVAL never comes from the range check |
| CpuLimits.UpdateAgrees | mi_thermal/mi_thermal_interface.c:324-335 | a successful update reaches the target and keeps the request equal to the frequency of the cached level |
| CpuLimits.AgreesAfterIff | mi_thermal/mi_thermal_interface.c:324-335 | for every answer, -ENODEV and its fallback included: level and request agree after a call exactly when nothing changed and they did before, or the last update succeeded, or its value was in force already |
| CpuLimits.FailedUpdateSticksIff | mi_thermal/mi_thermal_interface.c:324-335 | after a failed update the same call changes nothing and reports success when it rests at the cached level; one successful update repairs the request if and only if the level does not rest, or the old request has its frequency anyway |
| CpuLimits.RestsIff | mi_thermal/mi_thermal_interface.c:419-451 | a call leaves the level alone exactly at the unlimited level, 0 for request 0, where the limit does not wrap |
| CpuLimits.FailureSticksByDefault | mi_thermal/mi_thermal_interface.c:324-335 | at the default parameters one failed update leaves 1000 in force while every later call for 950 reports success |
| Clusters.CallIsSafe | mi_thermal/mi_thermal_interface.c:413-453 | one call changes only the first matching device, only its level and request, and keeps all devices valid for every QoS answer |
| Clusters.CallReturns | mi_thermal/mi_thermal_interface.c:400-456 | 0 when disabled, -ENODEV when no device covers the CPU, 0 when the level stays, else the QoS answer; after -ENODEV to a scan that of the fallback, or a 0 that hides the failure at the deepest level |
| Clusters.CallRefines | mi_thermal/mi_thermal_interface.c:413-453 | a call with successful updates keeps the list consistent and retargets exactly the cluster of the CPU |
| Clusters.RunRefines | mi_thermal/mi_thermal_interface.c:400-456 | any sequence of calls keeps at most the head device of each cluster off level 0, requests agreeing with levels, and equals the run of the cluster map |
| Clusters.RunIsSafe | mi_thermal/mi_thermal_interface.c:400-456 | levels stay in range over every run, whatever the QoS layer answers |
| Clusters.EffectiveCap | mi_thermal/mi_thermal_interface.c:780-793 | the minimum of all requests on a policy, other users' included, is that of the others and the frequency of the cluster's level |
| Clusters.SameClusterSameEffect | mi_thermal/mi_thermal_interface.c:414-417 | two CPUs of a cluster are interchangeable as arguments |
| Clusters.RateLimitOverRuns | mi_thermal/mi_thermal_interface.c:438-450 | over a cool run with floors inside the tables no cluster deepens by more than the sum of the steps |
| Clusters.ListSettlesIff | mi_thermal/mi_thermal_interface.c:433-446 | on the list, equal cool calls that fit bring the cluster to its goal after exactly the calls needed, and keep it there, if and only if the limit does not wrap there nor wrap below it on the first call |
| Clusters.HotForgetsThePast | mi_thermal/mi_thermal_interface.c:438-441 | after any run, one call from the hot temperature on (or with step 0), and any equal ones after it, leave the cluster at the unlimited level whatever came before |
| Clusters.MonotoneRuns | mi_thermal/mi_thermal_interface.c:390-450 | of two runs the one at least as hot and asking for no more, call by call, never has a shallower cluster |
| FailingUpdates.RunFollowsAttempts | mi_thermal/mi_thermal_interface.c:324-335 | over any run with any QoS answers the level of a device is that of the last update asked for, its request the frequency of the last one granted |
| FailingUpdates.RunAgreesIff | mi_thermal/mi_thermal_interface.c:324-335 | they agree at the end exactly when nothing was asked for, or the last update was granted, or it asked for the frequency the earlier ones had left in force |
| FailingUpdates.RunOnList | mi_thermal/mi_thermal_interface.c:413-453 | on the list the first device of each cluster runs as if alone, and no other device ever changes |
| FailingUpdates.EffectiveCapAfterFailures | mi_thermal/mi_thermal_interface.c:780-793 | after any run with any QoS answers the policy is limited to the last frequency granted to its first device, or to what other users ask for |
| ThermalDriver.Driver.Allocate | mi_thermal/mi_thermal_interface.c:750-778 | a device and its filled table, or everything given back |
| ThermalDriver.Driver.AddDevice | mi_thermal/mi_thermal_interface.c:750-794 | device, table and request at the list head, or everything given back with the right error |
| ThermalDriver.FailureReasons | mi_thermal/mi_thermal_interface.c:740-790 | a CPU fails with -ESRCH without policy, -ENODEV without an entry that is valid and before the end mark, -ENOMEM without memory, else with a negative QoS answer |
| ThermalDriver.Driver.RegisterCpu | mi_thermal/mi_thermal_interface.c:733-794 | one CPU: on each failure point ledger and list are as before |
| ThermalDriver.Driver.InitCpufreq | mi_thermal/mi_thermal_interface.c:720-798 | the CPUs before the first failure are registered, newest first, the ledger matches the list one for one, and the return value is that of the failure or of the last registration |
| ThermalDriver.Driver.RegisteredIsConsistent | mi_thermal/mi_thermal_interface.c:720-798 | after init, complete or not, the list is consistent, so RunRefines applies |
| ThermalDriver.Driver.RemoveHead | mi_thermal/mi_thermal_interface.c:805-813 | removing a device keeps the ledger matched with the shorter list |
| ThermalDriver.Driver.DestroyCpufreq | mi_thermal/mi_thermal_interface.c:800-815 | no request, reference or allocation is left |
| ThermalDriver.Driver.SetDeviceLevel | mi_thermal/mi_thermal_interface.c:324-335 | level and request of the device change as SetLevel says, nothing else |
| ThermalDriver.Driver.RaiseToFloor | mi_thermal/mi_thermal_interface.c:424-431 | the larger of request and floor |
| ThermalDriver.Driver.Scan | mi_thermal/mi_thermal_interface.c:433-447 | the first fitting level, limited while throttled |
| ThermalDriver.Driver.UpdateDevice | mi_thermal/mi_thermal_interface.c:419-451 | the matching device changes as Update says, nothing else |
| ThermalDriver.Driver.SetLevelForCpu | mi_thermal/mi_thermal_interface.c:400-456 | on the list as values the call is CallSetLevel at the device temperature, and the ledger still matches |
| EventText.AddAllRenders | miev/miev.c:120-180 | after any adds the buffer is the batch rendering of the accepted parameters, cut at 2047 bytes |
| EventText.OnlyWholeEventsAreWritten | miev/miev.c:182-198 | a write goes through exactly when header and accepted parameters take at most 2046 bytes, and hands over all of them with the footer, short of its newline only at 2046 |
| EventText.AddAnswers | miev/miev.c:129-147 | an add succeeds exactly with fewer than 64 parameters, a key under 64, a value under 512 and fewer than 2047 bytes used; otherwise nothing changes, and the error is -EINVAL for a long key or value unless 64 parameters are there, else -ENOSPC |
| EventText.WrittenWholeIff | miev/miev.c:120-198 | an event is accepted parameter by parameter and written in full if and only if it has at most 64 parameters, of permitted lengths, and header and parameters take at most 2045 bytes |
| EventText.FullIsFinal | miev/miev.c:135-147 | a full buffer changes no more and every call fails: -ENOSPC, or -EINVAL for an overlong key or value |
| EventText.FullStaysFull | miev/miev.c:120-180 | no sequence of adds changes a full event |
| EventText.EventsWithinBoundFit | miev/miev.c:88-98 | an event whose header, with 87 bytes per integer and 580 per string, takes at most 2046 is accepted and written whole |
| EventText.CapacityOfKind | miev/miev.c:29-32 | 22 integer or 3 string parameters fit under any header |
| EventText.CapacityIsExact | miev/miev.c:88-98 | for all identifiers and clock times, events of i integer and s string parameters are always written whole if and only if 87i + 580s is at most 2002 |
| EventText.OneMoreIsLost | miev/miev.c:135-147 | 24 of the widest integers, or 4 of the widest strings, are all reported as added at any clock time, and the event cannot be written |
| EventParser.EventParsesIff | miev/miev.c:88-98 | parsing the text recovers id, time and the typed parameters if and only if keys and string values hold no double quote |
| EventParser.RenderingIsInjective | miev/miev.c:120-180 | such events with the same text are the same |
| EventParser.QuotesAreAmbiguous | miev/miev.c:167-170 | with a quote in a value one parameter can render like two |
| EventBuilder.Scnprintf | miev/miev.c:136-138 | prints what fits after the used part, ends it with a NUL and leaves the rest of the buffer alone |
| EventBuilder.MiEvent.constructor | miev/miev.c:81-99 | a new event holds exactly its header |
| EventBuilder.AllocEvent | miev/miev.c:72-100 | NULL exactly when an allocation fails; the header always fits |
| EventBuilder.MiEvent.AddInt | miev/miev.c:120-148 | in place what Add says, for every key, missing key and buffer |
| EventBuilder.MiEvent.AddStr | miev/miev.c:151-179 | in place what Add says, for every key and value |
| EventBuilder.MiEvent.Write | miev/miev.c:182-198 | without room nothing happens; else the footer is added and the whole event goes to the queue or a proper prefix with -ENOSPC |
| EventFifo.MievDevice.Insert | miev/miev.c:54-70 | 0 exactly when the whole nonempty message went in; then one wake-up; otherwise none, and a full queue ending in a prefix of it |
| EventFifo.WriteBufInner | miev/miev.c:54-70 | the same, and -EINVAL without a device |
| EventFifo.MievWrite | miev/miev.c:237-261 | the error for each failure, a missing device included; the byte count exactly when the message fits, else -ENOSPC and a full queue |
| EventFifo.MievRead | miev/miev.c:211-235 | without a device -ENODEV; an empty queue refuses or sleeps; otherwise the longest prefix asked for leaves the queue |
| Framing.FramedIffClean | miev/miev.c:54-70 | for one-line messages, splitting the inserted bytes at newlines gives exactly the accepted messages if and only if every insertion was all or nothing and every accepted one ended its line |
| FifoProtocol.EmptyTakesAll | miev/miev.c:28-29 | a message into the empty queue goes in whole |
| CutInsertions.QueueTakes64 | miev/miev.c:28-29 | the empty queue takes 64 messages of 2048 bytes, and then nothing |
| FifoProtocol.StepKeepsBytes | miev/miev.c:54-70 | each step keeps the bytes delivered plus queued equal to the bytes inserted, and the queue within its size |
| FifoProtocol.StepKeepsWake | miev/miev.c:54-70 | each step keeps: data beside a sleeper means a writer is about to wake everybody |
| FifoProtocol.RunKeepsInv | miev/miev.c:211-261 | lock exclusion, byte conservation and no lost wake-up hold over every interleaving of readers, writers and signals |
| FifoProtocol.SleepersGetUp | miev/miev.c:61-69 | sleepers beside data are up after at most two more steps of one writer |
| ReaderProgress.CallEndsIff | miev/miev.c:54-70 | a call in progress ends exactly with its last step, on an empty queue it must not wait for, or by a signal that finds it about to sleep |
| ReaderProgress.CallGoesOn | miev/miev.c:211-261 | until then it keeps its message or the number of bytes it wants, whatever the others do |
| ReaderProgress.WakesIffWhole | miev/miev.c:61-69 | a wake-up gets every waiting reader to look again, and comes exactly when the message went in whole |
| ReaderProgress.AwakeReaderReads | miev/miev.c:220-234 | beside data and with the lock free, a reader that is awake takes the longest prefix it asked for in at most five steps |
| ReaderProgress.SleeperReads | miev/miev.c:224-234 | so does one asleep after one step of some writer |
| ReaderProgress.InterruptedReadEnds | miev/miev.c:224-227 | a signal gets a sleeper on the empty queue to give up |
| ReaderProgress.BlockingReadGetsData | miev/miev.c:220-234 | a blocking read of the empty queue sleeps until any writer has written, and then delivers the first bytes of that message |
| FifoProtocol.ReadersSeeFrames | miev/miev.c:230-234 | with clean insertions the complete lines read so far are a prefix of the accepted messages, and all of them once the queue is empty |
| FifoProtocol.DrainedFramesIff | miev/miev.c:230-234 | for a drained queue that holds exactly when every insertion was clean |
| EmptyReads.NoEmptyReadsIff | miev/miev.c:220-234 | over all schedules, reads that have seen data never copy from an empty queue if and only if at most one thread reads |
| EmptyReads.SoleReaderGetsData | miev/miev.c:220-232 | over every run with one reading thread, a read that goes to copy finds data |
| EmptyReads.SecondReaderGetsNothing | miev/miev.c:220-234 | of two readers that saw the data the second can come away with 0 bytes |
| EmptyReads.EmptyReadHappens | miev/miev.c:220-234 | a schedule from the start leads there, for every message, every writer and every two readers |
| FifoProtocol.InsertedWereHandedOver | miev/miev.c:54-70 | over every run, what was inserted was handed to a writer |
| EventStream.EventIsOneLine | miev/miev.c:88-98 | an event of newline-free keys and values is one line ended by a newline |
| CutInsertions.RunCutsIff | miev/miev.c:61-66 | over every run the insertions are all or nothing if and only if each writer found room for its whole message or none |
| CutInsertions.FramedRunIff | miev/miev.c:54-70 | for whole lines and a drained queue, readers get exactly the accepted messages if and only if that is so |
| CutInsertions.BreakingBreaks | miev/miev.c:61-66 | for every message but a single newline, one thread that writes and reads by itself ends with broken frames in an empty queue |
| CutInsertions.AlwaysFramedIff | miev/miev.c:54-70 | the frames of a message hold over all schedules if and only if it is a single newline |
| EventStream.EveryRunReadsBack | miev/miev.c:182-235 | over every schedule from the start whose writers hand over events: if each finds room for its whole event or none, the lines received are the events that went in, in order, all of them once drained, and each reads back as its id, time and accepted parameters; and a drained queue has shown the accepted events, one per line, only then |

## Left out

- sysfs and procfs handlers, kobjects, class nodes, device tree, USB and panel notifiers of mi_thermal: no invariant beyond one branch.
- Character device setup, ioctl, open, release, poll, module init and exit of miev: foreign kernel calls.
- `cdev_tevent_destroy` and NULL event pointers: two frees and a guard. NULL keys and values are modelled.
- Faults in `kfifo_to_user`: the bytes moved before a fault are not modelled.
- Tunables that change in the middle of one call, and policies whose table changes during init.
- The mutex around the device list: calls of `cpu_limits_set_level` are taken one after the other.
- Kernel internals: ring indices, the QoS list, the wait queue, the cpufreq core.
- `metis`, `mi_schedule`, `mist`, `migt`, `miloadtrace`, `hwid`, `perf_helper`, `xiaomi_hooks.c`: stubs, fixed tables and straight-line registration, which would add only easy members.
- EventStream.EveryRunReadsBack: takes one write per event; a second write would append a second footer, which `EventBuilder.MiEvent.Write` describes.
