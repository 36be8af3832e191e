/** Any number of threads writing to and reading from /dev/miev, step by step: the lock, the
    queue, the unlocked emptiness tests, the wait queue and the wake-up. */
module FifoProtocol {
  import opened Machine
  import opened Limits
  import opened EventFifo
  import opened Framing

  /** Where a thread stands in write_buf_inner or in miev_read. */
  datatype Pc =
    | Idle
    | WriteLock(text: string)                   // about to take the lock
    | WriteInsert(text: string)                 // holds it, before kfifo_in
    | WriteUnlock(text: string, copied: nat)    // holds it, after kfifo_in
    | WriteWake(text: string, copied: nat)      // has released it, before comparing and waking
    | ReadTest(count: nat, nonblock: bool)      // before the unlocked emptiness test
    | ReadWait(count: nat)                      // before the first test of wait_event
    | ReadPrepare(count: nat)                   // before prepare_to_wait
    | ReadRetest(count: nat, woken: bool)       // on the wait queue, before testing again
    | ReadSchedule(count: nat, woken: bool)     // found the queue empty, before schedule
    | ReadAsleep(count: nat)
    | ReadLock(count: nat)                      // saw data, about to take the lock
    | ReadCopy(count: nat)                      // holds it, before kfifo_to_user
    | ReadUnlock(got: nat)                      // holds it, about to release and return got

  datatype State = State(
    fifo: string, lock: Option<nat>, threads: seq<Pc>,
    inserted: seq<Insertion>, delivered: string)

  datatype Action = BeginWrite(text: string) | BeginRead(count: nat, nonblock: bool) | Advance | Signal

  function Initial(threads: nat): State {
    State("", None, seq(threads, i => Idle), [], "")
  }

  function Goto(s: State, t: nat, pc: Pc): State
    requires t < |s.threads|
  {
    s.(threads := s.threads[t := pc])
  }

  /** A sleeper becomes runnable; a reader between prepare_to_wait and schedule will not
      sleep. */
  function Woken(pc: Pc): Pc {
    match pc
    case ReadRetest(count, _) => ReadRetest(count, true)
    case ReadSchedule(count, _) => ReadSchedule(count, true)
    case ReadAsleep(count) => ReadPrepare(count)
    case _ => pc
  }

  function WakeAll(threads: seq<Pc>): seq<Pc> {
    seq(|threads|, i requires 0 <= i < |threads| => Woken(threads[i]))
  }

  /** What thread t does next by itself. A thread that waits for the lock or for a wake-up
      stays where it is. */
  function AdvanceThread(s: State, t: nat): State
    requires t < |s.threads| && |s.fifo| <= FIFO_SIZE
  {
    match s.threads[t]
    case Idle => s
    case WriteLock(text) =>
      if s.lock.None? then Goto(s, t, WriteInsert(text)).(lock := Some(t)) else s
    case WriteInsert(text) =>
      var (fifo, copied) := KfifoIn(s.fifo, text);
      Goto(s, t, WriteUnlock(text, copied)).(
        fifo := fifo, inserted := s.inserted + [Insertion(text, copied)])
    case WriteUnlock(text, copied) => Goto(s, t, WriteWake(text, copied)).(lock := None)
    case WriteWake(text, copied) =>
      if copied != |text| then Goto(s, t, Idle)
      else s.(threads := WakeAll(s.threads[t := Idle]))
    case ReadTest(count, nonblock) =>
      Goto(s, t, if s.fifo != "" then ReadLock(count) else if nonblock then Idle else ReadWait(count))
    case ReadWait(count) => Goto(s, t, if s.fifo != "" then ReadLock(count) else ReadPrepare(count))
    case ReadPrepare(count) => Goto(s, t, ReadRetest(count, false))
    case ReadRetest(count, woken) =>
      Goto(s, t, if s.fifo != "" then ReadLock(count) else ReadSchedule(count, woken))
    case ReadSchedule(count, woken) => Goto(s, t, if woken then ReadPrepare(count) else ReadAsleep(count))
    case ReadAsleep(_) => s
    case ReadLock(count) =>
      if s.lock.None? then Goto(s, t, ReadCopy(count)).(lock := Some(t)) else s
    case ReadCopy(count) =>
      var (taken, rest) := KfifoOut(s.fifo, count);
      Goto(s, t, ReadUnlock(|taken|)).(fifo := rest, delivered := s.delivered + taken)
    case ReadUnlock(_) => Goto(s, t, Idle).(lock := None)
  }

  /** Any thread may take its next step and an idle one may start a call. A signal gets a
      sleeper up, and ends the call of a reader that has found the queue empty. An empty
      message, or one longer than any writer passes on, is turned away. */
  function Step(s: State, t: nat, a: Action): State
    requires |s.fifo| <= FIFO_SIZE
  {
    if t >= |s.threads| then s
    else
      match a
      case BeginWrite(text) =>
        if s.threads[t].Idle? && 0 < |text| <= MAX_EVENT_SIZE then Goto(s, t, WriteLock(text)) else s
      case BeginRead(count, nonblock) =>
        if s.threads[t].Idle? then Goto(s, t, ReadTest(count, nonblock)) else s
      case Advance => AdvanceThread(s, t)
      case Signal =>
        (match s.threads[t]
         case ReadAsleep(count) => Goto(s, t, ReadPrepare(count))
         case ReadSchedule(_, _) => Goto(s, t, Idle)
         case _ => s)
  }

  // ---------------------------------------------------------------------------
  // Invariants
  // ---------------------------------------------------------------------------

  predicate HoldsLock(pc: Pc) {
    pc.WriteInsert? || pc.WriteUnlock? || pc.ReadCopy? || pc.ReadUnlock?
  }

  /** At most one thread is in a locked section, and the lock knows which. */
  ghost predicate LockInv(s: State) {
    forall t | 0 <= t < |s.threads| :: HoldsLock(s.threads[t]) <==> s.lock == Some(t)
  }

  predicate ValidPc(pc: Pc) {
    match pc
    case WriteLock(text) => 0 < |text| <= MAX_EVENT_SIZE
    case WriteInsert(text) => 0 < |text| <= MAX_EVENT_SIZE
    case WriteUnlock(text, copied) => copied <= |text|
    case WriteWake(text, copied) => copied <= |text|
    case _ => true
  }

  /** No byte is lost, duplicated or reordered: what readers got, followed by what is in the
      queue, is what the insertions put in. */
  ghost predicate BytesInv(s: State) {
    && |s.fifo| <= FIFO_SIZE
    && (forall t | 0 <= t < |s.threads| :: ValidPc(s.threads[t]))
    && (forall i | i in s.inserted :: i.Possible())
    && s.delivered + s.fifo == BytesOf(s.inserted)
  }

  /** Asleep, or bound to fall asleep. */
  predicate Sleeping(pc: Pc) {
    pc.ReadAsleep? || (pc.ReadSchedule? && !pc.woken)
  }

  /** Has inserted its whole message and is going to wake everybody. */
  predicate WillWake(pc: Pc) {
    (pc.WriteUnlock? || pc.WriteWake?) && pc.copied == |pc.text|
  }

  /** No lost wake-up: when there is data and somebody sleeps, a wake-up is on its way. */
  ghost predicate WakeInv(s: State) {
    s.fifo == ""
    || (forall t | 0 <= t < |s.threads| :: !Sleeping(s.threads[t]))
    || (exists w :: 0 <= w < |s.threads| && WillWake(s.threads[w]))
  }

  ghost predicate Inv(s: State) {
    LockInv(s) && BytesInv(s) && WakeInv(s)
  }

  lemma InitialInv(threads: nat)
    ensures Inv(Initial(threads))
  {
  }

  /** A thread that changes neither the lock nor its claim to it. */
  lemma MoveKeepsLock(s: State, t: nat, pc: Pc)
    requires LockInv(s) && t < |s.threads| && HoldsLock(pc) == HoldsLock(s.threads[t])
    ensures LockInv(Goto(s, t, pc))
  {
  }

  lemma StepKeepsLock(s: State, t: nat, a: Action)
    requires BytesInv(s) && LockInv(s)
    ensures LockInv(Step(s, t, a))
  {
    var s' := Step(s, t, a);
    if t < |s.threads| {
      var pc := s.threads[t];
      if a.Advance? && (pc.WriteLock? || pc.ReadLock? || HoldsLock(pc) || pc.WriteWake?) {
        assert HoldsLock(pc) ==> s.lock == Some(t);
      } else if s' != s {
        MoveKeepsLock(s, t, s'.threads[t]);
      }
    }
  }

  /** A step that moves no byte. */
  lemma MoveKeepsBytes(s: State, s': State)
    requires BytesInv(s)
    requires s'.fifo == s.fifo && s'.inserted == s.inserted && s'.delivered == s.delivered
    requires forall t | 0 <= t < |s'.threads| :: ValidPc(s'.threads[t])
    ensures BytesInv(s')
  {
  }

  lemma StepKeepsPcs(s: State, t: nat, a: Action)
    requires BytesInv(s)
    ensures |Step(s, t, a).threads| == |s.threads|
    ensures forall u | 0 <= u < |s.threads| :: ValidPc(Step(s, t, a).threads[u])
  {
  }

  lemma InsertKeepsBytes(s: State, t: nat)
    requires BytesInv(s) && t < |s.threads| && s.threads[t].WriteInsert?
    ensures BytesInv(AdvanceThread(s, t))
  {
    assert ValidPc(s.threads[t]);
    var text := s.threads[t].text;
    var (fifo, copied) := KfifoIn(s.fifo, text);
    BytesGrow(s.inserted, Insertion(text, copied));
    Associative(s.delivered, s.fifo, text[..copied]);
  }

  lemma CopyKeepsBytes(s: State, t: nat)
    requires BytesInv(s) && t < |s.threads| && s.threads[t].ReadCopy?
    ensures BytesInv(AdvanceThread(s, t))
  {
    var (taken, rest) := KfifoOut(s.fifo, s.threads[t].count);
    assert taken + rest == s.fifo;
    Associative(s.delivered, taken, rest);
  }

  lemma StepKeepsBytes(s: State, t: nat, a: Action)
    requires BytesInv(s)
    ensures BytesInv(Step(s, t, a)) && |Step(s, t, a).threads| == |s.threads|
  {
    StepKeepsPcs(s, t, a);
    if t < |s.threads| && a.Advance? && s.threads[t].WriteInsert? {
      InsertKeepsBytes(s, t);
    } else if t < |s.threads| && a.Advance? && s.threads[t].ReadCopy? {
      CopyKeepsBytes(s, t);
    } else {
      MoveKeepsBytes(s, Step(s, t, a));
    }
  }

  /** A message that goes into the empty queue goes in whole: it is far shorter than the
      queue. So the queue only ever becomes nonempty by a writer that will wake. */
  lemma EmptyTakesAll(text: string)
    requires |text| <= MAX_EVENT_SIZE
    ensures KfifoIn("", text) == (text, |text|)
  {
    assert "" + text[..|text|] == text;
  }

  lemma StepKeepsWake(s: State, t: nat, a: Action)
    requires BytesInv(s) && WakeInv(s)
    ensures WakeInv(Step(s, t, a))
  {
    var s' := Step(s, t, a);
    if t < |s.threads| {
      var pc := s.threads[t];
      assert ValidPc(pc);
      if a.Advance? && pc.WriteInsert? {
        if s.fifo == "" {
          EmptyTakesAll(pc.text);
          assert WillWake(s'.threads[t]);
        }
      }
      if exists w :: 0 <= w < |s.threads| && WillWake(s.threads[w]) {
        var w :| 0 <= w < |s.threads| && WillWake(s.threads[w]);
        if w != t && !(a.Advance? && WillWake(pc)) {
          assert WillWake(s'.threads[w]);
        } else if w == t && pc.WriteUnlock? {
          assert WillWake(s'.threads[t]);
        }
      }
    }
  }

  lemma StepKeepsInv(s: State, t: nat, a: Action)
    requires Inv(s)
    ensures Inv(Step(s, t, a)) && |Step(s, t, a).threads| == |s.threads|
  {
    StepKeepsLock(s, t, a);
    StepKeepsBytes(s, t, a);
    StepKeepsWake(s, t, a);
  }

  // ---------------------------------------------------------------------------
  // Whole runs
  // ---------------------------------------------------------------------------

  /** The state after a schedule of steps; every interleaving is one. */
  ghost function Run(s: State, schedule: seq<(nat, Action)>): State
    requires Inv(s)
    decreases |schedule|
  {
    if schedule == [] then s
    else
      StepKeepsInv(s, schedule[0].0, schedule[0].1);
      Run(Step(s, schedule[0].0, schedule[0].1), schedule[1..])
  }

  /** Over every run: bytes are conserved in order, the queue never exceeds its size, and
      nobody sleeps beside data without a wake-up to come. */
  lemma {:induction false} RunKeepsInv(s: State, schedule: seq<(nat, Action)>)
    requires Inv(s)
    ensures Inv(Run(s, schedule)) && |Run(s, schedule).threads| == |s.threads|
    decreases |schedule|
  {
    if schedule != [] {
      StepKeepsInv(s, schedule[0].0, schedule[0].1);
      RunKeepsInv(Step(s, schedule[0].0, schedule[0].1), schedule[1..]);
    }
  }

  /** The state a schedule leads to from the start, with any number of threads. */
  ghost function Reached(threads: nat, schedule: seq<(nat, Action)>): (s: State)
    ensures Inv(s) && |s.threads| == threads
  {
    InitialInv(threads);
    RunKeepsInv(Initial(threads), schedule);
    Run(Initial(threads), schedule)
  }

  /** The messages a schedule hands to its writers. */
  function Texts(schedule: seq<(nat, Action)>): set<string> {
    set e | e in schedule && e.1.BeginWrite? :: e.1.text
  }

  /** Nothing but these messages waits to be inserted or was inserted. */
  ghost predicate OnlyTexts(s: State, texts: set<string>) {
    && (forall pc | pc in s.threads && (pc.WriteLock? || pc.WriteInsert?) :: pc.text in texts)
    && (forall i | i in s.inserted :: i.text in texts)
  }

  lemma StepKeepsTexts(s: State, t: nat, a: Action, texts: set<string>)
    requires Inv(s) && OnlyTexts(s, texts) && (a.BeginWrite? ==> a.text in texts)
    ensures OnlyTexts(Step(s, t, a), texts)
  {
    var s' := Step(s, t, a);
    forall pc | pc in s'.threads && (pc.WriteLock? || pc.WriteInsert?) ensures pc.text in texts {
      var u :| 0 <= u < |s'.threads| && s'.threads[u] == pc;
      assert |s'.threads| == |s.threads| && s.threads[u] in s.threads;
    }
    assert t < |s.threads| ==> s.threads[t] in s.threads;
  }

  lemma {:induction false} RunKeepsTexts(s: State, schedule: seq<(nat, Action)>, texts: set<string>)
    requires Inv(s) && OnlyTexts(s, texts) && Texts(schedule) <= texts
    ensures OnlyTexts(Run(s, schedule), texts)
    decreases |schedule|
  {
    if schedule != [] {
      var (t, a) := schedule[0];
      assert schedule[0] in schedule && (a.BeginWrite? ==> a.text in Texts(schedule));
      StepKeepsInv(s, t, a);
      StepKeepsTexts(s, t, a, texts);
      assert forall e | e in schedule[1..] :: e in schedule;
      assert Texts(schedule[1..]) <= Texts(schedule);
      RunKeepsTexts(Step(s, t, a), schedule[1..], texts);
    }
  }

  /** What was inserted was handed over: no message comes from nowhere. */
  lemma InsertedWereHandedOver(threads: nat, schedule: seq<(nat, Action)>)
    ensures forall i | i in Reached(threads, schedule).inserted :: i.text in Texts(schedule)
  {
    InitialInv(threads);
    RunKeepsTexts(Initial(threads), schedule, Texts(schedule));
  }

  lemma WakeLeavesNobodyAsleep(s: State, w: nat)
    requires BytesInv(s) && w < |s.threads| && s.threads[w].WriteWake? && WillWake(s.threads[w])
    ensures var after := Step(s, w, Advance);
            after.fifo == s.fifo && forall t | 0 <= t < |after.threads| :: !Sleeping(after.threads[t])
  {
  }

  /** Sleepers beside data are up again after at most two more steps of one writer, which
      needs neither the lock nor anybody else for them. */
  lemma SleepersGetUp(s: State) returns (w: nat, after: State)
    requires Inv(s) && s.fifo != "" && exists t :: 0 <= t < |s.threads| && Sleeping(s.threads[t])
    ensures w < |s.threads| && Inv(Step(s, w, Advance))
    ensures after == Step(s, w, Advance) || after == Step(Step(s, w, Advance), w, Advance)
    ensures Inv(after) && after.fifo == s.fifo
    ensures forall t | 0 <= t < |after.threads| :: !Sleeping(after.threads[t])
  {
    w :| 0 <= w < |s.threads| && WillWake(s.threads[w]);
    StepKeepsInv(s, w, Advance);
    after := Step(s, w, Advance);
    if s.threads[w].WriteWake? {
      WakeLeavesNobodyAsleep(s, w);
    } else {
      WakeLeavesNobodyAsleep(after, w);
      StepKeepsInv(after, w, Advance);
      after := Step(after, w, Advance);
    }
  }

  // ---------------------------------------------------------------------------
  // What readers receive
  // ---------------------------------------------------------------------------

  /** However readers cut up the stream: the complete lines they have seen are a prefix of
      the accepted messages, and all of them once the queue is empty. */
  lemma ReadersSeeFrames(s: State)
    requires Inv(s) && OneLineInsertions(s.inserted) && forall i | i in s.inserted :: Clean(i)
    ensures Lines(s.delivered).0 <= AcceptedBodies(s.inserted)
    ensures s.fifo == "" ==> Lines(s.delivered) == (AcceptedBodies(s.inserted), "")
  {
    CleanIsFramed(s.inserted);
    LinesOfPrefix(s.delivered, s.fifo);
    assert s.fifo == "" ==> s.delivered + s.fifo == s.delivered;
  }

  /** A drained queue shows its readers the accepted messages exactly when every insertion
      was clean. */
  lemma DrainedFramesIff(s: State)
    requires Inv(s) && OneLineInsertions(s.inserted) && s.fifo == ""
    ensures Lines(s.delivered) == (AcceptedBodies(s.inserted), "")
        <==> forall i | i in s.inserted :: Clean(i)
  {
    FramedIffClean(s.inserted);
    assert s.delivered + s.fifo == s.delivered;
  }
}
