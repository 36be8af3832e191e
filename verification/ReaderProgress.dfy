/** Calls that have begun are carried through: a read that was woken reads. */
module ReaderProgress {
  import opened Machine
  import opened Limits
  import opened FifoProtocol
  import opened FifoSchedules

  predicate Writing(pc: Pc) {
    pc.WriteLock? || pc.WriteInsert? || pc.WriteUnlock? || pc.WriteWake?
  }

  /** A reader that has not copied yet. */
  predicate Wanting(pc: Pc) {
    pc.ReadTest? || pc.ReadWait? || pc.ReadPrepare? || pc.ReadRetest? || pc.ReadSchedule?
    || pc.ReadAsleep? || pc.ReadLock? || pc.ReadCopy?
  }

  /** Another thread can do no more to a call than wake it. */
  lemma OthersOnlyWake(s: State, u: nat, a: Action, t: nat)
    requires Inv(s) && t < |s.threads| && u != t
    ensures |Step(s, u, a).threads| == |s.threads|
    ensures Step(s, u, a).threads[t] == s.threads[t] || Step(s, u, a).threads[t] == Woken(s.threads[t])
  {
    StepKeepsInv(s, u, a);
  }

  predicate SameCall(pc: Pc, next: Pc) {
    && (Writing(pc) ==> next.Idle? || (Writing(next) && next.text == pc.text))
    && (Wanting(pc) ==> next.Idle? || next.ReadUnlock? || (Wanting(next) && next.count == pc.count))
    && (pc.ReadUnlock? ==> next.Idle? || next == pc)
  }

  lemma OwnStepGoesOn(s: State, a: Action, t: nat)
    requires Inv(s) && t < |s.threads|
    ensures |Step(s, t, a).threads| == |s.threads| && SameCall(s.threads[t], Step(s, t, a).threads[t])
  {
    StepKeepsInv(s, t, a);
  }

  /** A call ends only at its end: a write after its wake-up, a read after its copy. But a
      read that must not block ends on an empty queue, and a signal ends one about to sleep. */
  lemma CallEndsIff(s: State, u: nat, a: Action, t: nat)
    requires Inv(s) && t < |s.threads| && !s.threads[t].Idle?
    ensures |Step(s, u, a).threads| == |s.threads|
    ensures Step(s, u, a).threads[t].Idle? <==>
              && u == t
              && var pc := s.threads[t];
                 || (a.Advance? && (pc.WriteWake? || pc.ReadUnlock?))
                 || (a.Advance? && pc.ReadTest? && pc.nonblock && s.fifo == "")
                 || (a.Signal? && pc.ReadSchedule?)
  {
    StepKeepsInv(s, u, a);
    if u != t {
      OthersOnlyWake(s, u, a, t);
    }
  }

  /** Until then it goes on with the same message, or for the same number of bytes. */
  lemma CallGoesOn(s: State, u: nat, a: Action, t: nat)
    requires Inv(s) && t < |s.threads|
    ensures |Step(s, u, a).threads| == |s.threads| && SameCall(s.threads[t], Step(s, u, a).threads[t])
  {
    if u == t {
      OwnStepGoesOn(s, a, t);
    } else {
      OthersOnlyWake(s, u, a, t);
    }
  }

  function Turns(t: nat, n: nat): seq<(nat, Action)> {
    if n == 0 then [] else [(t, Advance)] + Turns(t, n - 1)
  }

  lemma TurnFirst(s: State, t: nat, n: nat)
    requires Inv(s) && n > 0
    ensures Inv(Step(s, t, Advance)) && Run(s, Turns(t, n)) == Run(Step(s, t, Advance), Turns(t, n - 1))
  {
    StepKeepsInv(s, t, Advance);
    assert Turns(t, n)[1..] == Turns(t, n - 1);
  }

  lemma {:induction false} TurnsAppend(t: nat, m: nat, n: nat)
    ensures Turns(t, m + n) == Turns(t, m) + Turns(t, n)
  {
    if m > 0 {
      TurnsAppend(t, m - 1, n);
    }
  }

  lemma LockedReadCopies(s: State, t: nat)
    requires Inv(s) && t < |s.threads| && s.lock.None? && s.threads[t].ReadLock?
    ensures var count := s.threads[t].count;
            Run(s, Turns(t, 2))
            == Goto(Taken(s, count), t, ReadUnlock(Min(|s.fifo|, count))).(lock := Some(t))
  {
    TurnFirst(s, t, 2);
    TurnFirst(Step(s, t, Advance), t, 1);
    LocksAndCopies(s, t);
  }

  /** The steps of a reader to the lock while the queue holds data. */
  function DistanceToLock(pc: Pc): nat {
    match pc
    case ReadTest(_, _) => 1
    case ReadWait(_) => 1
    case ReadPrepare(_) => 2
    case ReadRetest(_, _) => 1
    case ReadSchedule(_, _) => 3
    case _ => 0
  }

  /** Beside data, a reader that is not asleep comes by its own steps to where it takes the
      lock. */
  lemma {:induction false} ReachesLock(s: State, t: nat, n: nat)
    requires Inv(s) && s.fifo != "" && t < |s.threads|
    requires Wanting(s.threads[t]) && !Sleeping(s.threads[t]) && !s.threads[t].ReadCopy?
    requires n == DistanceToLock(s.threads[t])
    ensures Run(s, Turns(t, n)) == Goto(s, t, ReadLock(s.threads[t].count))
    decreases n
  {
    var count := s.threads[t].count;
    if n > 0 {
      TurnFirst(s, t, n);
      var next := Step(s, t, Advance);
      assert next == Goto(s, t, next.threads[t]) && Wanting(next.threads[t]);
      ReachesLock(next, t, n - 1);
      GotoTwice(s, t, next.threads[t], ReadLock(count));
    } else {
      assert s.threads[t := ReadLock(count)] == s.threads;
    }
  }

  /** So with the lock free it takes the longest prefix it asked for within five steps. */
  lemma AwakeReaderReads(s: State, t: nat) returns (n: nat)
    requires Inv(s) && s.lock.None? && s.fifo != "" && t < |s.threads|
    requires Wanting(s.threads[t]) && !Sleeping(s.threads[t])
    ensures n == DistanceToLock(s.threads[t]) + 2 <= 5
    ensures var count := s.threads[t].count;
            Run(s, Turns(t, n))
            == Goto(Taken(s, count), t, ReadUnlock(Min(|s.fifo|, count))).(lock := Some(t))
  {
    var count := s.threads[t].count;
    var d := DistanceToLock(s.threads[t]);
    assert !HoldsLock(s.threads[t]);
    ReachesLock(s, t, d);
    TurnsAppend(t, d, 2);
    RunAppend(s, Turns(t, d), Turns(t, 2));
    LockedReadCopies(Goto(s, t, ReadLock(count)), t);
    GotoTwice(Taken(s, count), t, ReadLock(count), ReadUnlock(Min(|s.fifo|, count)));
    n := d + 2;
  }

  /** The step after an insertion wakes the waiting readers if the message went in whole, and
      none if it did not. A sleeper goes back to look at the queue, one that was about to
      sleep will not, and no other thread notices. */
  lemma WakesIffWhole(s: State, w: nat, t: nat)
    requires Inv(s) && w < |s.threads| && t < |s.threads| && w != t && s.threads[w].WriteWake?
    ensures |Step(s, w, Advance).threads| == |s.threads|
    ensures var pc, pc' := s.threads[t], Step(s, w, Advance).threads[t];
            if s.threads[w].copied < |s.threads[w].text| then pc' == pc
            else if pc.ReadAsleep? then pc' == ReadPrepare(pc.count)
            else if pc.ReadRetest? || pc.ReadSchedule? then pc' == pc.(woken := true)
            else pc' == pc
  {
    StepKeepsInv(s, w, Advance);
  }

  lemma LooksAgain(s: State, t: nat, count: nat)
    requires Inv(s) && t < |s.threads| && s.threads[t] == ReadPrepare(count) && s.fifo == ""
    ensures Run(s, [(t, Advance), (t, Advance)]) == Goto(s, t, ReadSchedule(count, false))
  {
    Run2(s, (t, Advance), (t, Advance));
    assert Step(s, t, Advance) == Goto(s, t, ReadRetest(count, false));
    GotoTwice(s, t, ReadRetest(count, false), ReadSchedule(count, false));
  }

  lemma GivesUp(s: State, t: nat, count: nat)
    requires Inv(s) && t < |s.threads| && s.threads[t] == ReadPrepare(count) && s.fifo == ""
    ensures Run(s, [(t, Advance), (t, Advance)] + [(t, Signal)]) == Goto(s, t, Idle)
  {
    LooksAgain(s, t, count);
    RunAppend(s, [(t, Advance), (t, Advance)], [(t, Signal)]);
    Run1(Goto(s, t, ReadSchedule(count, false)), (t, Signal));
    GotoTwice(s, t, ReadSchedule(count, false), Idle);
  }

  /** A signal ends a read that sleeps on the empty queue: it gets up, looks once more, and
      gives up. */
  lemma InterruptedReadEnds(s: State, t: nat)
    requires Inv(s) && t < |s.threads| && s.threads[t].ReadAsleep? && s.fifo == ""
    ensures Run(s, [(t, Signal)] + ([(t, Advance), (t, Advance)] + [(t, Signal)])) == Goto(s, t, Idle)
  {
    var count := s.threads[t].count;
    RunAppend(s, [(t, Signal)], [(t, Advance), (t, Advance)] + [(t, Signal)]);
    Run1(s, (t, Signal));
    GivesUp(Goto(s, t, ReadPrepare(count)), t, count);
    GotoTwice(s, t, ReadPrepare(count), Idle);
  }

  /** A sleeper beside data is woken by a writer and then reads: some writer can take one
      step, after which the sleeper needs five of its own. */
  lemma SleeperReads(s: State, t: nat) returns (w: nat, n: nat)
    requires Inv(s) && s.lock.None? && s.fifo != "" && t < |s.threads| && Sleeping(s.threads[t])
    ensures w < |s.threads| && w != t && n <= 5
    ensures var count, after := s.threads[t].count, Run(s, [(w, Advance)] + Turns(t, n));
            && |after.threads| == |s.threads| && after.threads[t] == ReadUnlock(Min(|s.fifo|, count))
            && after.delivered == s.delivered + s.fifo[..Min(|s.fifo|, count)]
  {
    w :| 0 <= w < |s.threads| && WillWake(s.threads[w]);
    assert s.threads[w].WriteWake?;
    StepKeepsInv(s, w, Advance);
    var woken := Step(s, w, Advance);
    assert woken.threads[t] == Woken(s.threads[t]);
    n := AwakeReaderReads(woken, t);
    Run1(s, (w, Advance));
    RunAppend(s, [(w, Advance)], Turns(t, n));
  }

  // ---------------------------------------------------------------------------
  // From the start
  // ---------------------------------------------------------------------------

  /** The steps of a blocking read on an empty queue. */
  function Dozing(count: nat, n: nat): Pc
    requires n <= 5
  {
    if n == 5 then ReadTest(count, false)
    else if n == 4 then ReadWait(count)
    else if n == 3 then ReadPrepare(count)
    else if n == 2 then ReadRetest(count, false)
    else if n == 1 then ReadSchedule(count, false)
    else ReadAsleep(count)
  }

  lemma {:induction false} Dozes(s: State, r: nat, count: nat, n: nat)
    requires Inv(s) && r < |s.threads| && s.fifo == "" && n <= 5 && s.threads[r] == Dozing(count, n)
    ensures Run(s, Turns(r, n)) == Goto(s, r, ReadAsleep(count))
    decreases n
  {
    if n > 0 {
      TurnFirst(s, r, n);
      var next := Step(s, r, Advance);
      assert next == Goto(s, r, Dozing(count, n - 1));
      Dozes(next, r, count, n - 1);
      GotoTwice(s, r, Dozing(count, n - 1), ReadAsleep(count));
    } else {
      assert s.threads[r := ReadAsleep(count)] == s.threads;
    }
  }

  /** A blocking read of the empty queue goes to sleep. */
  lemma FallsAsleep(s: State, r: nat, count: nat)
    requires Inv(s) && r < |s.threads| && s.threads[r].Idle? && s.fifo == ""
    ensures Run(s, [(r, BeginRead(count, false))] + Turns(r, 5)) == Goto(s, r, ReadAsleep(count))
  {
    Run1(s, (r, BeginRead(count, false)));
    RunAppend(s, [(r, BeginRead(count, false))], Turns(r, 5));
    Dozes(Goto(s, r, ReadTest(count, false)), r, count, 5);
    GotoTwice(s, r, ReadTest(count, false), ReadAsleep(count));
  }

  function SleepThenRead(r: nat, w: nat, text: string, count: nat): seq<(nat, Action)> {
    [(r, BeginRead(count, false))] + Turns(r, 5) + (WriteOf(w, text) + Turns(r, 4))
  }

  /** A write beside one sleeper, and four steps of that reader. */
  lemma WriteThenRead(s: State, r: nat, w: nat, text: string, count: nat)
    requires Inv(s) && r < |s.threads| && w < |s.threads| && r != w && 0 < |text| <= MAX_EVENT_SIZE
    requires s.lock.None? && s.fifo == "" && s.threads[w].Idle? && s.threads[r] == ReadAsleep(count)
    ensures var after := Run(s, WriteOf(w, text) + Turns(r, 4));
            && |after.threads| == |s.threads| && after.threads[r] == ReadUnlock(Min(count, |text|))
            && after.delivered == s.delivered + text[..Min(count, |text|)]
  {
    EmptyTakesAll(text);
    WriteRunsAmong(s, w, text);
    RunAppend(s, WriteOf(w, text), Turns(r, 4));
    var written := Run(s, WriteOf(w, text));
    assert written.threads[r] == ReadPrepare(count) && written.fifo == text;
    var n := AwakeReaderReads(written, r);
    assert n == 4;
  }

  /** A blocking read of the empty queue sleeps until a writer has written, and then gets the
      first bytes of that message: as many as it asked for, or all. */
  lemma BlockingReadGetsData(threads: nat, r: nat, w: nat, text: string, count: nat)
    requires r < threads && w < threads && r != w && 0 < |text| <= MAX_EVENT_SIZE
    ensures Reached(threads, [(r, BeginRead(count, false))] + Turns(r, 5)).threads[r] == ReadAsleep(count)
    ensures var after := Reached(threads, SleepThenRead(r, w, text, count));
            && after.threads[r] == ReadUnlock(Min(count, |text|))
            && after.delivered == text[..Min(count, |text|)]
  {
    InitialInv(threads);
    var s, doze := Initial(threads), [(r, BeginRead(count, false))] + Turns(r, 5);
    FallsAsleep(s, r, count);
    RunAppend(s, doze, WriteOf(w, text) + Turns(r, 4));
    WriteThenRead(Run(s, doze), r, w, text, count);
    assert "" + text[..Min(count, |text|)] == text[..Min(count, |text|)];
  }
}
