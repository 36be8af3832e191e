/** Schedules in which one thread at a time carries out a whole call, or part of one. */
module FifoSchedules {
  import opened Machine
  import opened Limits
  import opened EventFifo
  import opened Framing
  import opened FifoProtocol

  lemma Run1(s: State, a: (nat, Action))
    requires Inv(s)
    ensures Run(s, [a]) == Step(s, a.0, a.1)
  {
    StepKeepsInv(s, a.0, a.1);
    assert [a][1..] == [];
  }

  lemma Run2(s: State, a: (nat, Action), b: (nat, Action))
    requires Inv(s)
    ensures Inv(Step(s, a.0, a.1)) && Run(s, [a, b]) == Step(Step(s, a.0, a.1), b.0, b.1)
  {
    StepKeepsInv(s, a.0, a.1);
    Run1(Step(s, a.0, a.1), b);
    assert [a, b][1..] == [b];
  }

  lemma Run3(s: State, a: (nat, Action), b: (nat, Action), c: (nat, Action))
    requires Inv(s)
    ensures Inv(Step(s, a.0, a.1)) && Inv(Step(Step(s, a.0, a.1), b.0, b.1))
    ensures Run(s, [a, b, c]) == Step(Step(Step(s, a.0, a.1), b.0, b.1), c.0, c.1)
  {
    StepKeepsInv(s, a.0, a.1);
    Run2(Step(s, a.0, a.1), b, c);
    StepKeepsInv(Step(s, a.0, a.1), b.0, b.1);
    assert [a, b, c][1..] == [b, c];
  }

  lemma GotoTwice(s: State, t: nat, first: Pc, second: Pc)
    requires t < |s.threads|
    ensures Goto(Goto(s, t, first), t, second) == Goto(s, t, second)
  {
    assert s.threads[t := first][t := second] == s.threads[t := second];
  }

  lemma {:induction false} RunAppend(s: State, a: seq<(nat, Action)>, b: seq<(nat, Action)>)
    requires Inv(s)
    ensures Inv(Run(s, a)) && Run(s, a + b) == Run(Run(s, a), b)
    decreases |a|
  {
    if a == [] {
      assert a + b == b;
    } else {
      StepKeepsInv(s, a[0].0, a[0].1);
      assert (a + b)[1..] == a[1..] + b;
      RunAppend(Step(s, a[0].0, a[0].1), a[1..], b);
    }
  }

  lemma TextsAppend(a: seq<(nat, Action)>, b: seq<(nat, Action)>)
    ensures Texts(a + b) == Texts(a) + Texts(b)
  {
    assert forall e :: e in a + b <==> e in a || e in b;
  }

  /** No thread is in a call. */
  ghost predicate Quiet(s: State) {
    s.lock.None? && forall u | 0 <= u < |s.threads| :: s.threads[u].Idle?
  }

  // ---------------------------------------------------------------------------
  // Writing
  // ---------------------------------------------------------------------------

  function WriteOf(t: nat, text: string): seq<(nat, Action)> {
    [(t, BeginWrite(text)), (t, Advance)] + [(t, Advance), (t, Advance), (t, Advance)]
  }

  function Written(s: State, text: string): State
    requires |s.fifo| <= FIFO_SIZE
  {
    var (fifo, copied) := KfifoIn(s.fifo, text);
    s.(fifo := fifo, inserted := s.inserted + [Insertion(text, copied)])
  }

  lemma LocksToInsert(s: State, t: nat, text: string)
    requires Inv(s) && t < |s.threads| && s.lock.None? && s.threads[t].Idle?
    requires 0 < |text| <= MAX_EVENT_SIZE
    ensures Run(s, [(t, BeginWrite(text)), (t, Advance)]) == Goto(s, t, WriteInsert(text)).(lock := Some(t))
  {
    Run2(s, (t, BeginWrite(text)), (t, Advance));
    GotoTwice(s, t, WriteLock(text), WriteInsert(text));
  }

  /** What a finished write does to the other threads. */
  function AfterWrite(s: State, text: string): seq<Pc>
    requires |s.fifo| <= FIFO_SIZE
  {
    if |text| <= FIFO_SIZE - |s.fifo| then WakeAll(s.threads) else s.threads
  }

  lemma InsertStep(s: State, t: nat)
    requires Inv(s) && t < |s.threads| && s.threads[t].WriteInsert?
    ensures var text := s.threads[t].text;
            Step(s, t, Advance)
            == Goto(Written(s, text), t, WriteUnlock(text, KfifoIn(s.fifo, text).1))
  {
  }

  lemma UnlockStep(s: State, t: nat, text: string, copied: nat)
    requires |s.fifo| <= FIFO_SIZE && t < |s.threads|
    ensures Step(Goto(s, t, WriteUnlock(text, copied)), t, Advance)
         == Goto(s, t, WriteWake(text, copied)).(lock := None)
  {
    GotoTwice(s, t, WriteUnlock(text, copied), WriteWake(text, copied));
  }

  lemma WakeStep(s: State, t: nat, text: string, copied: nat)
    requires |s.fifo| <= FIFO_SIZE && t < |s.threads|
    ensures var done := Goto(s, t, Idle);
            Step(Goto(s, t, WriteWake(text, copied)), t, Advance)
            == done.(threads := if copied == |text| then WakeAll(done.threads) else done.threads)
  {
    GotoTwice(s, t, WriteWake(text, copied), Idle);
  }

  lemma InsertsAndWakes(s: State, t: nat)
    requires Inv(s) && t < |s.threads| && s.threads[t].WriteInsert?
    ensures var text := s.threads[t].text;
            var done := Goto(Written(s, text), t, Idle).(lock := None);
            Run(s, [(t, Advance), (t, Advance), (t, Advance)])
            == done.(threads := if |text| <= FIFO_SIZE - |s.fifo| then WakeAll(done.threads) else done.threads)
  {
    var text := s.threads[t].text;
    var inserted, copied := Written(s, text), KfifoIn(s.fifo, text).1;
    Run3(s, (t, Advance), (t, Advance), (t, Advance));
    InsertStep(s, t);
    UnlockStep(inserted, t, text, copied);
    WakeStep(inserted.(lock := None), t, text, copied);
  }

  /** A write while no other thread holds the lock. */
  lemma WriteRunsAmong(s: State, t: nat, text: string)
    requires Inv(s) && t < |s.threads| && s.lock.None? && s.threads[t].Idle?
    requires 0 < |text| <= MAX_EVENT_SIZE
    ensures Run(s, WriteOf(t, text)) == Written(s, text).(threads := AfterWrite(s, text))
  {
    LocksToInsert(s, t, text);
    RunAppend(s, [(t, BeginWrite(text)), (t, Advance)], [(t, Advance), (t, Advance), (t, Advance)]);
    InsertsAndWakes(Run(s, [(t, BeginWrite(text)), (t, Advance)]), t);
    assert s.threads[t := WriteInsert(text)][t := Idle] == s.threads;
  }

  /** A write while no other thread is in a call. */
  lemma WriteRuns(s: State, t: nat, text: string)
    requires Inv(s) && Quiet(s) && t < |s.threads| && 0 < |text| <= MAX_EVENT_SIZE
    ensures Run(s, WriteOf(t, text)) == Written(s, text)
  {
    WriteRunsAmong(s, t, text);
    assert WakeAll(s.threads) == s.threads;
  }

  // ---------------------------------------------------------------------------
  // Reading
  // ---------------------------------------------------------------------------

  /** A read up to the point where it has seen the data. */
  function ReadUpToLock(t: nat, count: nat): seq<(nat, Action)> {
    [(t, BeginRead(count, true)), (t, Advance)]
  }

  lemma ReadSeesData(s: State, t: nat, count: nat)
    requires Inv(s) && t < |s.threads| && s.threads[t].Idle? && s.fifo != ""
    ensures Run(s, ReadUpToLock(t, count)) == Goto(s, t, ReadLock(count))
  {
    Run2(s, (t, BeginRead(count, true)), (t, Advance));
    assert s.threads[t := ReadTest(count, true)][t := ReadLock(count)] == s.threads[t := ReadLock(count)];
  }

  function Taken(s: State, count: nat): State {
    var got := Min(|s.fifo|, count);
    s.(fifo := s.fifo[got..], delivered := s.delivered + s.fifo[..got])
  }

  /** The rest of that read: it takes the lock and the bytes, and lets go of the lock. */
  function ReadFromLock(t: nat): seq<(nat, Action)> {
    [(t, Advance), (t, Advance), (t, Advance)]
  }

  lemma CopyTakes(s: State, t: nat)
    requires Inv(s) && t < |s.threads| && s.threads[t].ReadCopy?
    ensures var count := s.threads[t].count;
            Step(s, t, Advance) == Goto(Taken(s, count), t, ReadUnlock(Min(|s.fifo|, count)))
  {
  }

  lemma LocksAndCopies(s: State, t: nat)
    requires Inv(s) && t < |s.threads| && s.lock.None? && s.threads[t].ReadLock?
    ensures Inv(Step(s, t, Advance))
    ensures var count := s.threads[t].count;
            Step(Step(s, t, Advance), t, Advance)
            == Goto(Taken(s, count), t, ReadUnlock(Min(|s.fifo|, count))).(lock := Some(t))
  {
    StepKeepsInv(s, t, Advance);
    var locked := Step(s, t, Advance);
    assert locked == Goto(s, t, ReadCopy(s.threads[t].count)).(lock := Some(t));
    CopyTakes(locked, t);
    GotoTwice(s, t, ReadCopy(s.threads[t].count), ReadUnlock(Min(|s.fifo|, s.threads[t].count)));
  }

  lemma UnlockEnds(s: State, t: nat, got: nat)
    requires |s.fifo| <= FIFO_SIZE && t < |s.threads| && s.lock.None?
    ensures Step(Goto(s, t, ReadUnlock(got)).(lock := Some(t)), t, Advance) == Goto(s, t, Idle)
  {
    GotoTwice(s, t, ReadUnlock(got), Idle);
  }

  lemma ReadEnds(s: State, t: nat)
    requires Inv(s) && t < |s.threads| && s.lock.None? && s.threads[t].ReadLock?
    ensures Run(s, ReadFromLock(t)) == Goto(Taken(s, s.threads[t].count), t, Idle)
  {
    var count := s.threads[t].count;
    Run3(s, (t, Advance), (t, Advance), (t, Advance));
    LocksAndCopies(s, t);
    UnlockEnds(Taken(s, count), t, Min(|s.fifo|, count));
  }

  function ReadOf(t: nat, count: nat): seq<(nat, Action)> {
    ReadUpToLock(t, count) + ReadFromLock(t)
  }

  /** A read of a queue with data in it, while no other thread is in a call. */
  lemma ReadRuns(s: State, t: nat, count: nat)
    requires Inv(s) && Quiet(s) && t < |s.threads| && s.fifo != ""
    ensures Run(s, ReadOf(t, count)) == Taken(s, count)
  {
    ReadSeesData(s, t, count);
    RunAppend(s, ReadUpToLock(t, count), ReadFromLock(t));
    ReadEnds(Run(s, ReadUpToLock(t, count)), t);
    assert s.threads[t := ReadLock(count)][t := Idle] == s.threads;
  }
}
