/** When a read that has seen data can still come away with nothing. */
module EmptyReads {
  import opened Limits
  import opened FifoProtocol
  import opened FifoSchedules

  predicate Reading(pc: Pc) {
    pc.ReadTest? || pc.ReadWait? || pc.ReadPrepare? || pc.ReadRetest? || pc.ReadSchedule?
    || pc.ReadAsleep? || pc.ReadLock? || pc.ReadCopy? || pc.ReadUnlock?
  }

  /** Of the given threads, those that exist are at most one. */
  ghost predicate AtMostOne(readers: set<nat>, threads: nat) {
    forall r, q | r in readers && q in readers && r < threads && q < threads :: r == q
  }

  ghost predicate ReadBy(schedule: seq<(nat, Action)>, readers: set<nat>) {
    forall e | e in schedule && e.1.BeginRead? :: e.0 in readers
  }

  /** Only the given threads read, and those about to fetch data will find some. */
  ghost predicate FindData(s: State, readers: set<nat>) {
    forall t | 0 <= t < |s.threads| && Reading(s.threads[t]) ::
      t in readers && (s.threads[t].ReadLock? || s.threads[t].ReadCopy? ==> s.fifo != "")
  }

  lemma StepKeepsData(s: State, t: nat, a: Action, readers: set<nat>)
    requires Inv(s) && FindData(s, readers) && AtMostOne(readers, |s.threads|)
    requires a.BeginRead? ==> t in readers
    ensures FindData(Step(s, t, a), readers)
  {
    var s' := Step(s, t, a);
    if t < |s.threads| && a.Advance? && s.threads[t].WriteWake? {
      forall u | 0 <= u < |s'.threads| && Reading(s'.threads[u])
        ensures u in readers && (s'.threads[u].ReadLock? || s'.threads[u].ReadCopy? ==> s'.fifo != "")
      {
        assert u != t && Reading(s.threads[u]);
      }
    } else if t < |s.threads| && a.Advance? && s.threads[t].ReadCopy? {
      assert t in readers;
      forall u | 0 <= u < |s'.threads| && Reading(s'.threads[u]) ensures u == t {
        assert Reading(s.threads[u]);
      }
    }
  }

  /** With one reading thread, a read that is about to copy finds data, so one that asked
      for bytes returns some: zero, which callers take for end of file, never appears. */
  lemma {:induction false} SoleReaderGetsData(s: State, schedule: seq<(nat, Action)>, readers: set<nat>)
    requires Inv(s) && FindData(s, readers) && AtMostOne(readers, |s.threads|)
    requires ReadBy(schedule, readers)
    ensures FindData(Run(s, schedule), readers)
    decreases |schedule|
  {
    if schedule != [] {
      assert schedule[0] in schedule;
      StepKeepsInv(s, schedule[0].0, schedule[0].1);
      StepKeepsData(s, schedule[0].0, schedule[0].1, readers);
      forall e | e in schedule[1..] && e.1.BeginRead? ensures e.0 in readers {
        assert e in schedule;
      }
      SoleReaderGetsData(Step(s, schedule[0].0, schedule[0].1), schedule[1..], readers);
    }
  }

  /** Reader r reads to the end, then reader q takes the lock. */
  function OneAfterTheOther(r: nat, q: nat): seq<(nat, Action)> {
    ReadFromLock(r) + [(q, Advance)]
  }

  /** With two readers it may: when both have seen the data and the first takes all of it,
      the second copies from an empty queue, and its next step makes it return 0. */
  lemma SecondReaderGetsNothing(s: State, r: nat, q: nat)
    requires Inv(s) && s.lock.None? && r < |s.threads| && q < |s.threads| && r != q
    requires s.threads[r].ReadLock? && s.threads[q].ReadLock? && s.threads[r].count >= |s.fifo|
    ensures var after := Run(s, OneAfterTheOther(r, q));
            && Inv(after) && |after.threads| == |s.threads|
            && after.threads[q].ReadCopy? && after.fifo == "" && after.delivered == s.delivered + s.fifo
            && Step(after, q, Advance).threads[q] == ReadUnlock(0)
  {
    ReadEnds(s, r);
    RunAppend(s, ReadFromLock(r), [(q, Advance)]);
    RunKeepsInv(s, OneAfterTheOther(r, q));
    var drained := Run(s, ReadFromLock(r));
    assert s.fifo[..|s.fifo|] == s.fifo && drained.fifo == "";
    Run1(drained, (q, Advance));
    CopyTakes(Run(s, OneAfterTheOther(r, q)), q);
  }

  lemma BothSeeData(s: State, r: nat, q: nat, count: nat)
    requires Inv(s) && Quiet(s) && s.fifo != "" && r < |s.threads| && q < |s.threads| && r != q
    ensures Run(s, ReadUpToLock(r, count) + ReadUpToLock(q, count))
         == Goto(Goto(s, r, ReadLock(count)), q, ReadLock(count))
  {
    ReadSeesData(s, r, count);
    RunAppend(s, ReadUpToLock(r, count), ReadUpToLock(q, count));
    ReadSeesData(Run(s, ReadUpToLock(r, count)), q, count);
  }

  function BothRead(r: nat, q: nat, count: nat): seq<(nat, Action)> {
    (ReadUpToLock(r, count) + ReadUpToLock(q, count)) + OneAfterTheOther(r, q)
  }

  function EmptyRead(w: nat, text: string, r: nat, q: nat): seq<(nat, Action)> {
    WriteOf(w, text) + BothRead(r, q, |text|)
  }

  /** And it does happen, from the start: any thread writes any message, any two threads read
      (one of them may be the writer), and the second of them copies from an empty queue. */
  lemma EmptyReadHappens(threads: nat, w: nat, text: string, r: nat, q: nat)
    requires 0 < |text| <= MAX_EVENT_SIZE
    requires w < threads && r < threads && q < threads && r != q
    ensures var after := Reached(threads, EmptyRead(w, text, r, q));
            after.threads[q].ReadCopy? && after.fifo == "" && after.delivered == text
  {
    InitialInv(threads);
    var s := Initial(threads);
    EmptyTakesAll(text);
    WriteRuns(s, w, text);
    RunAppend(s, WriteOf(w, text), BothRead(r, q, |text|));
    var written := Run(s, WriteOf(w, text));
    BothSeeData(written, r, q, |text|);
    RunAppend(written, ReadUpToLock(r, |text|) + ReadUpToLock(q, |text|), OneAfterTheOther(r, q));
    SecondReaderGetsNothing(Run(written, ReadUpToLock(r, |text|) + ReadUpToLock(q, |text|)), r, q);
    assert "" + text == text;
  }

  /** Whatever the schedule, as long as only the given threads read, nobody copies from an
      empty queue. */
  ghost predicate NoEmptyReads(threads: nat, readers: set<nat>) {
    forall schedule, t | ReadBy(schedule, readers) && 0 <= t < threads ::
      Reached(threads, schedule).threads[t].ReadCopy? ==> Reached(threads, schedule).fifo != ""
  }

  /** Reads that have seen data return some, over all schedules, if and only if at most one
      thread reads. */
  lemma NoEmptyReadsIff(threads: nat, readers: set<nat>)
    ensures NoEmptyReads(threads, readers) <==> AtMostOne(readers, threads)
  {
    if AtMostOne(readers, threads) {
      InitialInv(threads);
      forall schedule, t | ReadBy(schedule, readers) && 0 <= t < threads
        ensures Reached(threads, schedule).threads[t].ReadCopy? ==> Reached(threads, schedule).fifo != ""
      {
        SoleReaderGetsData(Initial(threads), schedule, readers);
      }
    } else {
      var r, q :| r in readers && q in readers && r < threads && q < threads && r != q;
      EmptyReadHappens(threads, r, "x", r, q);
      assert ReadBy(EmptyRead(r, "x", r, q), readers);
    }
  }
}
