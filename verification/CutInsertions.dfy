/** When insertions are cut short, and what readers then make of the stream. */
module CutInsertions {
  import opened Machine
  import opened Limits
  import opened EventFifo
  import opened Framing
  import opened FifoProtocol
  import opened FifoSchedules

  // ---------------------------------------------------------------------------
  // Which runs cut no insertion short
  // ---------------------------------------------------------------------------

  /** A writer about to insert finds room for its whole message, or none at all. */
  ghost predicate RoomOrNone(s: State, t: nat, a: Action) {
    t < |s.threads| && a.Advance? && s.threads[t].WriteInsert? ==>
      |s.threads[t].text| <= FIFO_SIZE - |s.fifo| || |s.fifo| == FIFO_SIZE
  }

  /** So do all writers along a run. */
  ghost predicate NeverCut(s: State, schedule: seq<(nat, Action)>)
    requires Inv(s)
    decreases |schedule|
  {
    schedule == [] ||
    (StepKeepsInv(s, schedule[0].0, schedule[0].1);
     RoomOrNone(s, schedule[0].0, schedule[0].1)
     && NeverCut(Step(s, schedule[0].0, schedule[0].1), schedule[1..]))
  }

  ghost predicate NeverCutFromStart(threads: nat, schedule: seq<(nat, Action)>) {
    InitialInv(threads);
    NeverCut(Initial(threads), schedule)
  }

  ghost predicate AllOrNothing(ins: seq<Insertion>) {
    forall i | i in ins :: i.copied == 0 || i.Accepted()
  }

  lemma StepCutsIff(s: State, t: nat, a: Action)
    requires Inv(s)
    ensures AllOrNothing(Step(s, t, a).inserted) <==> AllOrNothing(s.inserted) && RoomOrNone(s, t, a)
  {
    if t < |s.threads| && a.Advance? && s.threads[t].WriteInsert? {
      assert ValidPc(s.threads[t]);
      var i := Insertion(s.threads[t].text, KfifoIn(s.fifo, s.threads[t].text).1);
      assert forall j :: j in s.inserted + [i] <==> j in s.inserted || j == i;
    }
  }

  /** Insertions are all or nothing exactly in the runs whose writers find room or none. */
  lemma {:induction false} RunCutsIff(s: State, schedule: seq<(nat, Action)>)
    requires Inv(s)
    ensures AllOrNothing(Run(s, schedule).inserted)
        <==> AllOrNothing(s.inserted) && NeverCut(s, schedule)
    decreases |schedule|
  {
    if schedule != [] {
      StepKeepsInv(s, schedule[0].0, schedule[0].1);
      StepCutsIff(s, schedule[0].0, schedule[0].1);
      RunCutsIff(Step(s, schedule[0].0, schedule[0].1), schedule[1..]);
    }
  }

  /** A message of one line, newline included. */
  predicate WholeLine(text: string) {
    OneLine(text) && Ended(text)
  }

  /** Messages of one line each are inserted in runs that hand over only such. */
  lemma InsertedAreOneLine(threads: nat, schedule: seq<(nat, Action)>)
    requires forall text | text in Texts(schedule) :: OneLine(text)
    ensures OneLineInsertions(Reached(threads, schedule).inserted)
  {
    InsertedWereHandedOver(threads, schedule);
  }

  /** Readers that split a drained queue at newlines. */
  ghost predicate FramedRun(threads: nat, schedule: seq<(nat, Action)>) {
    var s := Reached(threads, schedule);
    Lines(s.delivered) == (AcceptedBodies(s.inserted), "")
  }

  /** Over every run that drains the queue: readers get exactly the accepted messages, each
      of them a whole line, if and only if every writer found room for all or for nothing. */
  lemma FramedRunIff(threads: nat, schedule: seq<(nat, Action)>)
    requires forall text | text in Texts(schedule) :: WholeLine(text)
    requires Reached(threads, schedule).fifo == ""
    ensures FramedRun(threads, schedule) <==> NeverCutFromStart(threads, schedule)
  {
    var s := Reached(threads, schedule);
    InitialInv(threads);
    RunCutsIff(Initial(threads), schedule);
    InsertedWereHandedOver(threads, schedule);
    DrainedFramesIff(s);
    assert forall i | i in s.inserted :: Clean(i) <==> i.copied == 0 || i.Accepted();
  }

  // ---------------------------------------------------------------------------
  // Every message but one can break the frames
  // ---------------------------------------------------------------------------

  function Repeat(t: nat, text: string, n: nat): seq<(nat, Action)> {
    if n == 0 then [] else Repeat(t, text, n - 1) + WriteOf(t, text)
  }

  lemma {:induction false} TextsOfRepeat(t: nat, text: string, n: nat)
    ensures Texts(Repeat(t, text, n)) <= {text}
  {
    if n > 0 {
      TextsOfRepeat(t, text, n - 1);
      TextsAppend(Repeat(t, text, n - 1), WriteOf(t, text));
    }
  }

  /** The same message over and over, as long as it fits. */
  lemma {:induction false} FillsUp(s: State, t: nat, text: string, n: nat)
    requires Inv(s) && Quiet(s) && t < |s.threads| && s.fifo == "" && 0 < |text| <= MAX_EVENT_SIZE
    requires n * |text| <= FIFO_SIZE
    ensures var after := Run(s, Repeat(t, text, n));
            Quiet(after) && after.threads == s.threads && |after.fifo| == n * |text|
  {
    if n > 0 {
      assert (n - 1) * |text| + |text| == n * |text|;
      FillsUp(s, t, text, n - 1);
      RunAppend(s, Repeat(t, text, n - 1), WriteOf(t, text));
      WriteRuns(Run(s, Repeat(t, text, n - 1)), t, text);
    }
  }

  /** The empty queue takes exactly 64 of the longest messages, 131072 bytes, and then not a
      byte more. */
  lemma QueueTakes64(threads: nat, text: string)
    requires threads > 0 && |text| == 2048
    ensures |Reached(threads, Repeat(0, text, 64)).fifo| == 131072
    ensures var full := Reached(threads, Repeat(0, text, 64));
            Reached(threads, Repeat(0, text, 65)) == full.(inserted := full.inserted + [Insertion(text, 0)])
  {
    InitialInv(threads);
    var s := Initial(threads);
    FillsUp(s, 0, text, 64);
    RunAppend(s, Repeat(0, text, 64), WriteOf(0, text));
    WriteRuns(Run(s, Repeat(0, text, 64)), 0, text);
  }

  /** Fill the queue until it has no room for the message, taking one byte out if that leaves
      no room at all. */
  function Tighten(t: nat, text: string): seq<(nat, Action)>
    requires text != ""
  {
    Repeat(t, text, FIFO_SIZE / |text|) + if FIFO_SIZE % |text| == 0 then ReadOf(t, 1) else []
  }

  lemma TightenLeavesLittle(s: State, t: nat, text: string)
    requires Inv(s) && Quiet(s) && t < |s.threads| && s.fifo == "" && 1 < |text| <= MAX_EVENT_SIZE
    ensures var after := Run(s, Tighten(t, text));
            Inv(after) && Quiet(after) && |after.threads| == |s.threads|
            && 0 < FIFO_SIZE - |after.fifo| < |text|
  {
    var n := FIFO_SIZE / |text|;
    assert n * |text| + FIFO_SIZE % |text| == FIFO_SIZE;
    FillsUp(s, t, text, n);
    var full := Run(s, Repeat(t, text, n));
    RunAppend(s, Repeat(t, text, n), if FIFO_SIZE % |text| == 0 then ReadOf(t, 1) else []);
    RunKeepsInv(s, Tighten(t, text));
    if FIFO_SIZE % |text| == 0 {
      ReadRuns(full, t, 1);
    }
  }

  /** One more write, and a read that takes everything. */
  function WriteAndDrain(t: nat, text: string): seq<(nat, Action)> {
    WriteOf(t, text) + ReadOf(t, FIFO_SIZE)
  }

  lemma WriteAndDrainRuns(s: State, t: nat, text: string)
    requires Inv(s) && Quiet(s) && t < |s.threads| && 0 < |text| <= MAX_EVENT_SIZE
    ensures var after := Run(s, WriteAndDrain(t, text));
            && after.fifo == ""
            && Insertion(text, Min(|text|, FIFO_SIZE - |s.fifo|)) in after.inserted
  {
    WriteRuns(s, t, text);
    RunAppend(s, WriteOf(t, text), ReadOf(t, FIFO_SIZE));
    var written := Written(s, text);
    assert written.fifo != "" && written.fifo[|written.fifo|..] == "";
    ReadRuns(written, t, FIFO_SIZE);
    assert written.inserted[|s.inserted|] == Insertion(text, Min(|text|, FIFO_SIZE - |s.fifo|));
  }

  /** A schedule of one thread that ends with frames broken by this message: by cutting it
      short or, if it is not a whole line, by writing it once. */
  function Breaking(text: string): seq<(nat, Action)>
    requires text != ""
  {
    (if WholeLine(text) then Tighten(0, text) else []) + WriteAndDrain(0, text)
  }

  lemma TextsOfBreaking(text: string)
    requires text != ""
    ensures Texts(Breaking(text)) <= {text}
  {
    var n := FIFO_SIZE / |text|;
    TextsOfRepeat(0, text, n);
    TextsAppend(Repeat(0, text, n), ReadOf(0, 1));
    TextsAppend(Repeat(0, text, n), []);
    TextsAppend(WriteOf(0, text), ReadOf(0, FIFO_SIZE));
    TextsAppend(Tighten(0, text), WriteAndDrain(0, text));
    TextsAppend([], WriteAndDrain(0, text));
  }

  lemma NoLineFrames(s: State, text: string)
    requires Inv(s) && text != "" && !OneLine(text) && Insertion(text, |text|) in s.inserted
    ensures Lines(s.delivered).0 != AcceptedBodies(s.inserted)
  {
    LinesAreNewlineFree(s.delivered);
    BodiesOfAccepted(s.inserted);
    assert Insertion(text, |text|).Accepted();
    assert text in AcceptedTexts(s.inserted);
    var n :| 0 <= n < |AcceptedTexts(s.inserted)| && AcceptedTexts(s.inserted)[n] == text;
    assert !NewlineFree(AcceptedBodies(s.inserted)[n]);
  }

  /** How it ends: in an empty queue, after an insertion of a whole line that was cut short,
      or of all of a message that is not a whole line. */
  lemma BreakingEnds(threads: nat, text: string) returns (copied: nat)
    requires threads > 0 && 0 < |text| <= MAX_EVENT_SIZE && text != "\n"
    ensures var after := Reached(threads, Breaking(text));
            after.fifo == "" && Insertion(text, copied) in after.inserted
    ensures if WholeLine(text) then 0 < copied < |text| else copied == |text|
  {
    InitialInv(threads);
    var s, before := Initial(threads), if WholeLine(text) then Tighten(0, text) else [];
    if WholeLine(text) {
      assert text == text[..|text| - 1] + "\n";
      TightenLeavesLittle(s, 0, text);
    }
    RunAppend(s, before, WriteAndDrain(0, text));
    var ready := Run(s, before);
    WriteAndDrainRuns(ready, 0, text);
    copied := Min(|text|, FIFO_SIZE - |ready.fifo|);
  }

  lemma UncleanIsUnframed(threads: nat, schedule: seq<(nat, Action)>, i: Insertion)
    requires forall text | text in Texts(schedule) :: OneLine(text)
    requires Reached(threads, schedule).fifo == ""
    requires i in Reached(threads, schedule).inserted && i.Possible() && !Clean(i)
    ensures !FramedRun(threads, schedule)
  {
    InsertedAreOneLine(threads, schedule);
    DrainedFramesIff(Reached(threads, schedule));
  }

  /** For every message but the single newline. */
  lemma BreakingBreaks(threads: nat, text: string)
    requires threads > 0 && 0 < |text| <= MAX_EVENT_SIZE && text != "\n"
    ensures Reached(threads, Breaking(text)).fifo == "" && !FramedRun(threads, Breaking(text))
  {
    var copied := BreakingEnds(threads, text);
    if OneLine(text) {
      TextsOfBreaking(text);
      UncleanIsUnframed(threads, Breaking(text), Insertion(text, copied));
    } else {
      NoLineFrames(Reached(threads, Breaking(text)), text);
    }
  }

  /** Whatever the schedule, as long as only this message is written: once the queue is
      drained, readers have got the accepted copies and nothing else. */
  ghost predicate AlwaysFramed(threads: nat, text: string) {
    forall schedule | Texts(schedule) <= {text} && Reached(threads, schedule).fifo == "" ::
      FramedRun(threads, schedule)
  }

  /** That holds for the single newline and for no other message: a queue that is nearly full
      cuts any longer line short. */
  lemma AlwaysFramedIff(threads: nat, text: string)
    requires threads > 0 && 0 < |text| <= MAX_EVENT_SIZE
    ensures AlwaysFramed(threads, text) <==> text == "\n"
  {
    if text == "\n" {
      forall schedule | Texts(schedule) <= {text} && Reached(threads, schedule).fifo == ""
        ensures FramedRun(threads, schedule)
      {
        var s := Reached(threads, schedule);
        InsertedWereHandedOver(threads, schedule);
        InsertedAreOneLine(threads, schedule);
        forall i | i in s.inserted ensures Clean(i) {
          assert i.text == text;
        }
        DrainedFramesIff(s);
      }
    } else {
      TextsOfBreaking(text);
      BreakingBreaks(threads, text);
    }
  }
}
