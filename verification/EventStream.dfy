/** From the adds of many writers to what the readers make of the byte stream. */
module EventStream {
  import opened Machine
  import opened Limits
  import opened Digits
  import opened EventText
  import opened EventParser
  import opened Framing
  import opened FifoProtocol
  import opened CutInsertions

  predicate SingleLine(p: Param) {
    NewlineFree(p.key) && (p.StrParam? ==> NewlineFree(p.text))
  }

  lemma DigitsAreNewlineFree(s: string)
    requires AreDigits(s, 10)
    ensures NewlineFree(s)
  {
    assert DigitOf('\n') == 16;
  }

  lemma IntTextIsNewlineFree(v: int)
    ensures NewlineFree(IntText(v))
  {
    DigitsAreNewlineFree(NatText(Abs(v)));
  }

  lemma HeaderIsNewlineFree(id: u32, time: s64)
    ensures NewlineFree(Header(id, time))
  {
    DigitsAreNewlineFree(NatText(id));
    IntTextIsNewlineFree(time);
  }

  lemma ParamIsNewlineFree(p: Param)
    requires SingleLine(p)
    ensures NewlineFree(RenderParam(p))
  {
    match p {
      case IntParam(_, value) => IntTextIsNewlineFree(value);
      case StrParam(_, _) =>
    }
    assert NewlineFree(RenderValue(p));
  }

  lemma {:induction false} TailIsNewlineFree(ps: seq<Param>)
    requires forall p | p in ps :: SingleLine(p)
    ensures NewlineFree(RenderTail(ps))
  {
    if ps != [] {
      ParamIsNewlineFree(ps[0]);
      TailIsNewlineFree(ps[1..]);
    }
  }

  /** An event of single-line keys and values is one line. */
  lemma EventIsOneLine(id: u32, time: s64, ps: seq<Param>)
    requires forall p | p in ps :: SingleLine(p)
    ensures OneLine(EventLine(id, time, ps)) && Ended(EventLine(id, time, ps))
    ensures Body(EventLine(id, time, ps)) + "\n" == EventLine(id, time, ps)
  {
    HeaderIsNewlineFree(id, time);
    if ps != [] {
      ParamIsNewlineFree(ps[0]);
      TailIsNewlineFree(ps[1..]);
    }
    var text, front := EventLine(id, time, ps), Header(id, time) + RenderList(ps) + "}";
    assert NewlineFree(RenderList(ps));
    assert text == front + "\n";
  }

  /** One use of the interface: allocate, add parameters, write. */
  datatype Build = Build(id: u32, time: s64, params: seq<Param>) {

    function Accepted(): seq<Param> {
      PrintFits("", Header(id, time));
      AddAll(Start(id, time), params).1
    }

    /** What the write hands to the queue, if anything. */
    function Written(): Option<string> {
      PrintFits("", Header(id, time));
      match Finish(AddAll(Start(id, time), params).0)
      case Some(e) => Some(e.msg)
      case None => None
    }

    /** Room for both bytes of the footer. */
    predicate FooterFits() {
      |Header(id, time) + RenderList(Accepted())| <= MAX_EVENT_SIZE - 3
    }

    /** The parameters that were added can be read back, and hold no newline. */
    predicate Plain() {
      forall p | p in Accepted() :: Readable(p) && SingleLine(p)
    }

    /** text is what the write hands over, complete with its newline. */
    predicate Writes(text: string) {
      FooterFits() && Plain() && Written() == Some(text)
    }
  }

  lemma WrittenIsEventLine(b: Build)
    requires b.FooterFits()
    ensures b.Written() == Some(EventLine(b.id, b.time, b.Accepted()))
  {
    OnlyWholeEventsAreWritten(b.id, b.time, b.params);
  }

  lemma WrittenReadsBack(b: Build, text: string)
    requires b.Writes(text)
    ensures OneLine(text) && Ended(text)
    ensures ParseEvent(Body(text) + "\n") == Some(Parsed(b.id, b.time, b.Accepted()))
  {
    WrittenIsEventLine(b);
    EventIsOneLine(b.id, b.time, b.Accepted());
    EventParsesIff(b.id, b.time, b.Accepted());
  }

  /** An event in full. */
  ghost predicate IsEvent(text: string) {
    exists b: Build :: b.Writes(text)
  }

  /** Every insertion is of an event, and all or nothing. */
  ghost predicate EventsInserted(ins: seq<Insertion>) {
    AllOrNothing(ins) && forall i | i in ins :: IsEvent(i.text)
  }

  lemma EventsAreClean(ins: seq<Insertion>)
    requires EventsInserted(ins) && forall i | i in ins :: i.Possible()
    ensures OneLineInsertions(ins) && forall i | i in ins :: Clean(i)
  {
    forall i | i in ins ensures OneLine(i.text) && Ended(i.text) {
      var b: Build :| b.Writes(i.text);
      WrittenReadsBack(b, i.text);
    }
  }

  /** The lines received are the events that went in, in order, each of which reads back as
      the id, the time and the accepted parameters of the one that wrote it; all of them are
      there once the queue is empty. */
  ghost predicate ReadsBack(s: State) {
    var lines, texts := Lines(s.delivered).0, AcceptedTexts(s.inserted);
    && |lines| <= |texts|
    && (s.fifo == "" ==> |lines| == |texts| && Lines(s.delivered).1 == "")
    && (forall n | 0 <= n < |lines| :: IsEvent(texts[n]))
    && (forall n, b: Build | 0 <= n < |lines| && b.Writes(texts[n]) ::
          ParseEvent(lines[n] + "\n") == Some(Parsed(b.id, b.time, b.Accepted())))
  }

  lemma StreamReadsBack(s: State)
    requires Inv(s) && EventsInserted(s.inserted)
    ensures ReadsBack(s)
  {
    EventsAreClean(s.inserted);
    ReadersSeeFrames(s);
    BodiesOfAccepted(s.inserted);
    var lines, texts := Lines(s.delivered).0, AcceptedTexts(s.inserted);
    forall n | 0 <= n < |lines| ensures lines[n] == Body(texts[n]) && IsEvent(texts[n]) {
      assert lines[n] == AcceptedBodies(s.inserted)[n];
      assert texts[n] in texts;
    }
    forall n, b: Build | 0 <= n < |lines| && b.Writes(texts[n])
      ensures ParseEvent(lines[n] + "\n") == Some(Parsed(b.id, b.time, b.Accepted()))
    {
      WrittenReadsBack(b, texts[n]);
    }
  }

  /** End to end, over every run from the start whose writers hand over events: any number of
      threads, any interleaving, any sizes the readers ask for. If every writer finds room for
      its whole event or none at all, what the readers receive reads back as these events.
      And a drained queue has shown them the accepted events, one per line, only then. */
  lemma EveryRunReadsBack(threads: nat, schedule: seq<(nat, Action)>)
    requires forall text | text in Texts(schedule) :: IsEvent(text)
    ensures NeverCutFromStart(threads, schedule) ==> ReadsBack(Reached(threads, schedule))
    ensures Reached(threads, schedule).fifo == "" ==>
              (FramedRun(threads, schedule) <==> NeverCutFromStart(threads, schedule))
  {
    var s := Reached(threads, schedule);
    InitialInv(threads);
    RunCutsIff(Initial(threads), schedule);
    InsertedWereHandedOver(threads, schedule);
    if NeverCutFromStart(threads, schedule) {
      StreamReadsBack(s);
    }
    if s.fifo == "" {
      forall text | text in Texts(schedule) ensures WholeLine(text) {
        var b: Build :| b.Writes(text);
        WrittenReadsBack(b, text);
      }
      FramedRunIff(threads, schedule);
    }
  }
}
