/** The text of a miev event as a value: what the adds build up piece by piece in a buffer
    that may run full, against the rendering of the whole parameter list. */
module EventText {
  import opened Machine
  import opened Limits
  import opened Digits

  datatype Param = IntParam(key: string, value: s64) | StrParam(key: string, text: string)

  // ---------------------------------------------------------------------------
  // Batch rendering
  // ---------------------------------------------------------------------------

  /** "EventId %u -t %lld -paraList {" */
  function Header(id: u32, time: s64): string {
    "EventId " + (NatText(id) + (" -t " + (IntText(time) + " -paraList {")))
  }

  function RenderValue(p: Param): string {
    match p
    case IntParam(_, value) => IntText(value)
    case StrParam(_, text) => "\"" + (text + "\"")
  }

  function RenderParam(p: Param): string {
    "\"" + (p.key + ("\":" + RenderValue(p)))
  }

  /** The parameters after the first, each with its comma. */
  function RenderTail(ps: seq<Param>): string {
    if ps == [] then "" else "," + (RenderParam(ps[0]) + RenderTail(ps[1..]))
  }

  function RenderList(ps: seq<Param>): string {
    if ps == [] then "" else RenderParam(ps[0]) + RenderTail(ps[1..])
  }

  /** The text of a whole event. */
  function EventLine(id: u32, time: s64, ps: seq<Param>): string {
    Header(id, time) + RenderList(ps) + "}\n"
  }

  // ---------------------------------------------------------------------------
  // Incremental rendering
  // ---------------------------------------------------------------------------

  /** The used part of the buffer and the parameter count. One byte of the buffer is always
      kept for the terminating NUL. */
  datatype Event = Event(msg: string, paraCnt: nat)

  predicate InBuffer(e: Event) {
    |e.msg| < MAX_EVENT_SIZE
  }

  /** scnprintf at the end of the used part: as much of the text as fits. */
  function Print(msg: string, text: string): string
    requires |msg| < MAX_EVENT_SIZE
  {
    msg + text[..Min(|text|, MAX_EVENT_SIZE - 1 - |msg|)]
  }

  /** The text one add appends. */
  function Piece(paraCnt: nat, p: Param): string {
    (if paraCnt > 0 then "," else "") + RenderParam(p)
  }

  /** The length checks of the adds. */
  predicate Acceptable(p: Param) {
    |p.key| < MAX_PARAM_NAME && (p.StrParam? ==> |p.text| < MAX_PARAM_STRING)
  }

  /** cdev_tevent_add_int and cdev_tevent_add_str. scnprintf returns what it wrote, so only
      an add that finds no room at all is refused; any other reports success. */
  function Add(e: Event, p: Param): (Event, int)
    requires InBuffer(e)
  {
    if e.paraCnt >= MAX_PARAMS then (e, -ENOSPC)
    else if !Acceptable(p) then (e, -EINVAL)
    else if |e.msg| == MAX_EVENT_SIZE - 1 then (e, -ENOSPC)
    else (Event(Print(e.msg, Piece(e.paraCnt, p)), e.paraCnt + 1), 0)
  }

  /** cdev_tevent_write up to the hand-over: the event with its footer, or no room. */
  function Finish(e: Event): Option<Event>
    requires InBuffer(e)
  {
    if |e.msg| == MAX_EVENT_SIZE - 1 then None
    else Some(e.(msg := Print(e.msg, "}\n")))
  }

  function Start(id: u32, time: s64): Event {
    Event(Print("", Header(id, time)), 0)
  }

  lemma PrintFits(msg: string, text: string)
    requires |msg| < MAX_EVENT_SIZE
    ensures |Print(msg, text)| < MAX_EVENT_SIZE
  {
  }

  /** A sequence of adds: the event they leave and the parameters they reported as added. */
  function AddAll(e: Event, ps: seq<Param>): (r: (Event, seq<Param>))
    requires InBuffer(e)
    ensures InBuffer(r.0)
    decreases |ps|
  {
    if ps == [] then (e, [])
    else
      var (e', ret) := Add(e, ps[0]);
      PrintFits(e.msg, Piece(e.paraCnt, ps[0]));
      var (last, accepted) := AddAll(e', ps[1..]);
      (last, (if ret == 0 then [ps[0]] else []) + accepted)
  }

  // ---------------------------------------------------------------------------
  // The buffer holds a prefix of the batch rendering
  // ---------------------------------------------------------------------------

  function Prefix(s: string, n: nat): string {
    s[..Min(|s|, n)]
  }

  /** The event holds the rendering of the accepted parameters, cut off at 2047 bytes. */
  ghost predicate Renders(e: Event, header: string, accepted: seq<Param>) {
    && e.paraCnt == |accepted|
    && e.msg == Prefix(header + RenderList(accepted), MAX_EVENT_SIZE - 1)
  }

  lemma {:induction false} TailGrows(ps: seq<Param>, p: Param)
    ensures RenderTail(ps + [p]) == RenderTail(ps) + ("," + RenderParam(p))
  {
    if ps == [] {
      assert (ps + [p])[1..] == [];
    } else {
      assert (ps + [p])[1..] == ps[1..] + [p];
      TailGrows(ps[1..], p);
    }
  }

  lemma ListGrows(ps: seq<Param>, p: Param)
    ensures RenderList(ps + [p]) == RenderList(ps) + Piece(|ps|, p)
  {
    if ps == [] {
      assert (ps + [p])[1..] == [];
    } else {
      assert (ps + [p])[1..] == ps[1..] + [p];
      TailGrows(ps[1..], p);
    }
  }

  lemma PrintExtendsPrefix(s: string, text: string)
    requires |Prefix(s, MAX_EVENT_SIZE - 1)| < MAX_EVENT_SIZE - 1
    ensures Print(Prefix(s, MAX_EVENT_SIZE - 1), text) == Prefix(s + text, MAX_EVENT_SIZE - 1)
  {
  }

  /** Each add that reports success extends the rendering by its parameter; any other leaves
      the event alone. */
  lemma AddRenders(e: Event, header: string, accepted: seq<Param>, p: Param)
    requires InBuffer(e) && Renders(e, header, accepted)
    ensures var (e', ret) := Add(e, p);
            if ret == 0 then Renders(e', header, accepted + [p]) else e' == e
  {
    if Add(e, p).1 == 0 {
      ListGrows(accepted, p);
      var s, piece := header + RenderList(accepted), Piece(|accepted|, p);
      PrintExtendsPrefix(s, piece);
      Associative(header, RenderList(accepted), piece);
      assert Add(e, p).0.msg == Print(e.msg, piece);
    }
  }

  lemma {:induction false} AddAllRenders(e: Event, header: string, accepted: seq<Param>, ps: seq<Param>)
    requires InBuffer(e) && Renders(e, header, accepted)
    ensures Renders(AddAll(e, ps).0, header, accepted + AddAll(e, ps).1)
    decreases |ps|
  {
    if ps == [] {
      assert accepted + [] == accepted;
    } else {
      AddRenders(e, header, accepted, ps[0]);
      PrintFits(e.msg, Piece(e.paraCnt, ps[0]));
      var (e', ret) := Add(e, ps[0]);
      var now := if ret == 0 then [ps[0]] else [];
      assert accepted + [] == accepted;
      AddAllRenders(e', header, accepted + now, ps[1..]);
      Associative(accepted, now, AddAll(e', ps[1..]).1);
    }
  }

  lemma StartRenders(id: u32, time: s64)
    ensures InBuffer(Start(id, time)) && Renders(Start(id, time), Header(id, time), [])
  {
    assert Header(id, time) + RenderList([]) == Header(id, time);
    PrintFits("", Header(id, time));
  }

  lemma FinishIff(e: Event, full: string)
    requires InBuffer(e) && e.msg == Prefix(full, MAX_EVENT_SIZE - 1)
    ensures Finish(e).Some? <==> |full| <= MAX_EVENT_SIZE - 2
    ensures Finish(e).Some? ==>
              Finish(e).value.msg == full + if |full| <= MAX_EVENT_SIZE - 3 then "}\n" else "}"
  {
  }

  /** Truncation never escapes. After any adds, the write goes through exactly when header
      and accepted parameters take at most 2046 bytes; what it hands over is then all of
      them in full and the footer, less its newline when they take exactly 2046. */
  lemma OnlyWholeEventsAreWritten(id: u32, time: s64, ps: seq<Param>)
    ensures InBuffer(Start(id, time))
    ensures var (e, accepted) := AddAll(Start(id, time), ps);
            var full := Header(id, time) + RenderList(accepted);
            && (Finish(e).Some? <==> |full| <= MAX_EVENT_SIZE - 2)
            && (Finish(e).Some? ==>
                  Finish(e).value.msg == full + if |full| <= MAX_EVENT_SIZE - 3 then "}\n" else "}")
  {
    StartRenders(id, time);
    AddAllRenders(Start(id, time), Header(id, time), [], ps);
    var (e, accepted) := AddAll(Start(id, time), ps);
    assert [] + accepted == accepted;
    FinishIff(e, Header(id, time) + RenderList(accepted));
  }

  /** What the caller of an add is told, and when the event changes. */
  lemma AddAnswers(e: Event, p: Param)
    requires InBuffer(e)
    ensures var (e', ret) := Add(e, p);
            var tooLong := |p.key| >= 64 || (p.StrParam? && |p.text| >= 512);
            && (ret == 0 <==> e.paraCnt < 64 && !tooLong && |e.msg| < 2047)
            && (ret != 0 ==> e' == e && ret == if e.paraCnt < 64 && tooLong then -EINVAL else -ENOSPC)
            && (ret == 0 ==> e'.paraCnt == e.paraCnt + 1 && e.msg < e'.msg)
  {
    if Add(e, p).1 == 0 {
      assert Piece(e.paraCnt, p) != "";
    }
  }

  /** A full buffer is final: nothing can change the event any more, and no call succeeds.
      The error is -ENOSPC, except that a key or value that is too long is still reported
      as such. */
  lemma FullIsFinal(e: Event, p: Param)
    requires |e.msg| == MAX_EVENT_SIZE - 1
    ensures Finish(e) == None && Add(e, p).0 == e
    ensures Add(e, p).1 == if Acceptable(p) || e.paraCnt >= MAX_PARAMS then -ENOSPC else -EINVAL
  {
  }

  lemma {:induction false} FullStaysFull(e: Event, ps: seq<Param>)
    requires |e.msg| == MAX_EVENT_SIZE - 1
    ensures AddAll(e, ps) == (e, [])
    decreases |ps|
  {
    if ps != [] {
      FullIsFinal(e, ps[0]);
      FullStaysFull(e, ps[1..]);
      assert [] + AddAll(e, ps[1..]).1 == [];
    }
  }

  // ---------------------------------------------------------------------------
  // Capacity
  // ---------------------------------------------------------------------------

  /** Room one parameter takes at most, its comma included. */
  function MaxPiece(p: Param): nat {
    if p.IntParam? then 87 else 580
  }

  function MaxPieces(ps: seq<Param>): nat {
    if ps == [] then 0 else MaxPiece(ps[0]) + MaxPieces(ps[1..])
  }

  lemma HeaderBound(id: u32, time: s64)
    ensures 0 < |Header(id, time)| <= 54
  {
    TextBounds(id, time);
  }

  /** The largest number of seconds a ktime_t holds. */
  const KTIME_SEC_MAX: s64 := 9_223_372_036

  /** What ktime_get_real_seconds returns. */
  predicate ClockTime(time: s64) {
    0 <= time <= KTIME_SEC_MAX
  }

  lemma ClockHeaderBound(id: u32, time: s64)
    requires ClockTime(time)
    ensures |Header(id, time)| <= 44
  {
    TextBounds(id, time);
    Pow10Values();
    NatTextLength(time, 10);
  }

  lemma ParamBound(p: Param)
    requires Acceptable(p)
    ensures |RenderParam(p)| < MaxPiece(p)
  {
    match p {
      case IntParam(_, value) => TextBounds(0, value);
      case StrParam(_, _) =>
    }
  }

  lemma {:induction false} TailBound(ps: seq<Param>)
    requires forall p | p in ps :: Acceptable(p)
    ensures |RenderTail(ps)| <= MaxPieces(ps)
  {
    if ps != [] {
      ParamBound(ps[0]);
      TailBound(ps[1..]);
    }
  }

  lemma ListBound(ps: seq<Param>)
    requires forall p | p in ps :: Acceptable(p)
    ensures |RenderList(ps)| <= if ps == [] then 0 else MaxPieces(ps) - 1
  {
    if ps != [] {
      ParamBound(ps[0]);
      TailBound(ps[1..]);
    }
  }

  lemma PieceBound(e: Event, p: Param)
    requires InBuffer(e) && Acceptable(p)
    ensures |Print(e.msg, Piece(e.paraCnt, p))| <= |e.msg| + MaxPiece(p)
  {
    ParamBound(p);
  }

  lemma {:induction false} AllAccepted(e: Event, ps: seq<Param>)
    requires InBuffer(e) && forall p | p in ps :: Acceptable(p)
    requires e.paraCnt + |ps| <= MAX_PARAMS && |e.msg| + MaxPieces(ps) <= MAX_EVENT_SIZE - 1
    ensures AddAll(e, ps).1 == ps
    decreases |ps|
  {
    if ps != [] {
      PieceBound(e, ps[0]);
      PrintFits(e.msg, Piece(e.paraCnt, ps[0]));
      AllAccepted(Add(e, ps[0]).0, ps[1..]);
    }
  }

  /** An add reports success as long as there is room for one byte before it. */
  lemma {:induction false} AllReported(e: Event, ps: seq<Param>, most: nat)
    requires InBuffer(e) && forall p | p in ps :: Acceptable(p) && MaxPiece(p) == most
    requires ps != [] && e.paraCnt + |ps| <= MAX_PARAMS
    requires |e.msg| + MaxPieces(ps) - most < MAX_EVENT_SIZE - 1
    ensures AddAll(e, ps).1 == ps
    decreases |ps|
  {
    PieceBound(e, ps[0]);
    PrintFits(e.msg, Piece(e.paraCnt, ps[0]));
    if |ps| > 1 {
      AllReported(Add(e, ps[0]).0, ps[1..], most);
    } else {
      assert ps[1..] == [];
    }
  }

  /** Accepted parameter by parameter and written in full, newline included. */
  ghost predicate WrittenWhole(id: u32, time: s64, ps: seq<Param>) {
    && InBuffer(Start(id, time))
    && var (e, accepted) := AddAll(Start(id, time), ps);
       accepted == ps && Finish(e).Some? && Finish(e).value.msg == EventLine(id, time, ps)
  }

  lemma {:induction false} ListOfFirst(a: seq<Param>, b: seq<Param>)
    ensures |RenderList(a)| <= |RenderList(a + b)|
    decreases |b|
  {
    if b == [] {
      assert a + b == a;
    } else {
      assert a + b == (a + [b[0]]) + b[1..];
      ListGrows(a, b[0]);
      ListOfFirst(a + [b[0]], b[1..]);
    }
  }

  lemma AddedInRoom(e: Event, header: string, before: seq<Param>, p: Param) returns (next: Event)
    requires InBuffer(e) && Renders(e, header, before) && |before| < MAX_PARAMS && Acceptable(p)
    requires |header| + |RenderList(before + [p])| < MAX_EVENT_SIZE - 1
    ensures Add(e, p) == (next, 0) && InBuffer(next) && Renders(next, header, before + [p])
  {
    ListOfFirst(before, [p]);
    assert |header + RenderList(before)| == |e.msg|;
    AddRenders(e, header, before, p);
    PrintFits(e.msg, Piece(e.paraCnt, p));
    next := Add(e, p).0;
  }

  lemma AddAllFirst(e: Event, ps: seq<Param>, next: Event)
    requires InBuffer(e) && ps != [] && Add(e, ps[0]) == (next, 0) && InBuffer(next)
    ensures AddAll(e, ps).1 == [ps[0]] + AddAll(next, ps[1..]).1
  {
  }

  lemma FirstMoves(before: seq<Param>, ps: seq<Param>)
    requires ps != []
    ensures before + ps == (before + [ps[0]]) + ps[1..]
    ensures [ps[0]] + ps[1..] == ps
  {
  }

  lemma {:induction false} AllAddedInRoom(
    e: Event, header: string, before: seq<Param>, ps: seq<Param>)
    requires InBuffer(e) && Renders(e, header, before) && |before| + |ps| <= MAX_PARAMS
    requires forall p | p in ps :: Acceptable(p)
    requires |header| + |RenderList(before + ps)| < MAX_EVENT_SIZE - 1
    ensures AddAll(e, ps).1 == ps
    decreases |ps|
  {
    if ps != [] {
      FirstMoves(before, ps);
      ListOfFirst(before + [ps[0]], ps[1..]);
      var next := AddedInRoom(e, header, before, ps[0]);
      AllAddedInRoom(next, header, before + [ps[0]], ps[1..]);
      AddAllFirst(e, ps, next);
    }
  }

  lemma {:induction false} AddedAreAcceptable(e: Event, ps: seq<Param>)
    requires InBuffer(e)
    ensures forall p | p in AddAll(e, ps).1 :: Acceptable(p)
    ensures AddAll(e, ps).0.paraCnt <= Max(e.paraCnt, MAX_PARAMS)
    decreases |ps|
  {
    if ps != [] {
      PrintFits(e.msg, Piece(e.paraCnt, ps[0]));
      AddedAreAcceptable(Add(e, ps[0]).0, ps[1..]);
    }
  }

  /** An event is written whole if and only if it has at most 64 parameters, all keys are
      shorter than 64 and all values than 512 bytes, and header and parameters leave room for
      the footer and a NUL in 2048 bytes. */
  lemma WrittenWholeIff(id: u32, time: s64, ps: seq<Param>)
    ensures WrittenWhole(id, time, ps) <==>
              && |ps| <= 64
              && (forall p | p in ps :: |p.key| < 64 && (p.StrParam? ==> |p.text| < 512))
              && |Header(id, time)| + |RenderList(ps)| <= 2045
  {
    var header := Header(id, time);
    StartRenders(id, time);
    OnlyWholeEventsAreWritten(id, time, ps);
    assert |EventLine(id, time, ps)| == |header + RenderList(ps)| + 2;
    if WrittenWhole(id, time, ps) {
      AddedAreAcceptable(Start(id, time), ps);
      AddAllRenders(Start(id, time), header, [], ps);
      assert [] + ps == ps;
    }
    if |ps| <= 64 && (forall p | p in ps :: Acceptable(p)) && |header| + |RenderList(ps)| <= 2045 {
      assert [] + ps == ps;
      AllAddedInRoom(Start(id, time), header, [], ps);
    }
  }

  /** Any event within the bound is written whole. */
  lemma EventsWithinBoundFit(id: u32, time: s64, ps: seq<Param>)
    requires |ps| <= MAX_PARAMS && forall p | p in ps :: Acceptable(p)
    requires |Header(id, time)| + MaxPieces(ps) <= MAX_EVENT_SIZE - 2
    ensures WrittenWhole(id, time, ps)
  {
    HeaderBound(id, time);
    StartRenders(id, time);
    AllAccepted(Start(id, time), ps);
    OnlyWholeEventsAreWritten(id, time, ps);
    ListBound(ps);
    var full := Header(id, time) + RenderList(ps);
    assert ps == [] ==> RenderList(ps) == "";
    assert |full| <= MAX_EVENT_SIZE - 3;
  }

  lemma {:induction false} MaxPiecesOfKind(ps: seq<Param>, ints: bool)
    requires forall p | p in ps :: p.IntParam? == ints
    ensures MaxPieces(ps) == |ps| * if ints then 87 else 580
  {
    if ps != [] {
      MaxPiecesOfKind(ps[1..], ints);
    }
  }

  /** Acceptable parameters of one kind. */
  ghost predicate AllOfKind(ps: seq<Param>, ints: bool) {
    forall p | p in ps :: Acceptable(p) && p.IntParam? == ints
  }

  /** 22 integer parameters, or 3 string parameters, fit under any header. */
  lemma CapacityOfKind(id: u32, time: s64, ps: seq<Param>, ints: bool)
    requires AllOfKind(ps, ints) && |ps| <= if ints then 22 else 3
    ensures WrittenWhole(id, time, ps)
  {
    HeaderBound(id, time);
    MaxPiecesOfKind(ps, ints);
    EventsWithinBoundFit(id, time, ps);
  }

  /** The widest parameter of its kind. */
  predicate Widest(p: Param) {
    && |p.key| == MAX_PARAM_NAME - 1
    && if p.IntParam? then p.value == LONG_MIN else |p.text| == MAX_PARAM_STRING - 1
  }

  lemma WidestParam(p: Param)
    requires Widest(p)
    ensures Acceptable(p) && |RenderParam(p)| == MaxPiece(p) - 1
  {
    if p.IntParam? {
      TextBounds(0, p.value);
    }
  }

  lemma TailLength(ps: seq<Param>)
    requires ps != []
    ensures |RenderTail(ps)| == 1 + |RenderParam(ps[0])| + |RenderTail(ps[1..])|
  {
  }

  lemma {:induction false} WidestTail(ps: seq<Param>)
    requires forall p | p in ps :: |RenderParam(p)| == MaxPiece(p) - 1
    ensures |RenderTail(ps)| == MaxPieces(ps)
  {
    if ps != [] {
      TailLength(ps);
      WidestTail(ps[1..]);
    }
  }

  lemma WidestList(ps: seq<Param>)
    requires ps != [] && forall p | p in ps :: Widest(p)
    ensures |RenderList(ps)| == MaxPieces(ps) - 1
  {
    forall p | p in ps ensures |RenderParam(p)| == MaxPiece(p) - 1 {
      WidestParam(p);
    }
    WidestTail(ps[1..]);
  }

  /** The number of integer parameters. */
  function IntCount(ps: seq<Param>): nat {
    if ps == [] then 0 else (if ps[0].IntParam? then 1 else 0) + IntCount(ps[1..])
  }

  /** So many acceptable integer parameters and so many string parameters, in any order. */
  ghost predicate Mix(ps: seq<Param>, ints: nat, strings: nat) {
    && (forall p | p in ps :: Acceptable(p))
    && IntCount(ps) == ints && |ps| == ints + strings
  }

  lemma {:induction false} MaxPiecesOfMix(ps: seq<Param>)
    ensures IntCount(ps) <= |ps|
    ensures MaxPieces(ps) == 87 * IntCount(ps) + 580 * (|ps| - IntCount(ps))
  {
    if ps != [] {
      MaxPiecesOfMix(ps[1..]);
    }
  }

  function WidestInt(): (p: Param)
    ensures Widest(p) && p.IntParam?
  {
    IntParam(seq(MAX_PARAM_NAME - 1, _ => 'k'), LONG_MIN)
  }

  function WidestStr(): (p: Param)
    ensures Widest(p) && p.StrParam?
  {
    StrParam(seq(MAX_PARAM_NAME - 1, _ => 'k'), seq(MAX_PARAM_STRING - 1, _ => 't'))
  }

  /** The widest parameters of a mix. */
  function WidestMix(ints: nat, strings: nat): (ps: seq<Param>)
    ensures forall p | p in ps :: Widest(p)
    ensures IntCount(ps) == ints && |ps| == ints + strings
  {
    if ints > 0 then [WidestInt()] + WidestMix(ints - 1, strings)
    else if strings > 0 then [WidestStr()] + WidestMix(0, strings - 1)
    else []
  }

  lemma WidestClockHeader()
    ensures ClockTime(KTIME_SEC_MAX) && |Header(UINT_MAX, KTIME_SEC_MAX)| == 44
  {
    TextBounds(UINT_MAX, 0);
    ClockHeaderBound(UINT_MAX, KTIME_SEC_MAX);
    Pow10Values();
    assert Pow10(10) == 10 * Pow10(9);
    NatTextLength(UINT_MAX, 9);
    NatTextLength(KTIME_SEC_MAX, 9);
  }

  lemma TooWideIsNotWritten(id: u32, time: s64, ps: seq<Param>)
    requires ps != [] && (forall p | p in ps :: Widest(p))
    requires |Header(id, time)| + MaxPieces(ps) > MAX_EVENT_SIZE - 2
    ensures !WrittenWhole(id, time, ps)
  {
    WidestList(ps);
    OnlyWholeEventsAreWritten(id, time, ps);
    var full := Header(id, time) + RenderList(ps);
    assert |full| > MAX_EVENT_SIZE - 3;
    assert |EventLine(id, time, ps)| == |full| + 2;
  }

  /** Every event of such a mix is written whole. */
  ghost predicate AlwaysFit(ints: nat, strings: nat) {
    forall id: u32, time: s64, ps: seq<Param> | ClockTime(time) && Mix(ps, ints, strings)
      :: WrittenWhole(id, time, ps)
  }

  /** With the times the clock can show, exactly the mixes within 2002 bytes always fit: 23
      integer parameters, or 3 string parameters and 3 integers, say. */
  lemma CapacityIsExact(ints: nat, strings: nat)
    ensures AlwaysFit(ints, strings) <==> 87 * ints + 580 * strings <= 2002
  {
    if 87 * ints + 580 * strings <= 2002 {
      forall id: u32, time: s64, ps: seq<Param> | ClockTime(time) && Mix(ps, ints, strings)
        ensures WrittenWhole(id, time, ps)
      {
        ClockHeaderBound(id, time);
        MaxPiecesOfMix(ps);
        EventsWithinBoundFit(id, time, ps);
      }
    } else {
      var ps := WidestMix(ints, strings);
      forall p | p in ps ensures Acceptable(p) {
        WidestParam(p);
      }
      MaxPiecesOfMix(ps);
      WidestClockHeader();
      TooWideIsNotWritten(UINT_MAX, KTIME_SEC_MAX, ps);
    }
  }

  /** Anything more may be lost without a word: 24 integer or 4 string parameters of the
      widest kind are all reported as added, at any time the clock can show, and yet the
      event cannot be written. */
  lemma OneMoreIsLost(id: u32, time: s64, ps: seq<Param>, ints: bool)
    requires ClockTime(time) && |ps| == if ints then 24 else 4
    requires forall p | p in ps :: Widest(p) && p.IntParam? == ints
    ensures InBuffer(Start(id, time))
    ensures AddAll(Start(id, time), ps).1 == ps
    ensures Finish(AddAll(Start(id, time), ps).0) == None
  {
    StartRenders(id, time);
    ClockHeaderBound(id, time);
    forall p | p in ps ensures Acceptable(p) {
      WidestParam(p);
    }
    MaxPiecesOfKind(ps, ints);
    AllReported(Start(id, time), ps, if ints then 87 else 580);
    WidestList(ps);
    OnlyWholeEventsAreWritten(id, time, ps);
  }
}
