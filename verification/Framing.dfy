/** Splitting what readers receive at newlines. */
module Framing {
  /** One message handed to the queue and how many of its bytes went in. */
  datatype Insertion = Insertion(text: string, copied: nat) {

    /** write_buf_inner returned 0. */
    predicate Accepted() {
      copied == |text|
    }

    predicate Possible() {
      text != "" && copied <= |text|
    }

    function Bytes(): string
      requires Possible()
    {
      text[..copied]
    }
  }

  /** The bytes that entered the queue. */
  function BytesOf(ins: seq<Insertion>): string
    requires forall i | i in ins :: i.Possible()
  {
    if ins == [] then ""
    else ins[0].Bytes() + BytesOf(ins[1..])
  }

  lemma {:induction false} BytesGrow(ins: seq<Insertion>, i: Insertion)
    requires (forall j | j in ins :: j.Possible()) && i.Possible()
    ensures forall j | j in ins + [i] :: j.Possible()
    ensures BytesOf(ins + [i]) == BytesOf(ins) + i.Bytes()
  {
    if ins == [] {
      assert [] + [i] == [i];
    } else {
      assert (ins + [i])[1..] == ins[1..] + [i];
      BytesGrow(ins[1..], i);
    }
  }

  // ---------------------------------------------------------------------------
  // Lines
  // ---------------------------------------------------------------------------

  /** The complete lines of a byte stream, and the rest after the last newline. */
  function Lines(s: string): (seq<string>, string) {
    if s == [] then ([], "")
    else
      var (lines, rest) := Lines(s[1..]);
      if s[0] == '\n' then ([""] + lines, rest)
      else if lines == [] then ([], [s[0]] + rest)
      else ([[s[0]] + lines[0]] + lines[1..], rest)
  }

  predicate NewlineFree(s: string) {
    '\n' !in s
  }

  lemma {:induction false} FirstLine(line: string, rest: string)
    requires NewlineFree(line)
    ensures Lines(line + ("\n" + rest)) == ([line] + Lines(rest).0, Lines(rest).1)
  {
    var s := line + ("\n" + rest);
    if line == "" {
      assert s[1..] == rest;
    } else {
      FirstLine(line[1..], rest);
      assert s[1..] == line[1..] + ("\n" + rest);
      assert s[0] == line[0] && [line[0]] + line[1..] == line;
      assert ([line[1..]] + Lines(rest).0)[1..] == Lines(rest).0;
    }
  }

  lemma {:induction false} LinesOfPrefix(a: string, b: string)
    ensures Lines(a).0 <= Lines(a + b).0
  {
    if a != [] {
      assert (a + b)[1..] == a[1..] + b;
      LinesOfPrefix(a[1..], b);
    }
  }

  lemma {:induction false} LinesAreNewlineFree(s: string)
    ensures forall line | line in Lines(s).0 :: NewlineFree(line)
    ensures NewlineFree(Lines(s).1)
  {
    if s != [] {
      LinesAreNewlineFree(s[1..]);
      var lines := Lines(s[1..]).0;
      assert lines != [] ==> lines[0] in lines && forall line | line in lines[1..] :: line in lines;
    }
  }

  function NewlineCount(s: string): nat {
    if s == [] then 0 else (if s[0] == '\n' then 1 else 0) + NewlineCount(s[1..])
  }

  lemma {:induction false} NewlineCountSplit(a: string, b: string)
    ensures NewlineCount(a + b) == NewlineCount(a) + NewlineCount(b)
  {
    if a == [] {
      assert a + b == b;
    } else {
      assert (a + b)[1..] == a[1..] + b;
      NewlineCountSplit(a[1..], b);
    }
  }

  lemma {:induction false} NoNewlines(s: string)
    requires NewlineFree(s)
    ensures NewlineCount(s) == 0
  {
    if s != [] {
      NoNewlines(s[1..]);
    }
  }

  /** The length of lines with their newlines. */
  function LineBytes(lines: seq<string>): nat {
    if lines == [] then 0 else |lines[0]| + 1 + LineBytes(lines[1..])
  }

  /** As many lines as newlines, and splitting loses no byte. */
  lemma {:induction false} LinesMeasure(s: string)
    ensures |Lines(s).0| == NewlineCount(s)
    ensures |s| == LineBytes(Lines(s).0) + |Lines(s).1|
  {
    if s != [] {
      LinesMeasure(s[1..]);
      var lines := Lines(s[1..]).0;
      assert ([""] + lines)[1..] == lines;
      if lines != [] {
        assert ([[s[0]] + lines[0]] + lines[1..])[1..] == lines[1..];
      }
    }
  }

  // ---------------------------------------------------------------------------
  // Framing
  // ---------------------------------------------------------------------------

  /** A message of one line: a newline, if any, comes last. */
  predicate OneLine(text: string) {
    text != "" && NewlineFree(text[..|text| - 1])
  }

  predicate Ended(text: string) {
    text != "" && text[|text| - 1] == '\n'
  }

  /** The message without its newline. */
  function Body(text: string): string {
    if Ended(text) then text[..|text| - 1] else text
  }

  ghost predicate OneLineInsertions(ins: seq<Insertion>) {
    forall i | i in ins :: i.Possible() && OneLine(i.text)
  }

  /** The bodies of the messages that went in as a whole. */
  function AcceptedBodies(ins: seq<Insertion>): seq<string>
    requires forall i | i in ins :: i.Possible()
  {
    if ins == [] then []
    else (if ins[0].Accepted() then [Body(ins[0].text)] else []) + AcceptedBodies(ins[1..])
  }

  /** The messages whose writers were told that they went in. */
  function AcceptedTexts(ins: seq<Insertion>): seq<string> {
    if ins == [] then []
    else (if ins[0].Accepted() then [ins[0].text] else []) + AcceptedTexts(ins[1..])
  }

  lemma {:induction false} BodiesOfAccepted(ins: seq<Insertion>)
    requires forall i | i in ins :: i.Possible()
    ensures |AcceptedBodies(ins)| == |AcceptedTexts(ins)|
    ensures forall n | 0 <= n < |AcceptedTexts(ins)| :: AcceptedBodies(ins)[n] == Body(AcceptedTexts(ins)[n])
    ensures forall text :: text in AcceptedTexts(ins) <==>
              exists i :: i in ins && i.Accepted() && i.text == text
  {
    if ins != [] {
      BodiesOfAccepted(ins[1..]);
      assert forall i :: i in ins <==> i == ins[0] || i in ins[1..];
    }
  }

  /** All or nothing, and with a newline if all. */
  predicate Clean(i: Insertion)
    requires i.Possible()
  {
    i.copied == 0 || (i.Accepted() && Ended(i.text))
  }

  /** A reader that splits at newlines gets the accepted messages, one by one, and nothing
      else. */
  ghost predicate Framed(ins: seq<Insertion>)
    requires forall i | i in ins :: i.Possible()
  {
    Lines(BytesOf(ins)) == (AcceptedBodies(ins), "")
  }

  lemma {:induction false} CleanIsFramed(ins: seq<Insertion>)
    requires OneLineInsertions(ins) && forall i | i in ins :: Clean(i)
    ensures Framed(ins)
  {
    if ins != [] {
      var i, rest := ins[0], ins[1..];
      CleanIsFramed(rest);
      if i.copied == 0 {
        assert i.Bytes() + BytesOf(rest) == BytesOf(rest);
        assert [] + AcceptedBodies(rest) == AcceptedBodies(rest);
      } else {
        assert i.Bytes() + BytesOf(rest) == Body(i.text) + ("\n" + BytesOf(rest));
        FirstLine(Body(i.text), BytesOf(rest));
      }
    }
  }

  function EndedCount(ins: seq<Insertion>): nat
    requires forall i | i in ins :: i.Possible()
  {
    if ins == [] then 0
    else (if ins[0].Accepted() && Ended(ins[0].text) then 1 else 0) + EndedCount(ins[1..])
  }

  /** Bytes of messages that went in only in part. */
  function StrayBytes(ins: seq<Insertion>): nat
    requires forall i | i in ins :: i.Possible()
  {
    if ins == [] then 0
    else (if ins[0].Accepted() then 0 else ins[0].copied) + StrayBytes(ins[1..])
  }

  /** Only a completely inserted message brings its newline. */
  lemma {:induction false} NewlinesInserted(ins: seq<Insertion>)
    requires OneLineInsertions(ins)
    ensures NewlineCount(BytesOf(ins)) == EndedCount(ins) <= |AcceptedBodies(ins)|
    ensures EndedCount(ins) == |AcceptedBodies(ins)| ==>
              forall i | i in ins && i.Accepted() :: Ended(i.text)
  {
    if ins != [] {
      var i, rest := ins[0], ins[1..];
      NewlinesInserted(rest);
      NewlineCountSplit(i.Bytes(), BytesOf(rest));
      NewlinesOfInsertion(i);
    }
  }

  lemma NewlinesOfInsertion(i: Insertion)
    requires i.Possible() && OneLine(i.text)
    ensures NewlineCount(i.Bytes()) == if i.Accepted() && Ended(i.text) then 1 else 0
  {
    var front, last := i.text[..|i.text| - 1], [i.text[|i.text| - 1]];
    assert i.text == front + last;
    NoNewlines(front);
    if i.Accepted() {
      assert i.Bytes() == i.text;
      NewlineCountSplit(front, last);
      assert last[1..] == [];
    } else {
      assert forall c | c in i.Bytes() :: c in front;
      NoNewlines(i.Bytes());
    }
  }

  lemma {:induction false} BytesInserted(ins: seq<Insertion>)
    requires OneLineInsertions(ins) && forall i | i in ins && i.Accepted() :: Ended(i.text)
    ensures |BytesOf(ins)| == LineBytes(AcceptedBodies(ins)) + StrayBytes(ins)
    ensures StrayBytes(ins) == 0 ==> forall i | i in ins && !i.Accepted() :: i.copied == 0
  {
    if ins != [] {
      BytesInserted(ins[1..]);
      assert ins[0].Accepted() ==>
          ([Body(ins[0].text)] + AcceptedBodies(ins[1..]))[1..] == AcceptedBodies(ins[1..]);
      assert !ins[0].Accepted() ==> [] + AcceptedBodies(ins[1..]) == AcceptedBodies(ins[1..]);
    }
  }

  /** For messages of one line each, readers get exactly the accepted messages if and only
      if every insertion was all or nothing and every accepted message ended its line. */
  lemma FramedIffClean(ins: seq<Insertion>)
    requires OneLineInsertions(ins)
    ensures Framed(ins) <==> forall i | i in ins :: Clean(i)
  {
    if forall i | i in ins :: Clean(i) {
      CleanIsFramed(ins);
    }
    if Framed(ins) {
      LinesMeasure(BytesOf(ins));
      NewlinesInserted(ins);
      BytesInserted(ins);
      assert forall i | i in ins :: Clean(i);
    }
  }
}
