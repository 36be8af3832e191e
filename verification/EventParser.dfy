/** A reader for the text of an event, and the proof that rendering loses nothing. */
module EventParser {
  import opened Machine
  import opened Digits
  import opened EventText

  // ---------------------------------------------------------------------------
  // The parser
  // ---------------------------------------------------------------------------

  function Strip(s: string, prefix: string): (rest: Option<string>)
    ensures rest.Some? ==> s == prefix + rest.value
  {
    if |prefix| <= |s| && s[..|prefix|] == prefix then Some(s[|prefix|..]) else None
  }

  function DigitSpan(s: string): (n: nat)
    ensures n <= |s| && AreDigits(s[..n], 10)
    ensures n < |s| ==> DigitOf(s[n]) >= 10
  {
    if s == [] || DigitOf(s[0]) >= 10 then 0
    else
      var n := 1 + DigitSpan(s[1..]);
      assert s[..n] == [s[0]] + s[1..][..n - 1];
      n
  }

  function ParseNat(s: string): (r: Option<(nat, string)>)
    ensures r.Some? ==> |r.value.1| < |s|
  {
    var n := DigitSpan(s);
    if n == 0 then None else Some((ValueOf(s[..n], 10), s[n..]))
  }

  function ParseInteger(s: string): (r: Option<(int, string)>)
    ensures r.Some? ==> |r.value.1| < |s|
  {
    var negative := s != [] && s[0] == '-';
    match ParseNat(if negative then s[1..] else s)
    case Some((n, rest)) => Some((if negative then -(n as int) else n, rest))
    case None => None
  }

  predicate QuoteFree(s: string) {
    '\"' !in s
  }

  function QuoteIndex(s: string): (n: nat)
    ensures n <= |s| && QuoteFree(s[..n])
    ensures n < |s| ==> s[n] == '\"'
  {
    if s == [] || s[0] == '\"' then 0
    else
      var n := 1 + QuoteIndex(s[1..]);
      assert s[..n] == [s[0]] + s[1..][..n - 1];
      n
  }

  /** The text up to the closing quote, and what follows it. */
  function ParseQuoted(s: string): (r: Option<(string, string)>)
    ensures r.Some? ==> QuoteFree(r.value.0) && |r.value.1| < |s|
  {
    var n := QuoteIndex(s);
    if n == |s| then None else Some((s[..n], s[n + 1..]))
  }

  function ParseValue(key: string, s: string): (r: Option<(Param, string)>)
    ensures r.Some? ==> r.value.0.key == key && |r.value.1| < |s|
    ensures r.Some? && r.value.0.StrParam? ==> QuoteFree(r.value.0.text)
  {
    if s != [] && s[0] == '\"' then
      (match ParseQuoted(s[1..])
       case Some((text, rest)) => Some((StrParam(key, text), rest))
       case None => None)
    else
      match ParseInteger(s)
      case Some((v, rest)) =>
        if LONG_MIN <= v < 0x8000_0000_0000_0000 then Some((IntParam(key, v), rest)) else None
      case None => None
  }

  predicate Readable(p: Param) {
    QuoteFree(p.key) && (p.StrParam? ==> QuoteFree(p.text))
  }

  function ParseParam(s: string): (r: Option<(Param, string)>)
    ensures r.Some? ==> Readable(r.value.0) && |r.value.1| < |s|
  {
    if s == [] || s[0] != '\"' then None
    else
      match ParseQuoted(s[1..])
      case Some((key, rest)) =>
        (match Strip(rest, ":")
         case Some(value) => ParseValue(key, value)
         case None => None)
      case None => None
  }

  /** The parameters after the first, up to the footer. */
  function ParseTail(s: string): (r: Option<seq<Param>>)
    ensures r.Some? ==> forall p | p in r.value :: Readable(p)
    decreases |s|
  {
    if s == "}\n" then Some([])
    else if s == [] || s[0] != ',' then None
    else
      match ParseParam(s[1..])
      case Some((p, rest)) =>
        (match ParseTail(rest)
         case Some(ps) => Some([p] + ps)
         case None => None)
      case None => None
  }

  function ParseList(s: string): (r: Option<seq<Param>>)
    ensures r.Some? ==> forall p | p in r.value :: Readable(p)
  {
    if s == "}\n" then Some([])
    else
      match ParseParam(s)
      case Some((p, rest)) =>
        (match ParseTail(rest)
         case Some(ps) => Some([p] + ps)
         case None => None)
      case None => None
  }

  datatype Parsed = Parsed(id: nat, time: int, params: seq<Param>)

  function ParseAfterId(id: nat, s: string): Option<Parsed> {
    match Strip(s, " -t ")
    case None => None
    case Some(afterT) =>
      match ParseInteger(afterT)
      case None => None
      case Some((time, afterTime)) =>
        match Strip(afterTime, " -paraList {")
        case None => None
        case Some(list) =>
          match ParseList(list)
          case Some(ps) => Some(Parsed(id, time, ps))
          case None => None
  }

  function ParseEvent(s: string): Option<Parsed> {
    match Strip(s, "EventId ")
    case None => None
    case Some(rest) =>
      match ParseNat(rest)
      case Some((id, afterId)) => ParseAfterId(id, afterId)
      case None => None
  }

  // ---------------------------------------------------------------------------
  // The inverse
  // ---------------------------------------------------------------------------

  lemma StripsPrefix(prefix: string, rest: string)
    ensures Strip(prefix + rest, prefix) == Some(rest)
  {
    assert (prefix + rest)[..|prefix|] == prefix;
    assert (prefix + rest)[|prefix|..] == rest;
  }

  lemma DigitSpanStops(digits: string, rest: string)
    requires AreDigits(digits, 10) && (rest != [] ==> DigitOf(rest[0]) >= 10)
    ensures DigitSpan(digits + rest) == |digits|
  {
    var s := digits + rest;
    var n := DigitSpan(s);
    assert forall i | 0 <= i < |digits| :: s[i] == digits[i];
    assert forall i | 0 <= i < n :: s[..n][i] == s[i];
    assert rest != [] ==> s[|digits|] == rest[0];
  }

  lemma DigitsParse(digits: string, rest: string)
    requires digits != [] && AreDigits(digits, 10) && (rest != [] ==> DigitOf(rest[0]) >= 10)
    ensures ParseNat(digits + rest) == Some((ValueOf(digits, 10), rest))
  {
    DigitSpanStops(digits, rest);
    assert (digits + rest)[..|digits|] == digits;
    assert (digits + rest)[|digits|..] == rest;
  }

  lemma NatParses(n: nat, rest: string)
    requires rest != [] ==> DigitOf(rest[0]) >= 10
    ensures ParseNat(NatText(n) + rest) == Some((n, rest))
  {
    DigitsParse(NatText(n), rest);
  }

  lemma UnsignedParses(s: string, r: (nat, string))
    requires ParseNat(s) == Some(r) && s != [] && s[0] != '-'
    ensures ParseInteger(s) == Some((r.0, r.1))
  {
  }

  lemma NegativeParses(s: string, r: (nat, string))
    requires ParseNat(s) == Some(r)
    ensures ParseInteger("-" + s) == Some((-(r.0 as int), r.1))
  {
    assert ("-" + s)[1..] == s;
  }

  lemma SignedParses(digits: string, v: int, rest: string)
    requires digits != [] && DigitOf(digits[0]) < 10
    requires ParseNat(digits + rest) == Some((Abs(v), rest))
    ensures ParseInteger((if v < 0 then "-" else "") + digits + rest) == Some((v, rest))
    ensures var s := (if v < 0 then "-" else "") + digits + rest; s != [] && s[0] != '\"'
  {
    var s := digits + rest;
    assert s[0] == digits[0];
    if v < 0 {
      Associative("-", digits, rest);
      NegativeParses(s, (Abs(v), rest));
    } else {
      assert "" + digits == digits;
      UnsignedParses(s, (Abs(v), rest));
    }
  }

  lemma IntegerParses(v: int, rest: string)
    requires rest != [] ==> DigitOf(rest[0]) >= 10
    ensures ParseInteger(IntText(v) + rest) == Some((v, rest))
    ensures IntText(v) + rest != [] && (IntText(v) + rest)[0] != '\"'
  {
    NatParses(Abs(v), rest);
    SignedParses(NatText(Abs(v)), v, rest);
  }

  lemma QuotedParses(text: string, rest: string)
    requires QuoteFree(text)
    ensures ParseQuoted(text + ("\"" + rest)) == Some((text, rest))
  {
    var s := text + ("\"" + rest);
    var n := QuoteIndex(s);
    assert s[|text|] == '\"';
    assert forall i | 0 <= i < |text| :: s[i] == text[i];
    assert forall i | 0 <= i < n :: s[..n][i] == s[i];
    assert n == |text|;
    assert s[..|text|] == text && s[|text| + 1..] == rest;
  }

  lemma IntParamParses(key: string, v: s64, rest: string)
    requires rest != [] && DigitOf(rest[0]) >= 10
    ensures ParseValue(key, IntText(v) + rest) == Some((IntParam(key, v), rest))
  {
    IntegerParses(v, rest);
  }

  lemma StrParamParses(key: string, text: string, rest: string)
    requires QuoteFree(text)
    ensures ParseValue(key, "\"" + (text + "\"") + rest) == Some((StrParam(key, text), rest))
  {
    QuotedParses(text, rest);
    var s := "\"" + (text + "\"") + rest;
    assert s[1..] == text + ("\"" + rest);
  }

  lemma KeyParses(key: string, value: string, r: (Param, string))
    requires QuoteFree(key) && ParseValue(key, value) == Some(r)
    ensures ParseParam("\"" + (key + ("\"" + (":" + value)))) == Some(r)
  {
    var s := "\"" + (key + ("\"" + (":" + value)));
    assert s[1..] == key + ("\"" + (":" + value));
    QuotedParses(key, ":" + value);
    StripsPrefix(":", value);
  }

  lemma Reassociate(key: string, value: string, rest: string)
    ensures "\"" + (key + ("\":" + value)) + rest == "\"" + (key + ("\"" + (":" + (value + rest))))
  {
  }

  lemma ParamParses(p: Param, rest: string)
    requires Readable(p) && rest != [] && DigitOf(rest[0]) >= 10
    ensures ParseParam(RenderParam(p) + rest) == Some((p, rest))
    ensures RenderParam(p) + rest != [] && (RenderParam(p) + rest)[0] == '\"'
  {
    match p {
      case IntParam(key, value) => IntParamParses(key, value, rest);
      case StrParam(key, text) => StrParamParses(key, text, rest);
    }
    KeyParses(p.key, RenderValue(p) + rest, (p, rest));
    Reassociate(p.key, RenderValue(p), rest);
  }

  lemma TailStepParses(param: string, rest: string, p: Param, ps: seq<Param>)
    requires ParseParam(param + rest) == Some((p, rest)) && ParseTail(rest) == Some(ps)
    ensures ParseTail("," + (param + rest)) == Some([p] + ps)
  {
    var s := "," + (param + rest);
    assert s[1..] == param + rest && s[0] == ',';
  }

  lemma FooterMoves(param: string, tail: string, footer: string)
    ensures "," + (param + tail) + footer == "," + (param + (tail + footer))
    ensures param + tail + footer == param + (tail + footer)
  {
  }

  lemma {:induction false} TailParses(ps: seq<Param>)
    requires forall p | p in ps :: Readable(p)
    ensures var s := RenderTail(ps) + "}\n"; s != [] && DigitOf(s[0]) >= 10
    ensures ParseTail(RenderTail(ps) + "}\n") == Some(ps)
  {
    if ps == [] {
      assert RenderTail(ps) + "}\n" == "}\n";
    } else {
      TailParses(ps[1..]);
      var param, rest := RenderParam(ps[0]), RenderTail(ps[1..]) + "}\n";
      ParamParses(ps[0], rest);
      TailStepParses(param, rest, ps[0], ps[1..]);
      FooterMoves(param, RenderTail(ps[1..]), "}\n");
      assert [ps[0]] + ps[1..] == ps;
    }
  }

  lemma ListStepParses(param: string, rest: string, p: Param, ps: seq<Param>)
    requires ParseParam(param + rest) == Some((p, rest)) && ParseTail(rest) == Some(ps)
    requires param + rest != [] && (param + rest)[0] == '\"'
    ensures ParseList(param + rest) == Some([p] + ps)
  {
  }

  lemma ListParses(ps: seq<Param>)
    requires forall p | p in ps :: Readable(p)
    ensures ParseList(RenderList(ps) + "}\n") == Some(ps)
  {
    if ps == [] {
      assert RenderList(ps) + "}\n" == "}\n";
    } else {
      TailParses(ps[1..]);
      var param, rest := RenderParam(ps[0]), RenderTail(ps[1..]) + "}\n";
      ParamParses(ps[0], rest);
      ListStepParses(param, rest, ps[0], ps[1..]);
      FooterMoves(param, RenderTail(ps[1..]), "}\n");
      assert [ps[0]] + ps[1..] == ps;
    }
  }

  lemma LineShape(id: u32, time: s64, ps: seq<Param>)
    ensures EventLine(id, time, ps)
         == "EventId " + (NatText(id) + (" -t " + (IntText(time) + (" -paraList {" + (RenderList(ps) + "}\n")))))
  {
    var list := RenderList(ps);
    Associative("EventId ", NatText(id) + (" -t " + (IntText(time) + " -paraList {")), list + "}\n");
    Associative(NatText(id), " -t " + (IntText(time) + " -paraList {"), list + "}\n");
    Associative(" -t ", IntText(time) + " -paraList {", list + "}\n");
    Associative(IntText(time), " -paraList {", list + "}\n");
    Associative(Header(id, time), list, "}\n");
  }

  lemma HeadParses(id: u32, time: s64, list: string)
    ensures var s := "EventId " + (NatText(id) + (" -t " + (IntText(time) + (" -paraList {" + list))));
            ParseEvent(s) == match ParseList(list)
                             case Some(ps) => Some(Parsed(id, time, ps))
                             case None => None
  {
    var afterTime := " -paraList {" + list;
    var afterT := IntText(time) + afterTime;
    var afterId := " -t " + afterT;
    StripsPrefix("EventId ", NatText(id) + afterId);
    NatParses(id, afterId);
    StripsPrefix(" -t ", afterT);
    IntegerParses(time, afterTime);
    StripsPrefix(" -paraList {", list);
  }

  /** Reading an event back gives its id, its time and exactly its typed parameters, if and
      only if no key and no string value holds a double quote. */
  lemma EventParsesIff(id: u32, time: s64, ps: seq<Param>)
    ensures ParseEvent(EventLine(id, time, ps)) == Some(Parsed(id, time, ps))
        <==> forall p | p in ps :: Readable(p)
  {
    LineShape(id, time, ps);
    HeadParses(id, time, RenderList(ps) + "}\n");
    if forall p | p in ps :: Readable(p) {
      ListParses(ps);
    }
  }

  /** So rendering is injective on such events. */
  lemma RenderingIsInjective(
    id: u32, time: s64, ps: seq<Param>, id': u32, time': s64, ps': seq<Param>)
    requires (forall p | p in ps :: Readable(p)) && (forall p | p in ps' :: Readable(p))
    requires EventLine(id, time, ps) == EventLine(id', time', ps')
    ensures id == id' && time == time' && ps == ps'
  {
    EventParsesIff(id, time, ps);
    EventParsesIff(id', time', ps');
  }

  /** Without that condition it is not: values are not escaped, so one string parameter can
      render like two. */
  lemma QuotesAreAmbiguous(id: u32, time: s64)
    ensures var one := [StrParam("a", "b\",\"c\":\"d")];
            var two := [StrParam("a", "b"), StrParam("c", "d")];
            one != two && EventLine(id, time, one) == EventLine(id, time, two)
  {
    var one := [StrParam("a", "b\",\"c\":\"d")];
    var two := [StrParam("a", "b"), StrParam("c", "d")];
    assert RenderTail(two[1..]) == "," + (RenderParam(two[1]) + RenderTail(two[1..][1..]));
    assert RenderList(one) == RenderParam(one[0]) + "";
    assert RenderList(two) == RenderParam(two[0]) + ("," + (RenderParam(two[1]) + ""));
    assert RenderList(one) == "\"a\":\"b\",\"c\":\"d\"" == RenderList(two);
  }
}
