/** Temperature sources of the CPU limiter: text and battery readings of unknown unit,
    normalised to whole degrees, and their maximum. */
module Temperature {
  import opened Machine
  import opened Digits

  // ---------------------------------------------------------------------------
  // kstrtoint(buf, 0, &value)
  // ---------------------------------------------------------------------------

  /** "0x" followed by a hexadecimal digit selects base 16, another leading "0" base 8. */
  function Radix(s: string): nat {
    if s == [] || s[0] != '0' then 10
    else if |s| > 2 && s[1] in "xX" && DigitOf(s[2]) < 16 then 16
    else 8
  }

  function Magnitude(s: string): Option<nat> {
    var base := Radix(s);
    var unprefixed := if base == 16 then s[2..] else s;
    var digits :=
      if unprefixed != [] && unprefixed[|unprefixed| - 1] == '\n'
      then unprefixed[..|unprefixed| - 1] else unprefixed;
    if digits != [] && AreDigits(digits, base) then Some(ValueOf(digits, base)) else None
  }

  function FitInt(v: int): Option<s32> {
    if INT_MIN <= v <= INT_MAX then Some(v) else None
  }

  function ParseInt(s: string): Option<s32> {
    if s != [] && s[0] == '-' then
      (match Magnitude(s[1..])
       case Some(m) => FitInt(-(m as int))
       case None => None)
    else
      match Magnitude(if s != [] && s[0] == '+' then s[1..] else s)
      case Some(m) => FitInt(m)
      case None => None
  }

  lemma PrintedNatParses(n: nat)
    ensures Magnitude(NatText(n)) == Some(n)
  {
    var text := NatText(n);
    assert DigitOf(text[|text| - 1]) < 10;
    if n == 0 {
      assert |text| == 1 && Radix(text) == 8;
      assert text[..0] == [] && ValueOf(text[..0], 8) == 0;
      assert ValueOf(text, 8) == 0;
      assert AreDigits(text, 8);
    } else {
      assert Radix(text) == 10;
    }
  }

  lemma SignedTextParses(text: string, v: s32)
    requires text != [] && DigitOf(text[0]) < 10
    requires Magnitude(text) == Some(Abs(v))
    ensures ParseInt((if v < 0 then "-" else "") + text) == Some(v)
  {
    var signed := (if v < 0 then "-" else "") + text;
    if v < 0 {
      assert signed[0] == '-' && signed[1..] == text;
    } else {
      assert signed == text;
    }
  }

  /** Printing with %d and reading back with base 0 is the identity on every int. */
  lemma PrintedIntParses(v: s32)
    ensures ParseInt(IntText(v)) == Some(v)
  {
    PrintedNatParses(Abs(v));
    SignedTextParses(NatText(Abs(v)), v);
  }

  lemma HexReads(x: char, digits: string)
    requires x in "xX" && digits != "" && AreDigits(digits, 16)
    ensures Magnitude("0" + ([x] + digits)) == Some(ValueOf(digits, 16))
  {
    var text := "0" + ([x] + digits);
    assert text[2..] == digits && DigitOf(digits[|digits| - 1]) < 16;
    assert Radix(text) == 16;
  }

  lemma OctalReads(digits: string)
    requires AreDigits(digits, 8)
    ensures Magnitude("0" + digits) == Some(ValueOf("0" + digits, 8))
  {
    var text := "0" + digits;
    assert DigitOf(text[|text| - 1]) < 8;
    assert Radix(text) == 8;
  }

  lemma DecimalReads(digits: string)
    requires digits != "" && AreDigits(digits, 10) && digits[0] != '0'
    ensures Magnitude(digits) == Some(ValueOf(digits, 10))
  {
    assert DigitOf(digits[|digits| - 1]) < 10;
  }

  lemma NewlineIsDropped(text: string)
    requires text != "" && text[|text| - 1] != '\n' && Magnitude(text).Some?
    ensures Magnitude(text + "\n") == Magnitude(text)
  {
    var line := text + "\n";
    assert Radix(line) == Radix(text);
    if Radix(text) == 16 {
      assert line[2..] == text[2..] + "\n";
      assert (text[2..] + "\n")[..|text| - 2] == text[2..];
    } else {
      assert line[..|text|] == text;
    }
  }

  /** Base 0: hexadecimal after 0x, octal after 0, decimal otherwise. */
  lemma BaseZeroReads(digits: string, x: char)
    requires digits != "" && x in "xX"
    ensures AreDigits(digits, 16) ==> Magnitude("0" + ([x] + digits)) == Some(ValueOf(digits, 16))
    ensures AreDigits(digits, 8) ==> Magnitude("0" + digits) == Some(ValueOf("0" + digits, 8))
    ensures AreDigits(digits, 10) && digits[0] != '0' ==> Magnitude(digits) == Some(ValueOf(digits, 10))
  {
    if AreDigits(digits, 16) {
      HexReads(x, digits);
    }
    if AreDigits(digits, 8) {
      OctalReads(digits);
    }
    if AreDigits(digits, 10) && digits[0] != '0' {
      DecimalReads(digits);
    }
  }

  // ---------------------------------------------------------------------------
  // Normalisation
  // ---------------------------------------------------------------------------

  /** C division, which truncates toward zero. */
  function TruncDiv(a: s32, b: s32): s32
    requires b > 0
  {
    if a >= 0 then a / b else -(Abs(a) / b)
  }

  /** DIV_ROUND_CLOSEST for a positive int; the addition wraps near INT_MAX. */
  function DivRoundClosest(x: s32, d: s32): s32
    requires x > 0 && d > 1
  {
    TruncDiv(AddS32(x, d / 2), d)
  }

  function Normalise(temp: s32): s32 {
    if temp == INT_MIN || temp == INT_MAX then INT_MIN
    else if temp >= 1000 then DivRoundClosest(temp, 1000)
    else if temp >= 100 then DivRoundClosest(temp, 10)
    else temp
  }

  function ParseTemp(buf: string): s32 {
    match ParseInt(buf)
    case Some(temp) => Normalise(temp)
    case None => INT_MIN
  }

  lemma MinusReads(text: string)
    ensures ParseInt("-" + text) == match Magnitude(text) case Some(m) => FitInt(-(m as int)) case None => None
  {
    assert ("-" + text)[1..] == text;
  }

  lemma PlusReads(text: string)
    ensures ParseInt("+" + text) == match Magnitude(text) case Some(m) => FitInt(m) case None => None
  {
    assert ("+" + text)[1..] == text;
  }

  /** One sign may stand before the number, and the value must be an int. */
  lemma SignReads(sign: string, text: string)
    requires sign in {"", "+", "-"} && text != "" && text[0] !in "+-" && Magnitude(text).Some?
    ensures var v: int := if sign == "-" then -(Magnitude(text).value as int) else Magnitude(text).value;
            && ParseInt(sign + text) == (if -0x8000_0000 <= v < 0x8000_0000 then Some(v) else None)
            && ParseTemp(sign + text) == if -0x8000_0000 <= v < 0x8000_0000 then Normalise(v) else INT_MIN
  {
    if sign == "" {
      assert sign + text == text;
    } else if sign == "+" {
      PlusReads(text);
    } else {
      MinusReads(text);
    }
  }

  lemma NoMagnitude(s: string, i: nat)
    requires i < |s| && DigitOf(s[i]) == 16 && s[i] !in "xX\n"
    ensures Magnitude(s) == None
  {
    var base := Radix(s);
    var unprefixed := if base == 16 then s[2..] else s;
    var k := if base == 16 then i - 2 else i;
    assert 0 <= k < |unprefixed| && unprefixed[k] == s[i];
    assert k == |unprefixed| - 1 ==> unprefixed[|unprefixed| - 1] != '\n';
  }

  /** A character that can be no part of a number makes the text no number. */
  lemma GarbageIsNoReading(s: string, i: nat)
    requires i < |s| && DigitOf(s[i]) == 16 && s[i] !in "xX+-\n"
    ensures ParseTemp(s) == ParseTemp("") == INT_MIN
  {
    if i > 0 {
      NoMagnitude(s[1..], i - 1);
    }
    NoMagnitude(s, i);
  }

  lemma RoundsUp(x: s32, d: s32)
    requires 0 < x <= INT_MAX - 500 && 1 < d <= 1000
    ensures DivRoundClosest(x, d) == (x + d / 2) / d
  {
    assert (x + d / 2) % U32_RANGE == x + d / 2;
  }

  /** Readings below 100 are degrees, negative ones included; from 100 they are tenths and from
      1000 thousandths, rounded to the nearest degree, up at the half. */
  lemma NormaliseRounds(temp: s32)
    ensures temp == INT_MAX ==> Normalise(temp) == INT_MIN
    ensures temp < 100 ==> Normalise(temp) == temp
    ensures 100 <= temp < 1000 ==> -4 <= 10 * Normalise(temp) - temp <= 5
    ensures 1000 <= temp <= INT_MAX - 500 ==> -499 <= 1000 * Normalise(temp) - temp <= 500
  {
    if 100 <= temp < 1000 {
      RoundsUp(temp, 10);
    } else if 1000 <= temp <= INT_MAX - 500 {
      RoundsUp(temp, 1000);
    }
  }

  /** Whole degrees, tenths and thousandths of the same temperature normalise alike
      exactly for 0 and for 10..99 degrees; the value is then the degrees. */
  lemma UnitsAgree(d: s32)
    requires INT_MIN <= 1000 * d <= INT_MAX
    ensures Normalise(d) == Normalise(10 * d) == Normalise(1000 * d) <==> d == 0 || 10 <= d <= 99
    ensures d == 0 || 10 <= d <= 99 ==> Normalise(d) == d
  {
    if d >= 100 {
      RoundsUp(d, 10);
      RoundsUp(d, 1000);
      RoundsUp(10 * d, 1000);
    } else if d >= 10 {
      RoundsUp(10 * d, 10);
      RoundsUp(1000 * d, 1000);
    } else if d > 0 {
      RoundsUp(1000 * d, 1000);
    }
  }

  /** A reading of 1000 or more is the nearest whole degree, unless it lies within 500
      of INT_MAX: there the rounding wraps and the hottest readings turn into
      temperatures below every threshold. */
  lemma HotReadingWraps(temp: s32)
    requires 1000 <= temp < INT_MAX
    ensures temp <= INT_MAX - 500 <==> Normalise(temp) > 0
    ensures temp <= INT_MAX - 500 ==> -500 <= 1000 * Normalise(temp) - temp <= 500
    ensures temp > INT_MAX - 500 ==> Normalise(temp) == -2147483
  {
    if temp <= INT_MAX - 500 {
      RoundsUp(temp, 1000);
    } else {
      assert (temp + 500) % U32_RANGE == temp + 500;
      assert AddS32(temp, 500) == temp + 500 - U32_RANGE;
    }
  }

  // ---------------------------------------------------------------------------
  // The seven sources
  // ---------------------------------------------------------------------------

  datatype Battery = NoSupply | PropertyFails | Property(intval: s32)

  datatype Sensors = Sensors(
    battery: Battery, tempState: s32, displayThermTemp: s32,
    board: string, boardSecond: string, boardOther: string, ambient: string)

  /** The battery value is printed and parsed again: what remains is the normalisation. */
  method GetBatteryTemp(battery: Battery) returns (temp: s32)
    ensures temp == if battery.Property? then Normalise(battery.intval) else INT_MIN
  {
    match battery {
      case NoSupply => return INT_MIN;
      case PropertyFails => return INT_MIN;
      case Property(intval) =>
        PrintedIntParses(intval);
        return ParseTemp(IntText(intval));
    }
  }

  /** What the battery adds. */
  function BatteryReading(battery: Battery): s32 {
    if battery.Property? then Normalise(battery.intval) else INT_MIN
  }

  /** The device temperature: none of the seven readings exceeds it, and one of them is it.
      INT_MIN stands for a source without a reading. */
  function DeviceTemp(s: Sensors): (temp: s32)
    ensures s.battery.Property? ==> Normalise(s.battery.intval) <= temp
    ensures s.tempState <= temp && s.displayThermTemp <= temp
    ensures ParseTemp(s.board) <= temp && ParseTemp(s.boardSecond) <= temp
    ensures ParseTemp(s.boardOther) <= temp && ParseTemp(s.ambient) <= temp
    ensures || (s.battery.Property? && temp == Normalise(s.battery.intval))
            || temp == s.tempState || temp == s.displayThermTemp
            || temp == ParseTemp(s.board) || temp == ParseTemp(s.boardSecond)
            || temp == ParseTemp(s.boardOther) || temp == ParseTemp(s.ambient)
  {
    Max(BatteryReading(s.battery),
        Max(s.tempState, Max(s.displayThermTemp, Max(ParseTemp(s.board),
          Max(ParseTemp(s.boardSecond), Max(ParseTemp(s.boardOther), ParseTemp(s.ambient)))))))
  }

  method GetDeviceTemp(s: Sensors) returns (temp: s32)
    ensures temp == DeviceTemp(s)
  {
    temp := INT_MIN;
    var battery := GetBatteryTemp(s.battery);
    temp := Max(temp, battery);
    temp := Max(temp, s.tempState);
    temp := Max(temp, s.displayThermTemp);
    temp := Max(temp, ParseTemp(s.board));
    temp := Max(temp, ParseTemp(s.boardSecond));
    temp := Max(temp, ParseTemp(s.boardOther));
    temp := Max(temp, ParseTemp(s.ambient));
  }
}
