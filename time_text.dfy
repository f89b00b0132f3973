/**
 * The time tracker's text utilities: reading an amount of time typed by the user
 * (`parseTimeInput`), showing an amount of hours (`formatHours`), and the relative day
 * label of a timestamp (the bucketing inside `formatDate`).
 */
module TimeText {
  import opened Wrappers
  import opened JsText
  import opened Numbers
  import opened JsMath

  // ---------------------------------------------------------------------------
  // parseTimeInput

  /** `s.split(':')[0]`: the text before the first colon, all of `s` when it has none. */
  function BeforeColon(s: string): (r: string)
    ensures |r| <= |s| && r == s[..|r|] && ':' !in r
    ensures |r| < |s| ==> s[|r|] == ':'
  {
    if s == [] || s[0] == ':' then []
    else
      var r := BeforeColon(s[1..]);
      assert s[..|r| + 1] == [s[0]] + s[1..][..|r|];
      [s[0]] + r
  }

  /** The hours read from a cleaned text (trimmed, commas replaced, not empty): before and
      after the first colon when it has one, the whole text as decimal hours otherwise. */
  function ParseCleaned(c: string): real
  {
    var h := BeforeColon(c);
    if ':' in c then
      OrZero(ParseFloat(h)) + OrZero(ParseFloat(BeforeColon(c[|h| + 1..]))) / 60.0
    else
      OrZero(ParseFloat(c))
  }

  /** `parseTimeInput`: hours from "1:30", "1.5" or "1,5"; 0 for blank or unreadable input. */
  function ParseTimeInput(input: string): real
  {
    var t := Trim(input);
    if t == [] then 0.0 else ParseCleaned(ReplaceCommas(t))
  }

  /** Blank input, empty or white space only, reads as no time. */
  lemma ParseTimeInputBlank(input: string)
    requires AllSpace(input)
    ensures ParseTimeInput(input) == 0.0
  {
    TrimEmptyIffBlank(input);
  }

  /** Trimming before reading changes nothing: the reading trims first. */
  lemma ParseTimeInputTrim(input: string)
    ensures ParseTimeInput(Trim(input)) == ParseTimeInput(input)
  {
    TrimIdempotent(input);
  }

  /** A text with no colon is the part before the first colon. */
  lemma BeforeColonNone(s: string)
    requires ':' !in s
    ensures BeforeColon(s) == s
  {
  }

  /** The part before the first colon of `a:rest`, when `a` has no colon, is `a`. */
  lemma {:induction false} BeforeColonOf(a: string, rest: string)
    requires ':' !in a
    ensures BeforeColon(a + ":" + rest) == a
  {
    if a != [] {
      assert (a + ":" + rest)[1..] == a[1..] + ":" + rest;
      BeforeColonOf(a[1..], rest);
    }
  }

  /** Replacing commas leaves a comma-free text as it is. */
  lemma ReplaceNoCommas(s: string)
    requires ',' !in s
    ensures ReplaceCommas(s) == s
  {
  }

  /** Replacing commas twice is replacing them once. */
  lemma ReplaceCommasIdempotent(s: string)
    ensures ReplaceCommas(ReplaceCommas(s)) == ReplaceCommas(s)
  {
    ReplaceNoCommas(ReplaceCommas(s));
  }

  /** Replacing commas commutes with trimming the start: commas and points are not white space. */
  lemma {:induction false} ReplaceCommasTrimStart(s: string)
    ensures TrimStart(ReplaceCommas(s)) == ReplaceCommas(TrimStart(s))
  {
    if s != [] {
      var r := ReplaceCommas(s);
      assert r[1..] == ReplaceCommas(s[1..]);
      ReplaceCommasTrimStart(s[1..]);
    }
  }

  /** Replacing commas commutes with trimming the end. */
  lemma {:induction false} ReplaceCommasTrimEnd(s: string)
    ensures TrimEnd(ReplaceCommas(s)) == ReplaceCommas(TrimEnd(s))
  {
    if s != [] {
      var r := ReplaceCommas(s);
      assert r[..|r| - 1] == ReplaceCommas(s[..|s| - 1]);
      ReplaceCommasTrimEnd(s[..|s| - 1]);
    }
  }

  /** Commas and points are read alike: the input reads as it does with its commas made points. */
  lemma ParseTimeInputCommaAsPoint(input: string)
    ensures ParseTimeInput(ReplaceCommas(input)) == ParseTimeInput(input)
  {
    ReplaceCommasTrimStart(input);
    ReplaceCommasTrimEnd(TrimStart(input));
    ReplaceCommasIdempotent(Trim(input));
  }

  /** A digit of the trimmed text is a digit of the input. */
  lemma HasDigitTrim(input: string)
    ensures HasDigit(Trim(input)) ==> HasDigit(input)
  {
    var u := TrimStart(input);
    var t := TrimEnd(u);
    HasDigitSlice(u, 0, |t|);
    HasDigitSlice(input, |input| - |u|, |input|);
  }

  /** Replacing commas neither adds nor removes digits. */
  lemma HasDigitReplaceCommas(t: string)
    ensures HasDigit(ReplaceCommas(t)) ==> HasDigit(t)
  {
    var c := ReplaceCommas(t);
    if HasDigit(c) {
      var k :| 0 <= k < |c| && IsDigit(c[k]);
      assert IsDigit(t[k]);
    }
  }

  /** A nonzero `parseFloat(s) || 0` needs a digit in `s`. */
  lemma OrZeroNeedsDigit(s: string)
    ensures OrZero(ParseFloat(s)) != 0.0 ==> HasDigit(s)
  {
    ParseFloatNeedsDigit(s);
  }

  /** A digit of one of the fields around the first colon is a digit of the cleaned text. */
  lemma FieldDigits(c: string, h: string, rest: string, g: string)
    requires h == BeforeColon(c) && ':' in c && rest == c[|h| + 1..] && g == BeforeColon(rest)
    ensures HasDigit(h) || HasDigit(g) ==> HasDigit(c)
  {
    HasDigitSlice(c, 0, |h|);
    HasDigitSlice(rest, 0, |g|);
    HasDigitSlice(c, |h| + 1, |c|);
  }

  /** A nonzero reading of a cleaned text needs a digit in it. */
  lemma ParseCleanedNeedsDigit(c: string)
    ensures ParseCleaned(c) != 0.0 ==> HasDigit(c)
  {
    var h := BeforeColon(c);
    if ':' in c {
      var rest := c[|h| + 1..];
      var g := BeforeColon(rest);
      OrZeroNeedsDigit(h);
      OrZeroNeedsDigit(g);
      FieldDigits(c, h, rest, g);
    } else {
      OrZeroNeedsDigit(c);
    }
  }

  /** No digit, no time: a nonzero reading needs a digit in the input. */
  lemma ParseTimeInputNeedsDigit(input: string)
    ensures ParseTimeInput(input) != 0.0 ==> HasDigit(input)
  {
    var t := Trim(input);
    if t != [] {
      ParseCleanedNeedsDigit(ReplaceCommas(t));
      HasDigitReplaceCommas(t);
    }
    HasDigitTrim(input);
  }

  /** A text that neither starts nor ends with white space is read with only its commas replaced. */
  lemma ParseTimeInputTrimmed(s: string)
    requires s != [] && !IsSpace(s[0]) && !IsSpace(s[|s| - 1])
    ensures ParseTimeInput(s) == ParseCleaned(ReplaceCommas(s))
  {
    TrimNonSpace(s);
  }

  /** A text that is trimmed, not empty and free of commas is read as it stands. */
  lemma ParseTimeInputClean(s: string)
    requires s != [] && !IsSpace(s[0]) && !IsSpace(s[|s| - 1]) && ',' !in s
    ensures ParseTimeInput(s) == ParseCleaned(s)
  {
    ParseTimeInputTrimmed(s);
    ReplaceNoCommas(s);
  }

  /** A run of digits has neither commas nor colons, and starts and ends away from white space. */
  lemma DigitRunText(ds: string)
    requires AllDigits(ds) && ds != []
    ensures ',' !in ds && ':' !in ds && !IsSpace(ds[0]) && !IsSpace(ds[|ds| - 1])
  {
  }

  /** A rendered natural number, alone, parses to that number. */
  lemma ParseNatAlone(n: nat)
    ensures ParseFloat(NatToString(n)) == Some(n as real)
  {
    ParseNumeral(n, []);
    assert NatToString(n) + [] == NatToString(n);
  }

  /** "H:M" with rendered whole hours and minutes reads as H + M/60. */
  lemma ParseTimeInputClock(h: nat, m: nat)
    ensures ParseTimeInput(NatToString(h) + ":" + NatToString(m)) == h as real + m as real / 60.0
  {
    ParseClockOf(NatToString(h) + ":" + NatToString(m), h, m);
  }

  lemma ParseClockOf(s: string, h: nat, m: nat)
    requires s == NatToString(h) + ":" + NatToString(m)
    ensures ParseTimeInput(s) == h as real + m as real / 60.0
  {
    var a, b := NatToString(h), NatToString(m);
    DigitRunText(a);
    DigitRunText(b);
    assert s[0] == a[0] && s[|s| - 1] == b[|b| - 1];
    assert ',' !in s && s[|a|] == ':';
    ParseTimeInputClean(s);
    BeforeColonOf(a, b);
    assert s[|a| + 1..] == b;
    BeforeColonNone(b);
    ParseNatAlone(h);
    ParseNatAlone(m);
  }

  /** "H:" with nothing after the colon reads as H hours. */
  lemma ParseTimeInputHoursOnly(h: nat)
    ensures ParseTimeInput(NatToString(h) + ":") == h as real
  {
    ParseHoursOnlyOf(NatToString(h) + ":", h);
  }

  lemma ParseHoursOnlyOf(s: string, h: nat)
    requires s == NatToString(h) + ":"
    ensures ParseTimeInput(s) == h as real
  {
    var a := NatToString(h);
    DigitRunText(a);
    assert s == a + ":" + [];
    assert s[0] == a[0] && s[|s| - 1] == ':';
    ParseTimeInputClean(s);
    BeforeColonOf(a, []);
    assert s[|a| + 1..] == [];
    ParseNatAlone(h);
    ParseFloatNotNumber([]);
  }

  /** The colon form for any field texts: the hours field before the first colon and the
      minutes field up to the next colon are each read as decimal numbers, 0 when not numeric,
      and the minutes count as sixtieths. The text must be trimmed and free of commas. */
  lemma ParseTimeInputFields(a: string, b: string)
    requires ':' !in a && ',' !in a && ',' !in b
    requires a == [] || !IsSpace(a[0])
    requires b == [] || !IsSpace(b[|b| - 1])
    ensures ParseTimeInput(a + ":" + b) == OrZero(ParseFloat(a)) + OrZero(ParseFloat(BeforeColon(b))) / 60.0
  {
    ParseFieldsOf(a + ":" + b, a, b);
  }

  lemma ParseFieldsOf(s: string, a: string, b: string)
    requires ':' !in a && ',' !in a && ',' !in b
    requires a == [] || !IsSpace(a[0])
    requires b == [] || !IsSpace(b[|b| - 1])
    requires s == a + ":" + b
    ensures ParseTimeInput(s) == OrZero(ParseFloat(a)) + OrZero(ParseFloat(BeforeColon(b))) / 60.0
  {
    FieldsClean(s, a, b);
    ParseTimeInputClean(s);
    BeforeColonOf(a, b);
    assert s[|a| + 1..] == b;
    assert ':' in s;
  }

  /** The colon text of two trimmed, comma-free fields is itself trimmed and comma-free. */
  lemma FieldsClean(s: string, a: string, b: string)
    requires ',' !in a && ',' !in b
    requires a == [] || !IsSpace(a[0])
    requires b == [] || !IsSpace(b[|b| - 1])
    requires s == a + ":" + b
    ensures s != [] && !IsSpace(s[0]) && !IsSpace(s[|s| - 1]) && ',' !in s
  {
    if a == [] {
      assert s[0] == ':';
    } else {
      assert s[0] == a[0];
    }
    if b == [] {
      assert s[|s| - 1] == ':';
    } else {
      assert s[|s| - 1] == b[|b| - 1];
    }
  }

  /** ":30": a missing hours field counts as 0. */
  lemma ExampleMissingHours()
    ensures ParseTimeInput(":30") == 0.5
  {
    assert NatToString(30) == "30";
    ParseNatAlone(30);
    ParseFloatNotNumber([]);
    BeforeColonNone("30");
    assert [] + ":" + "30" == ":30";
    ParseTimeInputFields([], "30");
  }

  /** "1:xx": an unreadable minutes field counts as 0. */
  lemma ExampleUnreadableMinutes()
    ensures ParseTimeInput("1:xx") == 1.0
  {
    assert NatToString(1) == "1";
    ParseNatAlone(1);
    TrimStartNonSpace("xx");
    ParseFloatNotNumber("xx");
    BeforeColonNone("xx");
    assert "1" + ":" + "xx" == "1:xx";
    ParseTimeInputFields("1", "xx");
  }

  /** "ab:15": an unreadable hours field counts as 0. */
  lemma ExampleUnreadableHours()
    ensures ParseTimeInput("ab:15") == 0.25
  {
    assert NatToString(15) == "15";
    ParseNatAlone(15);
    TrimStartNonSpace("ab");
    ParseFloatNotNumber("ab");
    BeforeColonNone("15");
    assert "ab" + ":" + "15" == "ab:15";
    ParseTimeInputFields("ab", "15");
  }

  /** "1:30.5": the minutes field is read as a decimal number too. */
  lemma ExampleDecimalMinutes()
    ensures ParseTimeInput("1:30.5") == 1.0 + 30.5 / 60.0
  {
    assert NatToString(1) == "1" && NatToString(30) == "30";
    assert FractionValue("5") == 0.5;
    assert "1:30.5" == NatToString(1) + ":" + (NatToString(30) + "." + "5");
    DecimalMinutesOf("1:30.5", 1, 30, "5");
  }

  lemma DecimalMinutesOf(s: string, h: nat, m: nat, ds: string)
    requires AllDigits(ds) && ds != []
    requires s == NatToString(h) + ":" + (NatToString(m) + "." + ds)
    ensures ParseTimeInput(s) == h as real + (m as real + FractionValue(ds)) / 60.0
  {
    var a, b := NatToString(h), NatToString(m) + "." + ds;
    DigitRunText(a);
    DigitRunText(ds);
    assert b[|b| - 1] == ds[|ds| - 1];
    ParseNatAlone(h);
    ParseFraction(NatToString(m), ds);
    NatToStringValue(m);
    BeforeColonNone(b);
    ParseTimeInputFields(a, b);
  }

  /** "1:30:15": only the first two fields are read. */
  lemma ExampleThirdField()
    ensures ParseTimeInput("1:30:15") == 1.5
  {
    assert NatToString(1) == "1" && NatToString(30) == "30" && NatToString(15) == "15";
    assert "1:30:15" == NatToString(1) + ":" + (NatToString(30) + ":" + NatToString(15));
    ThirdFieldOf("1:30:15", 1, 30, NatToString(15));
  }

  lemma ThirdFieldOf(s: string, h: nat, m: nat, rest: string)
    requires AllDigits(rest) && rest != []
    requires s == NatToString(h) + ":" + (NatToString(m) + ":" + rest)
    ensures ParseTimeInput(s) == h as real + m as real / 60.0
  {
    var a, b := NatToString(h), NatToString(m) + ":" + rest;
    DigitRunText(a);
    DigitRunText(NatToString(m));
    DigitRunText(rest);
    assert b[|b| - 1] == rest[|rest| - 1];
    ParseNatAlone(h);
    ParseNatAlone(m);
    BeforeColonOf(NatToString(m), rest);
    ParseTimeInputFields(a, b);
  }

  /** Colon-free input that is trimmed and free of commas reads as `parseFloat` of it, 0 when that is NaN. */
  lemma ParseTimeInputNumber(s: string)
    requires s != [] && !IsSpace(s[0]) && !IsSpace(s[|s| - 1]) && ',' !in s && ':' !in s
    ensures ParseTimeInput(s) == OrZero(ParseFloat(s))
  {
    ParseTimeInputClean(s);
  }

  /** Whole hours typed as a plain natural number read as that many hours. */
  lemma ParseTimeInputWholeHours(n: nat)
    ensures ParseTimeInput(NatToString(n)) == n as real
  {
    DigitRunText(NatToString(n));
    ParseTimeInputClean(NatToString(n));
    ParseNatAlone(n);
  }

  /** The decimal separator of "W.D" or "W,D" becomes a point. */
  lemma ReplaceCommasDecimal(a: string, point: char, ds: string)
    requires point == '.' || point == ','
    requires ',' !in a && ',' !in ds
    ensures ReplaceCommas(a + [point] + ds) == a + "." + ds
  {
  }

  /** "W.D" and "W,D" both read as decimal hours W + D / 10^|D|. */
  lemma ParseTimeInputDecimal(w: nat, point: char, ds: string)
    requires point == '.' || point == ','
    requires AllDigits(ds) && ds != []
    ensures ParseTimeInput(NatToString(w) + [point] + ds) == w as real + FractionValue(ds)
  {
    ParseDecimalOf(NatToString(w) + [point] + ds, w, point, ds);
  }

  lemma ParseDecimalOf(s: string, w: nat, point: char, ds: string)
    requires point == '.' || point == ','
    requires AllDigits(ds) && ds != []
    requires s == NatToString(w) + [point] + ds
    ensures ParseTimeInput(s) == w as real + FractionValue(ds)
  {
    var a := NatToString(w);
    DigitRunText(a);
    DigitRunText(ds);
    assert s[0] == a[0] && s[|s| - 1] == ds[|ds| - 1];
    ParseTimeInputTrimmed(s);
    ReplaceCommasDecimal(a, point, ds);
    DecimalCleaned(a + "." + ds, a, ds);
    NatToStringValue(w);
  }

  lemma DecimalCleaned(c: string, a: string, ds: string)
    requires AllDigits(a) && a != [] && AllDigits(ds)
    requires c == a + "." + ds
    ensures ParseCleaned(c) == DigitsValue(a) as real + FractionValue(ds)
  {
    assert ':' !in c;
    ParseFraction(a, ds);
  }

  /** Text without a colon whose first character cannot begin a number reads as no time. */
  lemma ParseTimeInputNotNumeric(input: string)
    requires ':' !in input
    requires Trim(input) != [] && !MayStartNumber(Trim(input)[0]) && Trim(input)[0] != ','
    ensures ParseTimeInput(input) == 0.0
  {
    var t := Trim(input);
    TrimNoColon(input);
    NotNumericCleaned(t, ReplaceCommas(t));
  }

  /** Trimming adds no colon. */
  lemma TrimNoColon(input: string)
    requires ':' !in input
    ensures ':' !in Trim(input)
  {
    var u := TrimStart(input);
    assert u == input[|input| - |u|..];
    assert Trim(input) == u[..|Trim(input)|];
  }

  lemma NotNumericCleaned(t: string, c: string)
    requires ':' !in t && t != [] && !MayStartNumber(t[0]) && t[0] != ',' && !IsSpace(t[0])
    requires c == ReplaceCommas(t)
    ensures ParseCleaned(c) == 0.0
  {
    assert c[0] == t[0];
    assert ':' !in c;
    TrimStartNonSpace(c);
    ParseFloatNotNumber(c);
  }

  /** "1:30" is an hour and a half. */
  lemma ExampleClock()
    ensures ParseTimeInput("1:30") == 1.5
  {
    assert NatToString(1) == "1" && NatToString(30) == "30";
    assert "1" + ":" + "30" == "1:30";
    ParseTimeInputClock(1, 30);
  }

  /** "1.5" and "1,5" are an hour and a half. */
  lemma ExampleDecimal()
    ensures ParseTimeInput("1.5") == 1.5
    ensures ParseTimeInput("1,5") == 1.5
  {
    assert NatToString(1) == "1";
    assert "1" + ['.'] + "5" == "1.5" && "1" + [','] + "5" == "1,5";
    assert FractionValue("5") == 0.5;
    ParseTimeInputDecimal(1, '.', "5");
    ParseTimeInputDecimal(1, ',', "5");
  }

  /** A trimmed word without a colon that cannot begin a number reads as no time. */
  lemma ParseTimeInputWord(s: string)
    requires s != [] && !IsSpace(s[0]) && !IsSpace(s[|s| - 1]) && ':' !in s
    requires !MayStartNumber(s[0]) && s[0] != ','
    ensures ParseTimeInput(s) == 0.0
  {
    ParseTimeInputTrimmed(s);
    NotNumericCleaned(s, ReplaceCommas(s));
  }

  /** "abc" is no time. */
  lemma ExampleText()
    ensures ParseTimeInput("abc") == 0.0
  {
    ParseTimeInputWord("abc");
  }

  /** "2:" is two hours. */
  lemma ExampleHoursOnly()
    ensures ParseTimeInput("2:") == 2.0
  {
    assert NatToString(2) == "2";
    assert "2" + ":" == "2:";
    ParseTimeInputHoursOnly(2);
  }

  /** "-1" is minus one hour: nothing rejects a negative reading. */
  lemma ExampleNegative()
    ensures ParseTimeInput("-1") == -1.0
  {
    assert NatToString(1) == "1" && "-" + "1" == "-1";
    ParseNegativeNumeral(1);
    assert "-1"[0] == '-' && "-1"[1] == '1';
    ParseTimeInputClean("-1");
  }

  // ---------------------------------------------------------------------------
  // formatHours

  /** `Math.floor(hours)`. */
  function WholeHours(hours: real): (w: int)
    ensures w as real <= hours < w as real + 1.0
  {
    hours.Floor
  }

  /** `Math.round(x)`: the nearest integer, halves rounded up. */
  function Round(x: real): (n: int)
    ensures n as real - 0.5 <= x < n as real + 0.5
  {
    (x + 0.5).Floor
  }

  /** The minutes shown: the part of an hour past the whole hours, in minutes, rounded. */
  function Minutes(hours: real): (m: int)
    ensures 0 <= m <= 60
  {
    Round((hours - WholeHours(hours) as real) * 60.0)
  }

  /** The text for whole hours and minutes: "0ч", "Mм", "Hч" or "Hч Mм", a zero part left out. */
  function RenderDuration(whole: int, minutes: int): string
  {
    if whole == 0 && minutes == 0 then "0ч"
    else if whole == 0 then IntToString(minutes) + "м"
    else if minutes == 0 then IntToString(whole) + "ч"
    else IntToString(whole) + "ч " + IntToString(minutes) + "м"
  }

  /** `formatHours`: whole hours by floor, minutes by rounding. */
  function FormatHours(hours: real): string
  {
    RenderDuration(WholeHours(hours), Minutes(hours))
  }

  /** Reads the decimal digits at the start of `d`: their value and the rest. */
  function ReadNat(d: string): Option<(nat, string)>
  {
    var n := DigitSpan(d);
    if n == 0 then None else Some((DigitsValue(d[..n]), d[n..]))
  }

  /** Reads an optionally negative decimal integer at the start of `s`: its value and the rest. */
  function ReadInt(s: string): Option<(int, string)>
  {
    if s != [] && s[0] == '-' then
      match ReadNat(s[1..])
      case Some((n, rest)) => Some((-(n as int), rest))
      case None => None
    else
      match ReadNat(s)
      case Some((n, rest)) => Some((n as int, rest))
      case None => None
  }

  /** Reads back a duration text, "Hч Mм", "Hч" or "Mм", into its whole hours and minutes. */
  function ReadDuration(s: string): Option<(int, int)>
  {
    match ReadInt(s)
    case None => None
    case Some((n, rest)) =>
      if rest == "ч" then Some((n, 0))
      else if rest == "м" then Some((0, n))
      else if |rest| > 2 && rest[..2] == "ч " then
        match ReadInt(rest[2..])
        case Some((m, tail)) => if tail == "м" then Some((n, m)) else None
        case None => None
      else None
  }

  /** A rendered natural number followed by a non-digit reads back as that number and the rest. */
  lemma ReadNatRendered(n: nat, rest: string)
    requires rest == [] || !IsDigit(rest[0])
    ensures ReadNat(NatToString(n) + rest) == Some((n, rest))
  {
    NumeralPrefix(n, rest);
  }

  /** A rendered integer followed by a non-digit reads back as that integer and the rest. */
  lemma ReadIntRendered(n: int, rest: string)
    requires rest == [] || !IsDigit(rest[0])
    ensures ReadInt(IntToString(n) + rest) == Some((n, rest))
  {
    ReadIntOf(IntToString(n) + rest, n, rest);
  }

  lemma ReadIntOf(s: string, n: int, rest: string)
    requires rest == [] || !IsDigit(rest[0])
    requires s == IntToString(n) + rest
    ensures ReadInt(s) == Some((n, rest))
  {
    if n < 0 {
      ReadNegative(s, -n, rest);
    } else {
      ReadNonNegative(s, n, rest);
    }
  }

  lemma ReadNegative(s: string, k: nat, rest: string)
    requires rest == [] || !IsDigit(rest[0])
    requires s == "-" + NatToString(k) + rest
    ensures ReadInt(s) == Some((-(k as int), rest))
  {
    assert s[0] == '-' && s[1..] == NatToString(k) + rest;
    ReadNatRendered(k, rest);
  }

  lemma ReadNonNegative(s: string, k: nat, rest: string)
    requires rest == [] || !IsDigit(rest[0])
    requires s == NatToString(k) + rest
    ensures ReadInt(s) == Some((k, rest))
  {
    assert s[0] == NatToString(k)[0];
    ReadNatRendered(k, rest);
  }

  /** A text that reads as an integer followed by a tail reads, as a duration, by that tail. */
  lemma ReadDurationOf(s: string, n: int, rest: string)
    requires ReadInt(s) == Some((n, rest))
    ensures rest == "ч" ==> ReadDuration(s) == Some((n, 0))
    ensures rest == "м" ==> ReadDuration(s) == Some((0, n))
  {
  }

  /** "Hч Mм" reads back as (H, M). */
  lemma ReadBothParts(whole: int, minutes: int)
    ensures ReadDuration(IntToString(whole) + ("ч " + (IntToString(minutes) + "м"))) == Some((whole, minutes))
  {
    var tail := IntToString(minutes) + "м";
    var rest := "ч " + tail;
    ReadIntRendered(whole, rest);
    assert rest[..2] == "ч " && rest[2..] == tail;
    ReadIntRendered(minutes, "м");
  }

  /** Every rendered duration reads back as the hours and minutes it was rendered from. */
  lemma ReadRenderedDuration(whole: int, minutes: int)
    ensures ReadDuration(RenderDuration(whole, minutes)) == Some((whole, minutes))
  {
    if whole == 0 && minutes == 0 {
      assert "0ч" == IntToString(0) + "ч";
      ReadIntRendered(0, "ч");
      ReadDurationOf("0ч", 0, "ч");
    } else if whole == 0 {
      ReadIntRendered(minutes, "м");
      ReadDurationOf(IntToString(minutes) + "м", minutes, "м");
    } else if minutes == 0 {
      ReadIntRendered(whole, "ч");
      ReadDurationOf(IntToString(whole) + "ч", whole, "ч");
    } else {
      assert RenderDuration(whole, minutes) == IntToString(whole) + ("ч " + (IntToString(minutes) + "м"));
      ReadBothParts(whole, minutes);
    }
  }

  /** A rendered integer holds neither unit letter. */
  lemma NoUnitInNumber(n: int)
    ensures 'ч' !in IntToString(n) && 'м' !in IntToString(n)
  {
    var d := if n < 0 then NatToString(-n) else NatToString(n);
    assert IntToString(n) == (if n < 0 then "-" else "") + d;
    assert forall k | 0 <= k < |d| :: IsDigit(d[k]);
  }

  /** The minutes part is shown exactly when there are minutes, and the hours part exactly
      when there are whole hours or nothing else to show. */
  lemma RenderDurationParts(whole: int, minutes: int)
    ensures 'м' in RenderDuration(whole, minutes) <==> minutes != 0
    ensures 'ч' in RenderDuration(whole, minutes) <==> whole != 0 || minutes == 0
  {
    NoUnitInNumber(whole);
    NoUnitInNumber(minutes);
    var r := RenderDuration(whole, minutes);
    if whole == 0 && minutes == 0 {
      assert r[1] == 'ч';
    } else if whole == 0 {
      assert r == IntToString(minutes) + "м";
      assert r[|r| - 1] == 'м';
    } else if minutes == 0 {
      assert r == IntToString(whole) + "ч";
      assert r[|r| - 1] == 'ч';
    } else {
      var w, m := IntToString(whole), IntToString(minutes);
      assert r == w + "ч " + m + "м";
      assert r[|w|] == 'ч' && r[|r| - 1] == 'м';
      assert forall k | 0 <= k < |r| :: r[k] in w || r[k] in m || r[k] == 'ч' || r[k] == ' ' || r[k] == 'м';
    }
  }

  /** `formatHours` loses nothing but rounding: its text reads back as floor and rounded minutes,
      and a zero part is left out: "Mм" without whole hours, "Hч" without minutes, "0ч" for neither. */
  lemma FormatHoursReadBack(hours: real)
    ensures ReadDuration(FormatHours(hours)) == Some((WholeHours(hours), Minutes(hours)))
    ensures 'м' in FormatHours(hours) <==> Minutes(hours) != 0
    ensures 'ч' in FormatHours(hours) <==> WholeHours(hours) != 0 || Minutes(hours) == 0
  {
    ReadRenderedDuration(WholeHours(hours), Minutes(hours));
    RenderDurationParts(WholeHours(hours), Minutes(hours));
  }

  /** The hours and minutes shown are within half a minute of the hours given. */
  lemma FormatHoursClose(hours: real)
    ensures var shown := WholeHours(hours) as real + Minutes(hours) as real / 60.0;
      -1.0 / 120.0 < shown - hours <= 1.0 / 120.0
  {
    var f := hours - WholeHours(hours) as real;
    var m := Minutes(hours);
    assert m as real - 0.5 <= f * 60.0 < m as real + 0.5;
  }

  /** "0ч" is shown exactly when both the whole hours and the rounded minutes are zero. */
  lemma FormatHoursZero(hours: real)
    ensures FormatHours(hours) == "0ч" <==> WholeHours(hours) == 0 && Minutes(hours) == 0
  {
    FormatHoursReadBack(hours);
    ReadRenderedDuration(0, 0);
  }

  /** The minutes shown are 60 exactly when the hours are within half a minute below the next hour. */
  lemma MinutesSixty(hours: real)
    ensures Minutes(hours) == 60 <==> hours - WholeHours(hours) as real >= 119.0 / 120.0
  {
  }

  /** `formatHours(1.9999)` shows "1ч 60м" rather than "2ч". */
  lemma FormatHoursSixtyMinutes()
    ensures FormatHours(1.9999) == "1ч 60м"
  {
    assert WholeHours(1.9999) == 1;
    assert Minutes(1.9999) == 60;
    assert IntToString(1) == "1" && IntToString(60) == "60";
  }

  /** `formatHours` of four typical amounts: 0, 1.5, 0.25 and 2 hours. */
  lemma FormatHoursExamples()
    ensures FormatHours(0.0) == "0ч"
    ensures FormatHours(1.5) == "1ч 30м"
    ensures FormatHours(0.25) == "15м"
    ensures FormatHours(2.0) == "2ч"
  {
    assert WholeHours(1.5) == 1 && Minutes(1.5) == 30;
    assert WholeHours(0.25) == 0 && Minutes(0.25) == 15;
    assert WholeHours(2.0) == 2 && Minutes(2.0) == 0;
    assert IntToString(1) == "1" && IntToString(30) == "30" && IntToString(15) == "15" && IntToString(2) == "2";
  }

  /** The whole hours and minutes with a rounded-up 60 minutes carried into the next hour. */
  function CarriedParts(hours: real): (p: (int, int))
    ensures 0 <= p.1 < 60
    ensures -1.0 / 120.0 < p.0 as real + p.1 as real / 60.0 - hours <= 1.0 / 120.0
  {
    FormatHoursClose(hours);
    var w, m := WholeHours(hours), Minutes(hours);
    if m == 60 then (w + 1, 0) else (w, m)
  }

  /** `formatHours` with the minutes carried: never shows 60 minutes. */
  function FormatHoursCarried(hours: real): string
  {
    RenderDuration(CarriedParts(hours).0, CarriedParts(hours).1)
  }

  /** The carried text reads back as hours and fewer than 60 minutes, within half a minute of the hours given. */
  lemma FormatHoursCarriedReadBack(hours: real)
    ensures ReadDuration(FormatHoursCarried(hours)).Some?
    ensures var (w, m) := ReadDuration(FormatHoursCarried(hours)).value;
      && 0 <= m < 60
      && -1.0 / 120.0 < w as real + m as real / 60.0 - hours <= 1.0 / 120.0
  {
    ReadRenderedDuration(CarriedParts(hours).0, CarriedParts(hours).1);
  }

  // ---------------------------------------------------------------------------
  // The day bucket of formatDate

  /** Milliseconds in a day. */
  const MsPerDay: nat := 1000 * 60 * 60 * 24

  /** How a history date is labelled relative to now. */
  datatype DayLabel = Today | Yesterday | DaysAgo(days: nat) | CalendarDate

  /** The label of `date` seen at `now` (both in milliseconds): whole days apart, rounded down. */
  function DayBucket(now: int, date: int): (b: DayLabel)
    ensures b == Today <==> Abs(now - date) < MsPerDay
    ensures b == Yesterday <==> MsPerDay <= Abs(now - date) < 2 * MsPerDay
    ensures b.DaysAgo? <==> 2 * MsPerDay <= Abs(now - date) < 7 * MsPerDay
    ensures b.DaysAgo? ==>
      2 <= b.days < 7 && b.days * MsPerDay <= Abs(now - date) < (b.days + 1) * MsPerDay
    ensures b == CalendarDate <==> 7 * MsPerDay <= Abs(now - date)
  {
    var days := Abs(now - date) / MsPerDay;
    if days == 0 then Today
    else if days == 1 then Yesterday
    else if days < 7 then DaysAgo(days)
    else CalendarDate
  }

  /** The text shown for a label; a calendar date is written by the locale, outside this model. */
  function DayText(b: DayLabel): (r: Option<string>)
    ensures r.None? <==> b == CalendarDate
  {
    match b
    case Today => Some("Сегодня")
    case Yesterday => Some("Вчера")
    case DaysAgo(n) => Some(IntToString(n) + " дн. назад")
    case CalendarDate => None
  }
}
