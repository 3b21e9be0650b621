/** Coloured text for the terminal: `MakeColour` wraps a string in an SGR (Select Graphic Rendition)
    control sequence, section 8.3.117 of ECMA-48, always with the bold attribute `1`, and resets
    the rendition after it. `to_string` of an `unsigned int` is modelled by `DecimalString`. */
module Ansi {
  import opened Uint32

  datatype Option<T> = None | Some(value: T)

  const ESC: char := '\U{1B}'
  const ANSI_START: string := [ESC, '[']
  const START_COLOUR_PREFIX: string := "1;"
  const START_COLOUR_SUFFIX: string := "m"
  const STOP_COLOUR: string := [ESC, '[', '0', 'm']

  const COLOUR_IGNORE: u32 := 0
  const COLOUR_BLACK: u32 := 30
  const COLOUR_RED: u32 := 31
  const COLOUR_GREEN: u32 := 32
  const COLOUR_YELLOW: u32 := 33
  const COLOUR_BLUE: u32 := 34
  const COLOUR_MAGENTA: u32 := 35
  const COLOUR_CYAN: u32 := 36
  const COLOUR_WHITE: u32 := 37

  predicate IsDigit(c: char) {
    '0' <= c <= '9'
  }

  predicate AllDigits(s: string) {
    forall i :: 0 <= i < |s| ==> IsDigit(s[i])
  }

  function Digit(d: nat): (c: char)
    requires d < 10
    ensures IsDigit(c) && c as int - '0' as int == d
  {
    ('0' as int + d) as char
  }

  /** `to_string(n)`: the decimal digits of `n`, most significant first, without leading zeros. */
  function DecimalString(n: nat): (s: string)
    ensures |s| >= 1 && AllDigits(s)
    ensures s[0] == '0' ==> n == 0
    decreases n
  {
    if n < 10 then [Digit(n)] else DecimalString(n / 10) + [Digit(n % 10)]
  }

  /** The number a string of decimal digits denotes (a reading of `stoul`). */
  function DecimalValue(s: string): nat
    requires AllDigits(s)
  {
    if s == [] then 0 else 10 * DecimalValue(s[..|s| - 1]) + (s[|s| - 1] as int - '0' as int)
  }

  lemma {:induction false} DecimalRoundTrip(n: nat)
    ensures DecimalValue(DecimalString(n)) == n
    decreases n
  {
    if n >= 10 {
      var s := DecimalString(n);
      assert s[..|s| - 1] == DecimalString(n / 10);
      DecimalRoundTrip(n / 10);
    }
  }

  /** The length of the longest prefix of `s` made of decimal digits. */
  function DigitSpan(s: string): (k: nat)
    ensures k <= |s| && AllDigits(s[..k])
    ensures k < |s| ==> !IsDigit(s[k])
  {
    if s == [] || !IsDigit(s[0]) then 0 else 1 + DigitSpan(s[1..])
  }

  lemma {:induction false} DigitSpanOfNumber(d: string, rest: string)
    requires AllDigits(d)
    requires rest != [] && !IsDigit(rest[0])
    ensures DigitSpan(d + rest) == |d|
  {
    if d == [] {
      assert d + rest == rest;
    } else {
      assert (d + rest)[0] == d[0];
      assert (d + rest)[1..] == d[1..] + rest;
      DigitSpanOfNumber(d[1..], rest);
    }
  }

  /** `MakeColour(inputString, foregroundColour, backgroundColour)`: bold foreground, a background
      code `backgroundColour + 10` (in unsigned arithmetic) only when a background is given, the
      text, and the reset sequence. */
  function MakeColour(inputString: string, foregroundColour: u32 := COLOUR_WHITE,
                      backgroundColour: u32 := COLOUR_IGNORE): (out: string)
    ensures |out| >= |ANSI_START| + |START_COLOUR_PREFIX| + |inputString| + |STOP_COLOUR|
    ensures out[..|ANSI_START| + |START_COLOUR_PREFIX|] == ANSI_START + START_COLOUR_PREFIX
    ensures out[|out| - |STOP_COLOUR| - |inputString|..] == inputString + STOP_COLOUR
  {
    ANSI_START + START_COLOUR_PREFIX + DecimalString(foregroundColour)
    + (if backgroundColour != 0 then ";" + DecimalString(WrapAdd(backgroundColour, 10)) else "")
    + START_COLOUR_SUFFIX + inputString + STOP_COLOUR
  }

  /** What a coloured string carries: its text and its two colour codes. */
  datatype Styled = Styled(text: string, foreground: u32, background: u32)

  /** A colour code at the start of `s`: its value and what follows it; `None` without digits
      or when the value does not fit an `unsigned int`. */
  function ReadCode(s: string): Option<(u32, string)>
  {
    var k := DigitSpan(s);
    if k == 0 || DecimalValue(s[..k]) >= WORD then None else Some((DecimalValue(s[..k]), s[k..]))
  }

  /** Reads back a string of the shape `MakeColour` produces; `None` for any other string. */
  function ParseColour(out: string): Option<Styled>
  {
    var head := ANSI_START + START_COLOUR_PREFIX;
    if |out| < |head| + |STOP_COLOUR| || out[..|head|] != head
       || out[|out| - |STOP_COLOUR|..] != STOP_COLOUR then None
    else ParseCodes(out[|head|..|out| - |STOP_COLOUR|])
  }

  /** Reads `fg m text` or `fg ; bg m text`, the part between the two control sequences. */
  function ParseCodes(body: string): Option<Styled>
  {
    match ReadCode(body)
    case None => None
    case Some((fg, after)) =>
      if after == [] then None
      else if after[0] == 'm' then Some(Styled(after[1..], fg, COLOUR_IGNORE))
      else if after[0] == ';' then ParseBackground(fg, after[1..])
      else None
  }

  /** Reads `bg m text` after the foreground code `fg` and its `;`. */
  function ParseBackground(fg: u32, s: string): Option<Styled>
  {
    match ReadCode(s)
    case None => None
    case Some((field, tail)) =>
      if tail == [] || tail[0] != 'm' then None
      else Some(Styled(tail[1..], fg, WrapSub(field, 10)))
  }

  /** The digits of `n` followed by a non-digit are read back as `n`. */
  lemma ReadCodeOfDecimal(n: u32, rest: string)
    requires rest != [] && !IsDigit(rest[0])
    ensures ReadCode(DecimalString(n) + rest) == Some((n, rest))
  {
    var d := DecimalString(n);
    DigitSpanOfNumber(d, rest);
    assert (d + rest)[..|d|] == d;
    assert (d + rest)[|d|..] == rest;
    DecimalRoundTrip(n);
  }

  lemma ParseForegroundOnly(inputString: string, fg: u32)
    ensures ParseCodes(DecimalString(fg) + START_COLOUR_SUFFIX + inputString)
            == Some(Styled(inputString, fg, COLOUR_IGNORE))
  {
    var after := START_COLOUR_SUFFIX + inputString;
    assert DecimalString(fg) + START_COLOUR_SUFFIX + inputString == DecimalString(fg) + after;
    ReadCodeOfDecimal(fg, after);
    assert after[0] == 'm' && after[1..] == inputString;
  }

  lemma ParseBackgroundOf(inputString: string, fg: u32, field: u32)
    ensures ParseBackground(fg, DecimalString(field) + (START_COLOUR_SUFFIX + inputString))
            == Some(Styled(inputString, fg, WrapSub(field, 10)))
  {
    var tail := START_COLOUR_SUFFIX + inputString;
    ReadCodeOfDecimal(field, tail);
    assert tail[0] == 'm' && tail[1..] == inputString;
  }

  lemma ParseCodesAtSemicolon(fg: u32, rest: string)
    ensures ParseCodes(DecimalString(fg) + ([';'] + rest)) == ParseBackground(fg, rest)
  {
    ReadCodeOfDecimal(fg, [';'] + rest);
    assert ([';'] + rest)[1..] == rest;
  }

  lemma ParseWithBackground(inputString: string, fg: u32, field: u32)
    ensures ParseCodes(DecimalString(fg) + ([';'] + (DecimalString(field) + (START_COLOUR_SUFFIX + inputString))))
            == Some(Styled(inputString, fg, WrapSub(field, 10)))
  {
    ParseCodesAtSemicolon(fg, DecimalString(field) + (START_COLOUR_SUFFIX + inputString));
    ParseBackgroundOf(inputString, fg, field);
  }

  /** Every coloured string can be read back: the text and both colour codes are recovered. */
  lemma MakeColourRoundTrip(inputString: string, foregroundColour: u32, backgroundColour: u32)
    ensures ParseColour(MakeColour(inputString, foregroundColour, backgroundColour))
            == Some(Styled(inputString, foregroundColour, backgroundColour))
  {
    var out := MakeColour(inputString, foregroundColour, backgroundColour);
    var head := ANSI_START + START_COLOUR_PREFIX;
    var fg := DecimalString(foregroundColour);
    if backgroundColour == 0 {
      var body := fg + START_COLOUR_SUFFIX + inputString;
      assert out == head + body + STOP_COLOUR;
      assert out[|head|..|out| - |STOP_COLOUR|] == body;
      ParseForegroundOnly(inputString, foregroundColour);
    } else {
      var field := WrapAdd(backgroundColour, 10);
      var body := fg + ([';'] + (DecimalString(field) + (START_COLOUR_SUFFIX + inputString)));
      assert out == head + body + STOP_COLOUR;
      assert out[|head|..|out| - |STOP_COLOUR|] == body;
      ParseWithBackground(inputString, foregroundColour, field);
      WrapSubUndoesAdd(backgroundColour, 10);
    }
  }

  /** Different texts or colours never give the same coloured string. */
  lemma MakeColourInjective(s1: string, fg1: u32, bg1: u32, s2: string, fg2: u32, bg2: u32)
    requires MakeColour(s1, fg1, bg1) == MakeColour(s2, fg2, bg2)
    ensures s1 == s2 && fg1 == fg2 && bg1 == bg2
  {
    MakeColourRoundTrip(s1, fg1, bg1);
    MakeColourRoundTrip(s2, fg2, bg2);
  }
}
