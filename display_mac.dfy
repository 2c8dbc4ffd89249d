/**
 * Displays on macOS (`display/mac.py`): the JSON of `system_profiler SPDisplaysDataType -json`
 * is walked graphics card by graphics card and driver by driver, and each driver becomes a
 * display entry with its name, identifier, resolutions and refresh rate.  Running the
 * command and `json.loads` are outside the model: the output and the decoder are parameters.
 */
module DisplayMac {
  import opened Wrappers
  import opened PyStr
  import opened Json
  import StringUtils

  /** What `_RES_RE` captures: the width and height digits and the optional rate text. */
  datatype ResMatch = ResMatch(width: string, height: string, hz: Option<string>)

  /** `_parse_res`'s result: `(None, None, None)`, or width, height and the refresh rate.
      The rate is kept as the text `float()` converts; its floating-point value is not
      modelled. */
  datatype Res = NoRes | Res(width: nat, height: nat, hz: Option<string>)

  /** The character classes of `_RES_RE`: `\s`, `\d` and `[\d.]`. */
  datatype CharClass = Space | Digit | DigitOrDot

  predicate InClass(c: char, cls: CharClass) {
    match cls
    case Space => IsSpace(c)
    case Digit => IsDigit(c)
    case DigitOrDot => StringUtils.IsVersionChar(c)
  }

  /** Where a greedy run of `cls` characters starting at `i` ends. */
  function Span(s: string, i: nat, cls: CharClass): (j: nat)
    requires i <= |s|
    ensures i <= j <= |s|
    ensures j < |s| ==> !InClass(s[j], cls)
    decreases |s| - i
  {
    if i < |s| && InClass(s[i], cls) then Span(s, i + 1, cls) else i
  }

  /** Every character `Span` passes over is in the class. */
  lemma {:induction false} SpanRun(s: string, i: nat, cls: CharClass)
    requires i <= |s|
    ensures AllIn(s, i, Span(s, i, cls), cls)
    decreases |s| - i
  {
    if i < |s| && InClass(s[i], cls) {
      SpanRun(s, i + 1, cls);
    }
  }

  /** `[\d.]+`: non-empty digits and dots. */
  predicate IsRateText(s: string) {
    |s| > 0 && forall k :: 0 <= k < |s| ==> StringUtils.IsVersionChar(s[k])
  }

  /** `\s*Hz\s*$` from index `i`, "hz" in any letter case (`re.I`). */
  predicate HzAtEnd(s: string, i: nat)
    requires i <= |s|
  {
    var h := Span(s, i, Space);
    && h + 2 <= |s|
    && (s[h] == 'h' || s[h] == 'H')
    && (s[h + 1] == 'z' || s[h + 1] == 'Z')
    && Span(s, h + 2, Space) == |s|
  }

  /** `(?:\s*@\s*([\d.]+)\s*Hz)?\s*$` from index `i`: `Some(Some(rate))` when the optional
      group matches, `Some(None)` when only whitespace is left, `None` when the pattern
      fails.  A shorter run of digits and dots cannot help, because the character after it
      would be a digit or a dot, which neither `\s` nor `H` matches. */
  function MatchTail(s: string, i: nat): (r: Option<Option<string>>)
    requires i <= |s|
    ensures r.Some? && r.value.Some? ==> IsRateText(r.value.value)
  {
    var at := Span(s, i, Space);
    if at == |s| then Some(None)
    else if s[at] != '@' then None
    else
      var start := Span(s, at + 1, Space);
      var end := Span(s, start, DigitOrDot);
      if end == start || !HzAtEnd(s, end) then None
      else
        SpanRun(s, start, DigitOrDot);
        assert forall k :: 0 <= k < end - start ==> s[start..end][k] == s[start + k];
        Some(Some(s[start..end]))
  }

  /** `_RES_RE.search(text)`: `^\s*(\d+)\s*x\s*(\d+)(?:\s*@\s*([\d.]+)\s*Hz)?\s*$` with
      `re.I`.  Every part of the pattern can match in only one way, so the text is read from
      left to right, each run as long as it goes. */
  function MatchRes(text: string): (r: Option<ResMatch>)
    ensures r.Some? ==> IsDigits(r.value.width) && IsDigits(r.value.height)
  {
    var w0 := Span(text, 0, Space);
    var w1 := Span(text, w0, Digit);
    var x := Span(text, w1, Space);
    if w1 == w0 || x == |text| || (text[x] != 'x' && text[x] != 'X') then None
    else
      SpanRun(text, w0, Digit);
      assert forall k :: 0 <= k < w1 - w0 ==> text[w0..w1][k] == text[w0 + k];
      MatchHeight(text, text[w0..w1], x + 1)
  }

  /** The rest of `_RES_RE` once the width digits and the "x" are read: `\s*(\d+)` from
      index `i`, then the optional rate and the end. */
  function MatchHeight(text: string, width: string, i: nat): (r: Option<ResMatch>)
    requires i <= |text|
    ensures r.Some? ==> r.value.width == width && IsDigits(r.value.height)
  {
    var h0 := Span(text, i, Space);
    var h1 := Span(text, h0, Digit);
    if h1 == h0 then None
    else
      match MatchTail(text, h1)
      case None => None
      case Some(hz) =>
        SpanRun(text, h0, Digit);
        assert forall k :: 0 <= k < h1 - h0 ==> text[h0..h1][k] == text[h0 + k];
        Some(ResMatch(width, text[h0..h1], hz))
  }

  /** Digits and dots that `float()` accepts: at most one dot and at least one digit. */
  predicate IsFloatText(s: string) {
    && (exists i :: 0 <= i < |s| && IsDigit(s[i]))
    && forall i, j :: 0 <= i < j < |s| && s[i] == '.' ==> s[j] != '.'
  }

  /** `float(text)` of a valid rate is zero exactly when every digit is zero. */
  predicate IsZeroRate(s: string) {
    forall i :: 0 <= i < |s| && IsDigit(s[i]) ==> s[i] == '0'
  }

  /** `_parse_res`: anything but a non-empty string gives `(None, None, None)`, and so does
      a string the pattern does not match; a rate `float()` refuses raises `ValueError`. */
  function ParseRes(value: Json): Result<Res, PyError> {
    if !Truthy(value) || !value.JStr? then Ok(NoRes)
    else
      match MatchRes(value.s)
      case None => Ok(NoRes)
      case Some(m) =>
        if m.hz.Some? && !IsFloatText(m.hz.value) then Err(ValueError)
        else Ok(Res(DigitsValue(m.width), DigitsValue(m.height), m.hz))
  }

  /** Only a string the pattern matches gives numbers: anything else is `(None, None, None)`. */
  lemma ParseResNoMatch(value: Json)
    ensures !value.JStr? || MatchRes(value.s).None? ==> ParseRes(value) == Ok(NoRes)
  {
  }

  /** `ValueError` is raised exactly when the pattern matches with a rate `float()` refuses. */
  lemma ParseResError(value: Json)
    ensures ParseRes(value).Err? <==>
              value.JStr? && MatchRes(value.s).Some? && MatchRes(value.s).value.hz.Some?
              && !IsFloatText(MatchRes(value.s).value.hz.value)
    ensures ParseRes(value).Err? ==> ParseRes(value).error == ValueError
  {
    EmptyNoMatch(if value.JStr? then value.s else "");
  }

  /** The empty string does not match. */
  lemma EmptyNoMatch(text: string)
    ensures text == [] ==> MatchRes(text).None?
  {
  }

  /** A match whose rate, if any, is text `float()` accepts gives the matched numbers. */
  lemma ParseResOfMatch(text: string, m: ResMatch)
    requires MatchRes(text) == Some(m)
    requires m.hz.None? || IsFloatText(m.hz.value)
    ensures ParseRes(JStr(text)) == Ok(Res(DigitsValue(m.width), DigitsValue(m.height), m.hz))
  {
    EmptyNoMatch(text);
  }

  /** `_to_int_maybe`: `int(str(value).strip())`, or `None` on `ValueError`. */
  function ToIntMaybe(value: Json): Option<int> {
    ParseInt(Strip(Str(value)))
  }

  /** An integer comes back as itself, a string is parsed like `int()` parses it, and
      `None`, booleans, lists and dicts give `None`. */
  lemma ToIntMaybeCases(value: Json)
    ensures value.JInt? ==> ToIntMaybe(value) == Some(value.i)
    ensures value.JStr? ==> ToIntMaybe(value) == ParseInt(value.s)
    ensures value.JNull? || value.JBool? || value.JArr? || value.JObj? ==> ToIntMaybe(value).None?
  {
    ParseIntStripped(Str(value));
    StrAsInt(value);
  }

  /** `int()` strips its argument itself, so stripping first changes nothing. */
  lemma {:induction false} ParseIntStripped(s: string)
    ensures ParseInt(Strip(s)) == ParseInt(s)
  {
    StripIdempotent(s);
  }

  /** The resolution text the pattern is written for: "W x H", optionally followed by
      " @ <rate>Hz". */
  function ResText(width: nat, height: nat, hz: Option<string>): string {
    Decimal(width) + " x " + Decimal(height) + (if hz.Some? then " @ " + hz.value + "Hz" else "")
  }

  /** Reading "W x H" back gives its width and height and no rate. */
  lemma {:induction false} ParseResPlain(width: nat, height: nat)
    ensures ParseRes(JStr(ResText(width, height, None))) == Ok(Res(width, height, None))
  {
    var a, b := Decimal(width), Decimal(height);
    var text := a + " x " + b + "";
    assert ResText(width, height, None) == text;
    PlainMatch(a, b);
    ParseResOfMatch(text, ResMatch(a, b, None));
  }

  lemma {:induction false} PlainMatch(a: string, b: string)
    requires IsDigits(a) && IsDigits(b)
    ensures MatchRes(a + " x " + b + "") == Some(ResMatch(a, b, None))
  {
    var text := a + " x " + b + "";
    SizeChars(a, b, "");
    assert MatchTail(text, |text|) == Some(None);
    SizeSpans(text, a, b, |text|);
  }

  /** Reading "W x H @ <rate>Hz" back gives its width, height and rate text. */
  lemma {:induction false} ParseResWithRate(width: nat, height: nat, rate: string)
    requires IsFloatText(rate) && IsRateText(rate)
    ensures ParseRes(JStr(ResText(width, height, Some(rate)))) == Ok(Res(width, height, Some(rate)))
  {
    var a, b := Decimal(width), Decimal(height);
    var text := a + " x " + b + (" @ " + rate + "Hz");
    assert ResText(width, height, Some(rate)) == text;
    WithRateMatch(a, b, rate);
    ParseResOfMatch(text, ResMatch(a, b, Some(rate)));
  }

  lemma {:induction false} WithRateMatch(a: string, b: string, rate: string)
    requires IsDigits(a) && IsDigits(b) && IsRateText(rate)
    ensures MatchRes(a + " x " + b + (" @ " + rate + "Hz")) == Some(ResMatch(a, b, Some(rate)))
  {
    var tail := " @ " + rate + "Hz";
    var text := a + " x " + b + tail;
    var n := |a| + 3 + |b|;
    assert tail[0] == ' ';
    SizeChars(a, b, tail);
    RateMatch(a + " x " + b, rate, n);
    SizeSpans(text, a, b, n);
  }

  /** The characters of "W x H" followed by the rest. */
  lemma {:induction false} SizeChars(a: string, b: string, tail: string)
    requires IsDigits(a) && IsDigits(b) && (|tail| == 0 || !IsDigit(tail[0]))
    ensures var text := a + " x " + b + tail; var n := |a|;
      && |text| >= n + 3 + |b|
      && text[..n] == a && text[n] == ' ' && text[n + 1] == 'x' && text[n + 2] == ' '
      && text[n + 3..n + 3 + |b|] == b
      && (n + 3 + |b| < |text| ==> !IsDigit(text[n + 3 + |b|]))
  {
    var text := a + " x " + b + tail;
    assert text == a + (" x " + (b + tail));
    SizeCharsWidth(text, a, " x " + (b + tail));
    SizeCharsHeight(text, |a| + 3, b, tail);
  }

  /** The width digits, then " x ". */
  lemma SizeCharsWidth(text: string, a: string, rest: string)
    requires text == a + rest && |rest| >= 3 && rest[..3] == " x "
    ensures text[..|a|] == a && text[|a|] == ' ' && text[|a| + 1] == 'x' && text[|a| + 2] == ' '
  {
    assert text[|a|..] == rest;
  }

  /** The height digits at index `i`, then something that is not a digit. */
  lemma SizeCharsHeight(text: string, i: nat, b: string, tail: string)
    requires i <= |text| && text[i..] == b + tail && (|tail| == 0 || !IsDigit(tail[0]))
    ensures |text| >= i + |b| && text[i..i + |b|] == b
    ensures i + |b| < |text| ==> !IsDigit(text[i + |b|])
  {
    assert text[i..i + |b|] == (b + tail)[..|b|];
    if i + |b| < |text| {
      assert text[i + |b|] == (b + tail)[|b|] == tail[0];
    }
  }

  /** Where each run of the pattern ends in a text that starts with the width digits `a`,
      " x " and the height digits `b`. */
  lemma {:induction false} SizeSpans(text: string, a: string, b: string, n: nat)
    requires IsDigits(a) && IsDigits(b) && n == |a| + 3 + |b| <= |text|
    requires text[..|a|] == a && text[|a|] == ' ' && text[|a| + 1] == 'x' && text[|a| + 2] == ' '
    requires text[|a| + 3..n] == b
    requires n < |text| ==> !IsDigit(text[n])
    ensures MatchTail(text, n).None? ==> MatchRes(text).None?
    ensures MatchTail(text, n).Some? ==> MatchRes(text) == Some(ResMatch(a, b, MatchTail(text, n).value))
  {
    SizeSpanEnds(text, a, b);
    assert text[0..|a|] == a;
    assert MatchRes(text) == MatchHeight(text, a, |a| + 2);
  }

  lemma {:induction false} SizeSpanEnds(text: string, a: string, b: string)
    requires IsDigits(a) && IsDigits(b) && |text| >= |a| + 3 + |b|
    requires text[..|a|] == a && text[|a|] == ' ' && text[|a| + 1] == 'x' && text[|a| + 2] == ' '
    requires text[|a| + 3..|a| + 3 + |b|] == b
    requires |a| + 3 + |b| < |text| ==> !IsDigit(text[|a| + 3 + |b|])
    ensures var n, m := |a|, |b|;
      && Span(text, 0, Space) == 0 && Span(text, 0, Digit) == n
      && Span(text, n, Space) == n + 1
      && Span(text, n + 2, Space) == n + 3 && Span(text, n + 3, Digit) == n + 3 + m
  {
    var n, m := |a|, |b|;
    assert forall k :: 0 <= k < n ==> a[k] == text[k];
    assert forall k :: n + 3 <= k < n + 3 + m ==> b[k - n - 3] == text[k];
    DigitNotSpace(a[0]);
    SpanAt(text, 0, 0, Space);
    SpanAt(text, 0, n, Digit);
    SpanAt(text, n, n + 1, Space);
    DigitNotSpace(b[0]);
    SpanAt(text, n + 2, n + 3, Space);
    SpanAt(text, n + 3, n + 3 + m, Digit);
  }

  /** " @ <rate>Hz" at the end is read as the rate group. */
  lemma {:induction false} RateMatch(head: string, rate: string, i: nat)
    requires IsRateText(rate) && i == |head|
    ensures MatchTail(head + (" @ " + rate + "Hz"), i) == Some(Some(rate))
  {
    var text := head + (" @ " + rate + "Hz");
    RateChars(head, rate);
    RateSpans(text, |head|, |rate|);
  }

  /** The characters of " @ <rate>Hz" after the head. */
  lemma {:induction false} RateChars(head: string, rate: string)
    ensures var text := head + (" @ " + rate + "Hz"); var n := |head|; var e := n + 3 + |rate|;
      && |text| == e + 2
      && text[n] == ' ' && text[n + 1] == '@' && text[n + 2] == ' '
      && text[n + 3..e] == rate && text[e] == 'H' && text[e + 1] == 'z'
  {
    var text := head + (" @ " + rate + "Hz");
    var n := |head|;
    assert text == head + (" @ " + (rate + "Hz"));
    assert text[n..] == " @ " + (rate + "Hz");
    assert text[n + 3..] == rate + "Hz";
    assert text[n + 3..n + 3 + |rate|] == (rate + "Hz")[..|rate|] == rate;
  }

  /** Where each run of the rate group ends in " @ <rate>Hz" with a rate of `m` characters. */
  lemma {:induction false} RateSpans(text: string, n: nat, m: nat)
    requires |text| == n + 5 + m
    requires text[n] == ' ' && text[n + 1] == '@' && text[n + 2] == ' '
    requires IsRateText(text[n + 3..n + 3 + m])
    requires text[n + 3 + m] == 'H' && text[n + 4 + m] == 'z'
    ensures MatchTail(text, n) == Some(Some(text[n + 3..n + 3 + m]))
  {
    var e := n + 3 + m;
    assert forall k :: n + 3 <= k < e ==> text[n + 3..e][k - n - 3] == text[k];
    SpanAt(text, n, n + 1, Space);
    assert StringUtils.IsVersionChar(text[n + 3]);
    VersionNotSpace(text[n + 3]);
    SpanAt(text, n + 2, n + 3, Space);
    SpanAt(text, n + 3, e, DigitOrDot);
    SpanAt(text, e, e, Space);
    SpanAt(text, e + 2, e + 2, Space);
  }

  /** A run of `cls` characters from `i` to `j`, followed by something else, is what `Span`
      consumes. */
  lemma {:induction false} SpanAt(s: string, i: nat, j: nat, cls: CharClass)
    requires i <= j <= |s|
    requires forall k :: i <= k < j ==> InClass(s[k], cls)
    requires j == |s| || !InClass(s[j], cls)
    ensures Span(s, i, cls) == j
    decreases j - i
  {
    if i < j {
      SpanAt(s, i + 1, j, cls);
    }
  }

  lemma DigitNotSpace(c: char)
    requires IsDigit(c)
    ensures !IsSpace(c)
  {
  }

  lemma VersionNotSpace(c: char)
    requires StringUtils.IsVersionChar(c)
    ensures !IsSpace(c)
  {
  }

  // ---------------------------------------------------------------------------
  // The shape of a text `_RES_RE` accepts

  /** Every character from `i` up to `j` is in `cls`: the piece `t[i..j]` matches `cls*`. */
  predicate AllIn(t: string, i: nat, j: nat, cls: CharClass) {
    i <= j <= |t| && forall k :: i <= k < j ==> InClass(t[k], cls)
  }

  /** Where a text is cut for the optional group `\s*@\s*([\d.]+)\s*Hz`: the "@" is at `at`,
      the rate is `t[start..end]` and "Hz" is at `h`. */
  datatype RateCuts = NoRateCuts | RateCuts(at: nat, start: nat, end: nat, h: nat)

  /** Where a text is cut for `_RES_RE`: the width is `t[w0..w1]`, the "x" is at `x`, the
      height is `t[h0..h1]`, and the optional group starts at `h1`. */
  datatype ResCuts = ResCuts(w0: nat, w1: nat, x: nat, h0: nat, h1: nat, rate: RateCuts)

  /** From `o` on, the pieces between the cuts match `(?:\s*@\s*([\d.]+)\s*Hz)?\s*$`, "Hz" in
      any letter case. */
  predicate RateShape(t: string, o: nat, r: RateCuts) {
    match r
    case NoRateCuts => AllIn(t, o, |t|, Space)
    case RateCuts(at, start, end, h) =>
      && AllIn(t, o, at, Space) && at < |t| && t[at] == '@'
      && AllIn(t, at + 1, start, Space) && start < end && AllIn(t, start, end, DigitOrDot)
      && AllIn(t, end, h, Space) && h + 2 <= |t|
      && (t[h] == 'h' || t[h] == 'H') && (t[h + 1] == 'z' || t[h + 1] == 'Z')
      && AllIn(t, h + 2, |t|, Space)
  }

  /** The pieces between the cuts match `^\s*(\d+)\s*x\s*(\d+)`, "x" in either case, and the
      rest matches the optional rate group and the end. */
  predicate ResShape(t: string, c: ResCuts) {
    && AllIn(t, 0, c.w0, Space) && c.w0 < c.w1 && AllIn(t, c.w0, c.w1, Digit)
    && AllIn(t, c.w1, c.x, Space) && c.x < |t| && (t[c.x] == 'x' || t[c.x] == 'X')
    && AllIn(t, c.x + 1, c.h0, Space) && c.h0 < c.h1 && AllIn(t, c.h0, c.h1, Digit)
    && RateShape(t, c.h1, c.rate)
  }

  /** The three groups the cuts delimit. */
  function CutCaptures(t: string, c: ResCuts): ResMatch
    requires ResShape(t, c)
  {
    ResMatch(t[c.w0..c.w1], t[c.h0..c.h1], if c.rate.NoRateCuts? then None else Some(t[c.rate.start..c.rate.end]))
  }

  /** `_RES_RE` matches a text exactly when the text can be cut into the pattern's pieces,
      and the groups it captures are the pieces the cuts delimit.  Any whitespace, "x" or
      "X", and "Hz" in any case are accepted; anything else is not. */
  lemma MatchResShape(text: string, m: ResMatch)
    ensures MatchRes(text) == Some(m) <==> exists c :: ResShape(text, c) && CutCaptures(text, c) == m
  {
    if MatchRes(text) == Some(m) {
      var c := CutsOfMatch(text);
    }
    if exists c :: ResShape(text, c) && CutCaptures(text, c) == m {
      var c :| ResShape(text, c) && CutCaptures(text, c) == m;
      MatchResOfCuts(text, c);
    }
  }

  /** A text cut into the pattern's pieces matches, capturing the pieces the cuts delimit. */
  lemma MatchResOfCuts(t: string, c: ResCuts)
    requires ResShape(t, c)
    ensures MatchRes(t) == Some(CutCaptures(t, c))
  {
    SpansOfCuts(t, c);
    MatchTailOfCuts(t, c.h1, c.rate);
    MatchResOfSpans(t, c.w0, c.w1, c.x, c.h0, c.h1);
  }

  /** Each greedy run of the pattern stops at the next cut. */
  lemma SpansOfCuts(t: string, c: ResCuts)
    requires ResShape(t, c)
    ensures Span(t, 0, Space) == c.w0 && Span(t, c.w0, Digit) == c.w1 && Span(t, c.w1, Space) == c.x
    ensures Span(t, c.x + 1, Space) == c.h0 && Span(t, c.h0, Digit) == c.h1
  {
    SpacesBeforeDigit(t, 0, c.w0, c.w1);
    DigitsBefore(t, c.w0, c.w1);
    SpacesBefore(t, c.w1, c.x);
    SpacesBeforeDigit(t, c.x + 1, c.h0, c.h1);
    if c.h1 < |t| {
      RateShapeStart(t, c.h1, c.rate);
    }
    DigitsBefore(t, c.h0, c.h1);
  }

  /** A run of whitespace followed by a digit is where `\s*` stops. */
  lemma SpacesBeforeDigit(t: string, i: nat, j: nat, k: nat)
    requires AllIn(t, i, j, Space) && j < k && AllIn(t, j, k, Digit)
    ensures Span(t, i, Space) == j
  {
    assert IsDigit(t[j]);
    DigitNotSpace(t[j]);
    SpanAt(t, i, j, Space);
  }

  /** A run of whitespace followed by anything else is where `\s*` stops. */
  lemma SpacesBefore(t: string, i: nat, j: nat)
    requires AllIn(t, i, j, Space) && j < |t| && !IsSpace(t[j])
    ensures Span(t, i, Space) == j
  {
    SpanAt(t, i, j, Space);
  }

  /** A run of digits followed by a non-digit, or the end, is where `\d+` stops. */
  lemma DigitsBefore(t: string, i: nat, j: nat)
    requires AllIn(t, i, j, Digit) && (j == |t| || !IsDigit(t[j]))
    ensures Span(t, i, Digit) == j
  {
    SpanAt(t, i, j, Digit);
  }

  /** `MatchRes` once all the runs of the size are known. */
  lemma MatchResOfSpans(t: string, w0: nat, w1: nat, x: nat, h0: nat, h1: nat)
    requires w0 == Span(t, 0, Space) && w0 < w1 <= |t| && w1 == Span(t, w0, Digit)
    requires x == Span(t, w1, Space) && x < |t| && (t[x] == 'x' || t[x] == 'X')
    requires h0 == Span(t, x + 1, Space) && h0 < h1 && h1 == Span(t, h0, Digit)
    requires MatchTail(t, h1).Some?
    ensures MatchRes(t) == Some(ResMatch(t[w0..w1], t[h0..h1], MatchTail(t, h1).value))
  {
    MatchHeightAt(t, t[w0..w1], x + 1, h0, h1);
    MatchResAt(t, w0, w1, x);
  }

  /** The optional group and the end start with neither a digit nor a dot. */
  lemma RateShapeStart(t: string, o: nat, r: RateCuts)
    requires RateShape(t, o, r) && o < |t|
    ensures !StringUtils.IsVersionChar(t[o])
  {
  }

  /** The optional group and the end, cut as the shape says, are read as the group's rate
      or as no rate. */
  lemma MatchTailOfCuts(t: string, o: nat, r: RateCuts)
    requires RateShape(t, o, r)
    ensures MatchTail(t, o) == Some(if r.NoRateCuts? then None else Some(t[r.start..r.end]))
  {
    if r.NoRateCuts? {
      SpanAt(t, o, |t|, Space);
    } else {
      SpanAt(t, o, r.at, Space);
      VersionNotSpace(t[r.start]);
      SpanAt(t, r.at + 1, r.start, Space);
      assert !StringUtils.IsVersionChar(t[r.end]);
      SpanAt(t, r.start, r.end, DigitOrDot);
      SpanAt(t, r.end, r.h, Space);
      SpanAt(t, r.h + 2, |t|, Space);
      MatchTailAt(t, o, r.at, r.start, r.end, t[r.start..r.end]);
    }
  }

  /** `MatchRes` once its first three runs are known. */
  lemma MatchResAt(t: string, w0: nat, w1: nat, i: nat)
    requires w0 == Span(t, 0, Space) && w0 <= w1 <= |t| && w1 == Span(t, w0, Digit) && w0 < w1
    requires i == Span(t, w1, Space) && i < |t| && (t[i] == 'x' || t[i] == 'X')
    ensures MatchRes(t) == MatchHeight(t, t[w0..w1], i + 1)
  {
  }

  /** `MatchHeight` once its two runs are known. */
  lemma MatchHeightAt(t: string, width: string, i: nat, h0: nat, h1: nat)
    requires i <= |t| && h0 == Span(t, i, Space) && h0 < h1 && h1 == Span(t, h0, Digit)
    ensures MatchTail(t, h1).None? ==> MatchHeight(t, width, i).None?
    ensures MatchTail(t, h1).Some? ==> MatchHeight(t, width, i) == Some(ResMatch(width, t[h0..h1], MatchTail(t, h1).value))
  {
  }

  /** Where the runs of `\s*@\s*([\d.]+)\s*Hz\s*$` end, when they all match. */
  lemma MatchTailAt(t: string, o: nat, at: nat, start: nat, end: nat, rate: string)
    requires o <= |t| && Span(t, o, Space) == at < |t| && t[at] == '@'
    requires Span(t, at + 1, Space) == start && Span(t, start, DigitOrDot) == end
    requires start < end && HzAtEnd(t, end) && t[start..end] == rate
    ensures MatchTail(t, o) == Some(Some(rate))
  {
  }

  /** The cuts of a text the pattern matches: where each greedy run ends. */
  lemma CutsOfMatch(t: string) returns (c: ResCuts)
    requires MatchRes(t).Some?
    ensures ResShape(t, c) && CutCaptures(t, c) == MatchRes(t).value
  {
    var w0, w1, x := MatchResRuns(t);
    var h0, h1 := MatchHeightRuns(t, t[w0..w1], x + 1);
    c := CutsOfRuns(t, w0, w1, x, h0, h1);
  }

  /** The cuts at the ends of the runs, when the rest of the text matches. */
  lemma CutsOfRuns(t: string, w0: nat, w1: nat, x: nat, h0: nat, h1: nat) returns (c: ResCuts)
    requires w0 == Span(t, 0, Space) && w0 < w1 && w1 == Span(t, w0, Digit) && x == Span(t, w1, Space)
    requires x < |t| && (t[x] == 'x' || t[x] == 'X')
    requires h0 == Span(t, x + 1, Space) && h0 < h1 && h1 == Span(t, h0, Digit) && MatchTail(t, h1).Some?
    ensures ResShape(t, c) && CutCaptures(t, c) == ResMatch(t[w0..w1], t[h0..h1], MatchTail(t, h1).value)
  {
    var r := RateCutsOfMatch(t, h1);
    c := ResCuts(w0, w1, x, h0, h1, r);
    ShapeOfSpans(t, c);
  }

  /** Runs that end where `Span` stops, followed by the optional group, give the shape. */
  lemma ShapeOfSpans(t: string, c: ResCuts)
    requires Span(t, 0, Space) == c.w0 && c.w0 < c.w1 && Span(t, c.w0, Digit) == c.w1
    requires Span(t, c.w1, Space) == c.x && c.x < |t| && (t[c.x] == 'x' || t[c.x] == 'X')
    requires c.x + 1 <= |t| && Span(t, c.x + 1, Space) == c.h0 && c.h0 < c.h1 && Span(t, c.h0, Digit) == c.h1
    requires RateShape(t, c.h1, c.rate)
    ensures ResShape(t, c)
  {
    SpanRun(t, 0, Space);
    SpanRun(t, c.w0, Digit);
    SpanRun(t, c.w1, Space);
    SpanRun(t, c.x + 1, Space);
    SpanRun(t, c.h0, Digit);
  }

  /** The runs `MatchRes` reads when it matches. */
  lemma MatchResRuns(t: string) returns (w0: nat, w1: nat, x: nat)
    requires MatchRes(t).Some?
    ensures w0 == Span(t, 0, Space) && w0 < w1 && w1 == Span(t, w0, Digit) && x == Span(t, w1, Space)
    ensures x < |t| && (t[x] == 'x' || t[x] == 'X')
    ensures MatchRes(t) == MatchHeight(t, t[w0..w1], x + 1)
  {
    w0 := Span(t, 0, Space);
    w1 := Span(t, w0, Digit);
    x := Span(t, w1, Space);
  }

  /** The runs `MatchHeight` reads when it matches. */
  lemma MatchHeightRuns(t: string, width: string, i: nat) returns (h0: nat, h1: nat)
    requires i <= |t| && MatchHeight(t, width, i).Some?
    ensures h0 == Span(t, i, Space) && h0 < h1 && h1 == Span(t, h0, Digit) && MatchTail(t, h1).Some?
    ensures MatchHeight(t, width, i) == Some(ResMatch(width, t[h0..h1], MatchTail(t, h1).value))
  {
    h0 := Span(t, i, Space);
    h1 := Span(t, h0, Digit);
  }

  /** The cuts of the optional group and the end when they match from `o`. */
  lemma RateCutsOfMatch(t: string, o: nat) returns (r: RateCuts)
    requires o <= |t| && MatchTail(t, o).Some?
    ensures RateShape(t, o, r)
    ensures MatchTail(t, o).value == if r.NoRateCuts? then None else Some(t[r.start..r.end])
  {
    var at := Span(t, o, Space);
    SpanRun(t, o, Space);
    if at == |t| {
      r := NoRateCuts;
    } else {
      var start, end, h := MatchTailRuns(t, o, at);
      r := RateCuts(at, start, end, h);
      RateShapeOfSpans(t, o, r);
    }
  }

  /** Runs of the rate group that end where `Span` stops give its shape. */
  lemma RateShapeOfSpans(t: string, o: nat, r: RateCuts)
    requires r.RateCuts? && o <= |t| && Span(t, o, Space) == r.at < |t| && t[r.at] == '@'
    requires Span(t, r.at + 1, Space) == r.start < r.end && r.end == Span(t, r.start, DigitOrDot)
    requires Span(t, r.end, Space) == r.h && r.h + 2 <= |t| && Span(t, r.h + 2, Space) == |t|
    requires (t[r.h] == 'h' || t[r.h] == 'H') && (t[r.h + 1] == 'z' || t[r.h + 1] == 'Z')
    ensures RateShape(t, o, r)
  {
    SpanRun(t, o, Space);
    SpanRun(t, r.at + 1, Space);
    SpanRun(t, r.start, DigitOrDot);
    SpanRun(t, r.end, Space);
    SpanRun(t, r.h + 2, Space);
  }

  /** The runs `MatchTail` reads when the rate group matches. */
  lemma MatchTailRuns(t: string, o: nat, at: nat) returns (start: nat, end: nat, h: nat)
    requires o <= |t| && MatchTail(t, o).Some? && at == Span(t, o, Space) < |t|
    ensures t[at] == '@' && start == Span(t, at + 1, Space) && start < end && end == Span(t, start, DigitOrDot)
    ensures h == Span(t, end, Space) && h + 2 <= |t| && Span(t, h + 2, Space) == |t|
    ensures (t[h] == 'h' || t[h] == 'H') && (t[h + 1] == 'z' || t[h + 1] == 'Z')
    ensures MatchTail(t, o) == Some(Some(t[start..end]))
  {
    start := Span(t, at + 1, Space);
    end := Span(t, start, DigitOrDot);
    h := Span(t, end, Space);
  }

  /** `refresh_rate`: `f"{hz} Hz"` when `_parse_res` found a rate that is not zero, "--"
      otherwise.  The rate is kept as its matched text; how Python prints the float is not
      modelled. */
  datatype Refresh = NoRefresh | RefreshHz(rate: string)

  /** One dict of `_parse_display_output`'s list. */
  datatype DisplayEntry = DisplayEntry(
    name: Json,
    displayId: Option<int>,
    resolutionActual: string,
    resolution: string,
    refreshRate: Refresh)

  /** `f"{w} x {h}"` of `_parse_res`'s width and height. */
  function SizeText(r: Res): string {
    if r.NoRes? then "None x None" else ResText(r.width, r.height, None)
  }

  /** `f"{hz} Hz" if hz else "--"`: a missing rate and a zero rate both give "--". */
  function RefreshOf(r: Res): Refresh {
    if r.Res? && r.hz.Some? && !IsZeroRate(r.hz.value) then RefreshHz(r.hz.value) else NoRefresh
  }

  /** `a or b or c` over the three resolution keys: the first truthy value, else the last. */
  function ResolutionSource(members: seq<(string, Json)>): Json {
    var resolution := GetOr(members, "_spdisplays_resolution", JNull);
    var plain := GetOr(members, "spdisplays_resolution", JNull);
    if Truthy(resolution) then resolution
    else if Truthy(plain) then plain
    else GetOr(members, "_spdisplays_pixels", JNull)
  }

  /** The body of the inner loop for one driver `drv`: `drv.get` fails on anything but a
      dict, and `_parse_res` raises first for the scaled resolution, then for the pixels. */
  function DriverEntry(drv: Json): Result<DisplayEntry, PyError> {
    if !drv.JObj? then Err(AttributeError)
    else
      var m := drv.members;
      var name := GetOr(m, "_name", JNull);
      match (ParseRes(ResolutionSource(m)), ParseRes(GetOr(m, "_spdisplays_pixels", JNull)))
      case (Err(e), _) => Err(e)
      case (_, Err(e)) => Err(e)
      case (Ok(act), Ok(px)) =>
        Ok(DisplayEntry(
          if Truthy(name) then name else JStr("Display"),
          ToIntMaybe(GetOr(m, "_spdisplays_displayID", JNull)),
          SizeText(act),
          SizeText(px),
          RefreshOf(act)))
  }

  /** `gpu.get("spdisplays_ndrvs", []) or []`, iterated. */
  function Drivers(gpu: Json): Result<seq<Json>, PyError> {
    if !gpu.JObj? then Err(AttributeError)
    else
      var drivers := GetOr(gpu.members, "spdisplays_ndrvs", JArr([]));
      Iterate(if Truthy(drivers) then drivers else JArr([]))
  }

  /** The entries one graphics card adds: one per driver, or the first exception. */
  function GpuBlock(gpu: Json): Result<seq<DisplayEntry>, PyError> {
    match Drivers(gpu)
    case Err(e) => Err(e)
    case Ok(drvs) => MapOrRaise(drvs, DriverEntry)
  }

  /** The blocks of the cards, one after the other. */
  function Concat(blocks: seq<seq<DisplayEntry>>): seq<DisplayEntry>
    decreases |blocks|
  {
    if |blocks| == 0 then [] else Concat(blocks[..|blocks| - 1]) + blocks[|blocks| - 1]
  }

  /** What `_parse_display_output(sp_json)` returns or raises. */
  function DisplayEntries(sp: Json): Result<seq<DisplayEntry>, PyError> {
    if !sp.JObj? then Err(AttributeError)
    else
      match Iterate(GetOr(sp.members, "SPDisplaysDataType", JArr([])))
      case Err(e) => Err(e)
      case Ok(gpus) =>
        match MapOrRaise(gpus, GpuBlock)
        case Err(e) => Err(e)
        case Ok(blocks) => Ok(Concat(blocks))
  }

  /** `_parse_display_output`: the outer loop over the graphics cards; the inner loop appends
      `DriverEntry` of each of a card's drivers. */
  method ParseDisplayOutput(sp: Json) returns (r: Result<seq<DisplayEntry>, PyError>)
    ensures r == DisplayEntries(sp)
  {
    if !sp.JObj? {
      return Err(AttributeError);
    }
    var gpus := Iterate(GetOr(sp.members, "SPDisplaysDataType", JArr([])));
    if gpus.Err? {
      return Err(gpus.error);
    }
    var out: seq<DisplayEntry> := [];
    ghost var blocks: seq<seq<DisplayEntry>> := [];
    for g := 0 to |gpus.value|
      invariant MapOrRaise(gpus.value[..g], GpuBlock) == Ok(blocks)
      invariant out == Concat(blocks)
    {
      MapOrRaiseStep(gpus.value, GpuBlock, g);
      var drvs := Drivers(gpus.value[g]);
      if drvs.Err? {
        MapOrRaiseStop(gpus.value, GpuBlock, g + 1);
        return Err(drvs.error);
      }
      var next := AppendEach(drvs.value, DriverEntry, out);
      if next.Err? {
        MapOrRaiseStop(gpus.value, GpuBlock, g + 1);
        return Err(next.error);
      }
      blocks := blocks + [GpuBlock(gpus.value[g]).value];
      out := next.value;
    }
    assert gpus.value[..|gpus.value|] == gpus.value;
    return Ok(out);
  }

  /** A card without a driver list, or with an empty or `null` one, adds no entry. */
  lemma NoDrivers(gpu: Json)
    requires gpu.JObj?
    requires Lookup(gpu.members, "spdisplays_ndrvs").None?
             || !Truthy(Lookup(gpu.members, "spdisplays_ndrvs").value)
    ensures Drivers(gpu) == Ok([])
    ensures GpuBlock(gpu) == Ok([])
  {
  }

  /** A driver dict without any of the keys the loop reads gets every default. */
  lemma DriverEntryDefaults(drv: Json)
    requires drv.JObj?
    requires Lookup(drv.members, "_name").None?
    requires Lookup(drv.members, "_spdisplays_resolution").None?
    requires Lookup(drv.members, "spdisplays_resolution").None?
    requires Lookup(drv.members, "_spdisplays_pixels").None?
    requires Lookup(drv.members, "_spdisplays_displayID").None?
    ensures DriverEntry(drv) == Ok(DisplayEntry(JStr("Display"), None, "None x None", "None x None", NoRefresh))
  {
    var m := drv.members;
    assert ResolutionSource(m) == JNull;
    assert ParseRes(JNull) == Ok(NoRes);
    ToIntMaybeCases(JNull);
    assert ToIntMaybe(GetOr(m, "_spdisplays_displayID", JNull)) == None;
  }

  /** A card's entries are one per driver, in the drivers' order. */
  lemma CardEntriesInOrder(gpu: Json)
    requires GpuBlock(gpu).Ok?
    ensures Drivers(gpu).Ok?
    ensures var drvs := Drivers(gpu).value;
      && |GpuBlock(gpu).value| == |drvs|
      && forall k :: 0 <= k < |drvs| ==> DriverEntry(drvs[k]) == Ok(GpuBlock(gpu).value[k])
  {
    MapOrRaiseInOrder(Drivers(gpu).value, DriverEntry);
  }

  /** The sizes the inspector prints read back through `_parse_res` as the same numbers. */
  lemma SizeTextReadsBack(r: Res)
    ensures r.Res? ==> ParseRes(JStr(SizeText(r))) == Ok(Res(r.width, r.height, None))
    ensures r.NoRes? ==> ParseRes(JStr(SizeText(r))) == Ok(NoRes)
  {
    if r.Res? {
      ParseResPlain(r.width, r.height);
    } else {
      NoneSizeNoMatch(SizeText(r));
    }
  }

  lemma NoneSizeNoMatch(text: string)
    requires text == "None x None"
    ensures MatchRes(text).None?
  {
    assert text[0] == 'N';
    SpanAt(text, 0, 0, Space);
    SpanAt(text, 0, 0, Digit);
  }

  /** A driver that reports "W x H @ <rate>Hz" and native pixels "PW x PH" gets those sizes
      and the rate back, when the rate is not zero. */
  lemma DriverEntryReadsBack(drv: Json, width: nat, height: nat, rate: string, pixelWidth: nat, pixelHeight: nat)
    requires drv.JObj?
    requires Lookup(drv.members, "_spdisplays_resolution") == Some(JStr(ResText(width, height, Some(rate))))
    requires Lookup(drv.members, "_spdisplays_pixels") == Some(JStr(ResText(pixelWidth, pixelHeight, None)))
    requires IsFloatText(rate) && IsRateText(rate) && !IsZeroRate(rate)
    ensures DriverEntry(drv).Ok?
    ensures DriverEntry(drv).value.resolutionActual == ResText(width, height, None)
    ensures DriverEntry(drv).value.resolution == ResText(pixelWidth, pixelHeight, None)
    ensures DriverEntry(drv).value.refreshRate == RefreshHz(rate)
  {
    var actual := ResText(width, height, Some(rate));
    assert |actual| > 0;
    assert ResolutionSource(drv.members) == JStr(actual);
    ParseResWithRate(width, height, rate);
    ParseResPlain(pixelWidth, pixelHeight);
    DriverEntryOfParsed(drv, Res(width, height, Some(rate)), Res(pixelWidth, pixelHeight, None));
  }

  /** Once both resolutions are parsed, the entry holds their texts and the scaled rate. */
  lemma DriverEntryOfParsed(drv: Json, act: Res, px: Res)
    requires drv.JObj?
    requires ParseRes(ResolutionSource(drv.members)) == Ok(act)
    requires ParseRes(GetOr(drv.members, "_spdisplays_pixels", JNull)) == Ok(px)
    ensures DriverEntry(drv).Ok?
    ensures DriverEntry(drv).value.resolutionActual == SizeText(act)
    ensures DriverEntry(drv).value.resolution == SizeText(px)
    ensures DriverEntry(drv).value.refreshRate == RefreshOf(act)
  {
  }

  /** `get_display_info`: `stdout` is the command's output, `None` when it could not run or
      exited with an error; `decode` is `json.loads`, `None` where it raises.  Every exception
      ends in an empty list. */
  method GetDisplayInfo(stdout: Option<string>, decode: string -> Option<Json>) returns (r: seq<DisplayEntry>)
    ensures stdout.None? ==> r == []
    ensures stdout.Some? && decode(Strip(stdout.value)).None? ==> r == []
    ensures stdout.Some? && decode(Strip(stdout.value)).Some? ==>
              var entries := DisplayEntries(decode(Strip(stdout.value)).value);
              r == if entries.Ok? then entries.value else []
  {
    if stdout.None? {
      return [];
    }
    var sp := decode(Strip(stdout.value));
    if sp.None? {
      return [];
    }
    var entries := ParseDisplayOutput(sp.value);
    r := if entries.Ok? then entries.value else [];
  }
}
