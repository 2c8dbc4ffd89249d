/**
 * The Python `str` operations the host inspector relies on, over ASCII text:
 * `isspace`, `isdigit`, `lower`, `upper`, `strip`, `in`, `startswith`,
 * `split(sep)`, `split()`, `replace(old, "")`, `str(int)`, `int(str)` and hexadecimal formatting.
 */
module PyStr {
  import opened Wrappers

  /** `str.isspace()` of one ASCII character: tab, line feed, vertical tab, form feed,
      carriage return, the separators 0x1C-0x1F and space. */
  predicate IsSpace(c: char) {
    9 <= c as int <= 13 || 28 <= c as int <= 32
  }

  predicate IsDigit(c: char) {
    '0' <= c <= '9'
  }

  /** `str.isdigit()`: true for a non-empty string of decimal digits. */
  predicate IsDigits(s: string) {
    |s| > 0 && forall i :: 0 <= i < |s| ==> IsDigit(s[i])
  }

  predicate IsUpperLetter(c: char) {
    'A' <= c <= 'Z'
  }

  predicate IsLowerLetter(c: char) {
    'a' <= c <= 'z'
  }

  function LowerChar(c: char): (d: char)
    ensures !IsUpperLetter(d)
    ensures !IsUpperLetter(c) ==> d == c
  {
    if IsUpperLetter(c) then (c as int + 32) as char else c
  }

  function UpperChar(c: char): (d: char)
    ensures !IsLowerLetter(d)
    ensures !IsLowerLetter(c) ==> d == c
  {
    if IsLowerLetter(c) then (c as int - 32) as char else c
  }

  /** `str.lower()` */
  function Lower(s: string): (r: string)
    ensures |r| == |s|
    ensures forall i :: 0 <= i < |r| ==> !IsUpperLetter(r[i])
  {
    seq(|s|, i requires 0 <= i < |s| => LowerChar(s[i]))
  }

  /** `str.upper()` */
  function Upper(s: string): (r: string)
    ensures |r| == |s|
    ensures forall i :: 0 <= i < |r| ==> !IsLowerLetter(r[i])
  {
    seq(|s|, i requires 0 <= i < |s| => UpperChar(s[i]))
  }

  predicate StartsWith(s: string, prefix: string) {
    |prefix| <= |s| && s[..|prefix|] == prefix
  }

  /** `str.lstrip()`: drops the leading whitespace. */
  function StripStart(s: string): (r: string)
    ensures |r| <= |s| && r == s[|s| - |r|..]
    ensures r == [] || !IsSpace(r[0])
    ensures forall i :: 0 <= i < |s| - |r| ==> IsSpace(s[i])
  {
    if |s| > 0 && IsSpace(s[0]) then StripStart(s[1..]) else s
  }

  /** `str.rstrip()`: drops the trailing whitespace. */
  function StripEnd(s: string): (r: string)
    ensures |r| <= |s| && r == s[..|r|]
    ensures r == [] || !IsSpace(r[|r| - 1])
    ensures forall i :: |r| <= i < |s| ==> IsSpace(s[i])
  {
    if |s| > 0 && IsSpace(s[|s| - 1]) then StripEnd(s[..|s| - 1]) else s
  }

  /** `str.strip()` */
  function Strip(s: string): (r: string)
    ensures |r| <= |s|
    ensures r == [] || (!IsSpace(r[0]) && !IsSpace(r[|r| - 1]))
  {
    StripEnd(StripStart(s))
  }

  /** Stripping twice strips nothing more. */
  lemma StripIdempotent(s: string)
    ensures Strip(Strip(s)) == Strip(s)
  {
    var r := Strip(s);
    if r != [] {
      assert StripStart(r) == r;
      assert StripEnd(r) == r;
    }
  }

  /** `pat` occurs in `s` at index `i`. */
  predicate OccursAt(s: string, pat: string, i: int) {
    0 <= i && i + |pat| <= |s| && s[i..i + |pat|] == pat
  }

  /** `str.find(pat)`: the index of the first occurrence of `pat`, if any. */
  function Find(s: string, pat: string): (r: Option<nat>)
    ensures r.Some? ==> OccursAt(s, pat, r.value)
    ensures r.Some? ==> forall j :: 0 <= j < r.value ==> !OccursAt(s, pat, j)
    ensures r.None? ==> forall j :: !OccursAt(s, pat, j)
  {
    if |s| < |pat| then None
    else if s[..|pat|] == pat then Some(0)
    else
      OccursShift(s, pat);
      match Find(s[1..], pat)
      case None => None
      case Some(k) => Some(k + 1)
  }

  /** An occurrence past the first character is an occurrence in the rest of the string. */
  lemma OccursShift(s: string, pat: string)
    requires |s| > 0
    ensures forall j :: 1 <= j ==> (OccursAt(s, pat, j) <==> OccursAt(s[1..], pat, j - 1))
  {
    forall j | 1 <= j
      ensures OccursAt(s, pat, j) <==> OccursAt(s[1..], pat, j - 1)
    {
      if j + |pat| <= |s| {
        assert s[1..][j - 1..j - 1 + |pat|] == s[j..j + |pat|];
      }
    }
  }

  /** Python's `pat in s` for a substring. */
  predicate Contains(s: string, pat: string) {
    Find(s, pat).Some?
  }

  /** `s.split(pat)[0]`: the text before the first occurrence of `pat`, or all of `s`. */
  function Before(s: string, pat: string): (r: string)
    ensures |r| <= |s| && r == s[..|r|]
    ensures !Contains(s, pat) ==> r == s
  {
    match Find(s, pat)
    case None => s
    case Some(i) => s[..i]
  }

  /** `s.split(sep)[0]` for a one-character separator. */
  function UpTo(s: string, sep: char): (r: string)
    ensures |r| <= |s| && r == s[..|r|]
    ensures sep !in r
    ensures |r| < |s| ==> s[|r|] == sep
    ensures sep in s ==> |r| < |s|
  {
    if |s| == 0 || s[0] == sep then [] else [s[0]] + UpTo(s[1..], sep)
  }

  /** `sep.join(parts)` */
  function Join(parts: seq<string>, sep: char): string
    requires |parts| >= 1
  {
    if |parts| == 1 then parts[0] else parts[0] + [sep] + Join(parts[1..], sep)
  }

  /** `s.split(sep)` for a one-character separator. */
  function Split(s: string, sep: char): (parts: seq<string>)
    ensures |parts| >= 1
    ensures forall k :: 0 <= k < |parts| ==> sep !in parts[k]
    ensures sep !in s ==> parts == [s]
  {
    if |s| == 0 then [""]
    else
      var rest := Split(s[1..], sep);
      if s[0] == sep then [""] + rest
      else
        assert sep !in s ==> s == [s[0]] + s[1..];
        [[s[0]] + rest[0]] + rest[1..]
  }

  /** Joining the pieces of `Split` with the separator gives back the string. */
  lemma {:induction false} SplitJoin(s: string, sep: char)
    ensures Join(Split(s, sep), sep) == s
  {
    if |s| > 0 {
      var rest := Split(s[1..], sep);
      SplitJoin(s[1..], sep);
      if s[0] != sep {
        var parts := Split(s, sep);
        assert parts[0] == [s[0]] + rest[0] && parts[1..] == rest[1..];
        if |rest| > 1 {
          assert Join(rest, sep) == rest[0] + [sep] + Join(rest[1..], sep);
        }
      }
    }
  }

  /** A string holding the separator splits into at least two pieces. */
  lemma SplitAtSeparator(s: string, sep: char)
    requires sep in s
    ensures |Split(s, sep)| >= 2
  {
    SplitJoin(s, sep);
  }

  /** The first two pieces of a split: the text before the first separator, then the text
      between it and the next one (or the end). */
  lemma SplitFirstTwo(s: string, sep: char)
    requires sep in s
    ensures var parts := Split(s, sep);
      && |parts| >= 2
      && parts[0] == UpTo(s, sep)
      && parts[1] == UpTo(s[|UpTo(s, sep)| + 1..], sep)
  {
    SplitAtSeparator(s, sep);
    SplitHead(s, sep);
    SplitRest(s, sep);
    SplitHead(s[|UpTo(s, sep)| + 1..], sep);
  }

  lemma {:induction false} SplitHead(s: string, sep: char)
    ensures Split(s, sep)[0] == UpTo(s, sep)
  {
    if |s| > 0 && s[0] != sep {
      SplitHead(s[1..], sep);
    }
  }

  lemma {:induction false} SplitRest(s: string, sep: char)
    requires sep in s
    ensures Split(s, sep)[1..] == Split(s[|UpTo(s, sep)| + 1..], sep)
  {
    if s[0] != sep {
      assert sep in s[1..] by {
        var i :| 0 <= i < |s| && s[i] == sep;
        assert s[1..][i - 1] == sep;
      }
      SplitRest(s[1..], sep);
      var rest := Split(s[1..], sep);
      assert Split(s, sep) == [[s[0]] + rest[0]] + rest[1..];
      assert |UpTo(s, sep)| == 1 + |UpTo(s[1..], sep)|;
      assert s[|UpTo(s, sep)| + 1..] == s[1..][|UpTo(s[1..], sep)| + 1..];
    }
  }

  /** Splitting `a + [sep] + b`, where `a` and `b` hold no separator, gives `[a, b]`. */
  lemma {:induction false} SplitTwo(a: string, b: string, sep: char)
    requires sep !in a && sep !in b
    ensures Split(a + [sep] + b, sep) == [a, b]
  {
    if |a| == 0 {
      assert a + [sep] + b == [sep] + b;
      assert ([sep] + b)[1..] == b;
    } else {
      SplitTwo(a[1..], b, sep);
      assert (a + [sep] + b)[1..] == a[1..] + [sep] + b;
      assert [a[0]] + a[1..] == a;
    }
  }

  /** Every piece of a split is a strictly shorter part of a string that holds the separator. */
  lemma {:induction false} SplitPiecesShorter(s: string, sep: char)
    ensures forall k :: 0 <= k < |Split(s, sep)| ==> |Split(s, sep)[k]| <= |s|
    ensures sep in s ==> forall k :: 0 <= k < |Split(s, sep)| ==> |Split(s, sep)[k]| < |s|
  {
    if |s| > 0 {
      SplitPiecesShorter(s[1..], sep);
      if s[0] != sep && sep in s {
        assert sep in s[1..] by {
          var i :| 0 <= i < |s| && s[i] == sep;
          assert s[1..][i - 1] == sep;
        }
      }
    }
  }

  /** Joining one more part appends the separator and the part. */
  lemma {:induction false} JoinAppend(parts: seq<string>, last: string, sep: char)
    requires |parts| >= 1
    ensures Join(parts + [last], sep) == Join(parts, sep) + [sep] + last
  {
    if |parts| > 1 {
      JoinAppend(parts[1..], last, sep);
      assert (parts + [last])[1..] == parts[1..] + [last];
    }
  }

  /** Splitting after a separator-free prefix and one separator yields that prefix first. */
  lemma {:induction false} SplitAfterPiece(a: string, s: string, sep: char)
    requires sep !in a
    ensures Split(a + [sep] + s, sep) == [a] + Split(s, sep)
  {
    if |a| == 0 {
      assert a + [sep] + s == [sep] + s;
      assert ([sep] + s)[1..] == s;
    } else {
      SplitAfterPiece(a[1..], s, sep);
      assert (a + [sep] + s)[1..] == a[1..] + [sep] + s;
      assert [a[0]] + a[1..] == a;
    }
  }

  /** `split` undoes `join` when no part holds the separator. */
  lemma {:induction false} SplitOfJoin(parts: seq<string>, sep: char)
    requires |parts| >= 1
    requires forall k :: 0 <= k < |parts| ==> sep !in parts[k]
    ensures Split(Join(parts, sep), sep) == parts
  {
    if |parts| > 1 {
      SplitOfJoin(parts[1..], sep);
      SplitAfterPiece(parts[0], Join(parts[1..], sep), sep);
    }
  }

  /** Length of the leading run of non-whitespace characters. */
  function TokenEnd(s: string): (k: nat)
    ensures k <= |s|
    ensures forall i :: 0 <= i < k ==> !IsSpace(s[i])
    ensures k < |s| ==> IsSpace(s[k])
  {
    if |s| == 0 || IsSpace(s[0]) then 0 else 1 + TokenEnd(s[1..])
  }

  /** `str.split()` with no separator: the maximal runs of non-whitespace characters. */
  function SplitWs(s: string): seq<string>
    decreases |s|
  {
    var t := StripStart(s);
    if t == [] then [] else [t[..TokenEnd(t)]] + SplitWs(t[TokenEnd(t)..])
  }

  /** `s.replace(pat, "")`: deletes the non-overlapping occurrences of `pat`, scanning left to right. */
  function RemoveAll(s: string, pat: string): (r: string)
    requires |pat| > 0
    ensures |r| <= |s|
    decreases |s|
  {
    if |s| < |pat| then s
    else if s[..|pat|] == pat then RemoveAll(s[|pat|..], pat)
    else [s[0]] + RemoveAll(s[1..], pat)
  }

  /** The number of occurrences `RemoveAll` deletes (Python's `s.count(pat)`). */
  function Count(s: string, pat: string): nat
    requires |pat| > 0
    decreases |s|
  {
    if |s| < |pat| then 0
    else if s[..|pat|] == pat then 1 + Count(s[|pat|..], pat)
    else Count(s[1..], pat)
  }

  /** Stripping keeps one contiguous slice of the string, starting after the leading whitespace. */
  lemma StripSlice(s: string, k: nat)
    requires k == |s| - |StripStart(s)|
    ensures k + |Strip(s)| <= |s| && Strip(s) == s[k..k + |Strip(s)|]
  {
    ComposeSlices(s, StripStart(s), Strip(s), k);
  }

  /** A prefix of a suffix is a slice. */
  lemma ComposeSlices(s: string, t: string, r: string, k: nat)
    requires k <= |s| && t == s[k..]
    requires |r| <= |t| && r == t[..|r|]
    ensures k + |r| <= |s| && r == s[k..k + |r|]
  {
  }

  /** A slice of a string holds no occurrence of a pattern the string does not hold. */
  lemma SliceNoOccurrence(s: string, pat: string, i: nat, j: nat)
    requires i <= j <= |s|
    requires !Contains(s, pat)
    ensures !Contains(s[i..j], pat)
  {
    var t := s[i..j];
    forall k | OccursAt(t, pat, k)
      ensures OccursAt(s, pat, i + k)
    {
      assert forall x :: 0 <= x < |pat| ==> pat[x] == t[k + x] == s[i + k + x];
      assert s[i + k..i + k + |pat|] == pat;
    }
  }

  /** Stripping never creates an occurrence of a pattern. */
  lemma StripNoOccurrence(s: string, pat: string)
    requires !Contains(s, pat)
    ensures !Contains(Strip(s), pat)
  {
    var k := |s| - |StripStart(s)|;
    StripSlice(s, k);
    SliceOfNoOccurrence(s, pat, Strip(s), k);
  }

  /** `SliceNoOccurrence` for a slice given by name. */
  lemma SliceOfNoOccurrence(s: string, pat: string, t: string, k: nat)
    requires k + |t| <= |s| && t == s[k..k + |t|]
    requires !Contains(s, pat)
    ensures !Contains(t, pat)
  {
    SliceNoOccurrence(s, pat, k, k + |t|);
  }

  /** The text before the first occurrence of a non-empty pattern does not hold the pattern. */
  lemma BeforeExcludes(s: string, pat: string)
    requires |pat| > 0
    ensures !Contains(Before(s, pat), pat)
  {
    var r := Before(s, pat);
    forall k | OccursAt(r, pat, k)
      ensures OccursAt(s, pat, k) && k < |r|
    {
      assert r[k..k + |pat|] == s[k..k + |pat|];
    }
  }

  /** When the first occurrence of `pat` in `a + pat + b` is the one after `a`, the text
      before it is `a`. */
  lemma BeforeFirst(a: string, pat: string, b: string)
    requires forall j :: 0 <= j < |a| ==> !OccursAt(a + pat + b, pat, j)
    ensures Before(a + pat + b, pat) == a
  {
    var s := a + pat + b;
    assert s[|a|..|a| + |pat|] == pat;
    assert OccursAt(s, pat, |a|);
  }

  /** Where the pattern does not start, `RemoveAll` keeps the first character and moves on. */
  lemma RemoveAllMismatch(s: string, pat: string)
    requires |pat| > 0 && |s| > 0
    requires |s| < |pat| || s[..|pat|] != pat
    ensures RemoveAll(s, pat) == [s[0]] + RemoveAll(s[1..], pat)
  {
  }

  /** Text holding no first character of the pattern is kept as it is. */
  lemma {:induction false} RemoveAllSkip(a: string, s: string, pat: string)
    requires |pat| > 0 && pat[0] !in a
    ensures RemoveAll(a + s, pat) == a + RemoveAll(s, pat)
  {
    if |a| > 0 {
      RemoveAllSkip(a[1..], s, pat);
      var t := a + s;
      assert t[0] == a[0] && t[1..] == a[1..] + s;
      RemoveAllMismatch(t, pat);
      assert [a[0]] + a[1..] == a;
    } else {
      assert a + s == s;
    }
  }

  /** An occurrence at the front is deleted. */
  lemma RemoveAllAt(pat: string, s: string)
    requires |pat| > 0
    ensures RemoveAll(pat + s, pat) == RemoveAll(s, pat)
  {
    assert (pat + s)[..|pat|] == pat;
    assert (pat + s)[|pat|..] == s;
  }

  /** A string without the pattern is returned unchanged and nothing is counted. */
  lemma {:induction false} RemoveAllAbsent(s: string, pat: string)
    requires |pat| > 0 && !Contains(s, pat)
    ensures RemoveAll(s, pat) == s
    ensures Count(s, pat) == 0
  {
    if |s| >= |pat| {
      assert !OccursAt(s, pat, 0);
      SliceNoOccurrence(s, pat, 1, |s|);
      RemoveAllAbsent(s[1..], pat);
    }
  }

  /** A string holding the pattern has at least one occurrence counted. */
  lemma {:induction false} CountPositive(s: string, pat: string)
    requires |pat| > 0 && Contains(s, pat)
    ensures Count(s, pat) > 0
  {
    assert OccursAt(s, pat, Find(s, pat).value);
    if s[..|pat|] != pat {
      CountPositive(s[1..], pat);
    }
  }

  /** Each deleted occurrence shortens the string by the pattern's length. */
  lemma {:induction false} RemoveAllLength(s: string, pat: string)
    requires |pat| > 0
    ensures |RemoveAll(s, pat)| == |s| - |pat| * Count(s, pat)
    decreases |s|
  {
    if |s| >= |pat| {
      if s[..|pat|] == pat {
        var p := |pat|;
        var n := Count(s[p..], pat);
        var m := |RemoveAll(s[p..], pat)|;
        assert m == |s| - p - p * n by {
          RemoveAllLength(s[p..], pat);
        }
        assert |RemoveAll(s, pat)| == m && Count(s, pat) == 1 + n;
        assert p * (1 + n) == p + p * n;
      } else {
        assert |RemoveAll(s[1..], pat)| == |s| - 1 - |pat| * Count(s[1..], pat) by {
          RemoveAllLength(s[1..], pat);
        }
        assert |RemoveAll(s, pat)| == 1 + |RemoveAll(s[1..], pat)|;
        assert Count(s, pat) == Count(s[1..], pat);
      }
    }
  }

  /** A last character that does not occur in the pattern survives the deletion. */
  lemma {:induction false} RemoveAllKeepsLast(s: string, c: char, pat: string)
    requires |pat| > 0 && c !in pat
    ensures RemoveAll(s + [c], pat) == RemoveAll(s, pat) + [c]
    decreases |s|
  {
    var t := s + [c];
    if |t| >= |pat| {
      if t[..|pat|] == pat {
        assert t[|s|] == c;
        assert |pat| <= |s|;
        assert s[..|pat|] == pat;
        assert t[|pat|..] == s[|pat|..] + [c];
        RemoveAllKeepsLast(s[|pat|..], c, pat);
      } else if |s| == 0 {
        assert t[1..] == [];
      } else {
        assert t[1..] == s[1..] + [c];
        RemoveAllKeepsLast(s[1..], c, pat);
        if |s| >= |pat| {
          assert s[..|pat|] == t[..|pat|];
        }
      }
    }
  }

  /** Deleting a single character distributes over concatenation. */
  lemma {:induction false} RemoveCharAppend(a: string, b: string, c: char)
    ensures RemoveAll(a + b, [c]) == RemoveAll(a, [c]) + RemoveAll(b, [c])
  {
    if |a| > 0 {
      RemoveCharAppend(a[1..], b, c);
      assert (a + b)[1..] == a[1..] + b;
      assert (a + b)[..1] == a[..1];
      assert [a[0]] + a[1..] == a;
    } else {
      assert a + b == b;
    }
  }

  /** Deleting a character that does not occur changes nothing. */
  lemma {:induction false} RemoveCharAbsent(s: string, c: char)
    requires c !in s
    ensures RemoveAll(s, [c]) == s
  {
    if |s| > 0 {
      RemoveCharAbsent(s[1..], c);
      assert s[..1] == [s[0]];
    }
  }

  /** The value of a decimal digit. */
  function DigitValue(c: char): nat
    requires IsDigit(c)
  {
    c as int - '0' as int
  }

  function DigitChar(d: nat): (c: char)
    requires d < 10
    ensures IsDigit(c) && DigitValue(c) == d
  {
    ('0' as int + d) as char
  }

  /** The number a string of decimal digits denotes (leading zeros allowed, as in `int("007")`). */
  function DigitsValue(s: string): nat
    requires forall i :: 0 <= i < |s| ==> IsDigit(s[i])
  {
    if |s| == 0 then 0 else 10 * DigitsValue(s[..|s| - 1]) + DigitValue(s[|s| - 1])
  }

  /** `str(n)` for a natural number. */
  function Decimal(n: nat): (s: string)
    ensures IsDigits(s)
    ensures DigitsValue(s) == n
    ensures s[0] != '0' || n == 0
  {
    if n < 10 then [DigitChar(n)]
    else
      var s := Decimal(n / 10) + [DigitChar(n % 10)];
      assert s[..|s| - 1] == Decimal(n / 10);
      s
  }

  /** `str(i)` for an integer. */
  function IntStr(i: int): string {
    if i < 0 then "-" + Decimal(-i) else Decimal(i)
  }

  /** Digits possibly separated by single underscores, as `int()` accepts them: `1_000`. */
  predicate IsIntBody(s: string) {
    && |s| > 0
    && IsDigit(s[0])
    && IsDigit(s[|s| - 1])
    && (forall i :: 0 <= i < |s| ==> IsDigit(s[i]) || s[i] == '_')
    && (forall i :: 0 <= i < |s| - 1 ==> s[i] == '_' ==> s[i + 1] != '_')
  }

  function DropUnderscores(s: string): (r: string)
    requires forall i :: 0 <= i < |s| ==> IsDigit(s[i]) || s[i] == '_'
    ensures forall i :: 0 <= i < |r| ==> IsDigit(r[i])
  {
    if |s| == 0 then []
    else if s[0] == '_' then DropUnderscores(s[1..])
    else [s[0]] + DropUnderscores(s[1..])
  }

  /** Python's `int(s)` on a string: surrounding whitespace ignored, an optional sign,
      then decimal digits with single underscores between them; anything else is
      a `ValueError`, here `None`. */
  function ParseInt(s: string): (r: Option<int>)
    ensures IsDigits(s) ==> r == Some(DigitsValue(s))
  {
    StripDigits(s);
    ParseSigned(Strip(s))
  }

  /** `int()` on text already stripped: an optional sign, then the digits. */
  function ParseSigned(t: string): (r: Option<int>)
    ensures IsDigits(t) ==> r == Some(DigitsValue(t))
  {
    if |t| == 0 then None
    else
      var body := if t[0] == '-' || t[0] == '+' then t[1..] else t;
      if !IsIntBody(body) then None
      else
        DropNoUnderscore(body);
        var v: int := DigitsValue(DropUnderscores(body));
        Some(if t[0] == '-' then -v else v)
  }

  lemma StripDigits(s: string)
    ensures IsDigits(s) ==> Strip(s) == s
  {
    if IsDigits(s) {
      assert StripStart(s) == s;
    }
  }

  lemma {:induction false} DropNoUnderscore(s: string)
    requires forall i :: 0 <= i < |s| ==> IsDigit(s[i]) || s[i] == '_'
    ensures (forall i :: 0 <= i < |s| ==> IsDigit(s[i])) ==> DropUnderscores(s) == s
  {
    if |s| > 0 {
      DropNoUnderscore(s[1..]);
    }
  }

  /** `int(str(i)) == i`: the decimal form of an integer parses back to it. */
  lemma ParseIntOfIntStr(i: int)
    ensures ParseInt(IntStr(i)) == Some(i)
  {
    if i < 0 {
      var d := Decimal(-i);
      assert IntStr(i) == "-" + d;
      NegativeStripped(d, IntStr(i));
      NegativeParsed(d, IntStr(i));
    }
  }

  /** A minus sign followed by digits has no whitespace to strip. */
  lemma NegativeStripped(d: string, s: string)
    requires IsDigits(d) && s == "-" + d
    ensures Strip(s) == s
  {
    assert StripStart(s) == s;
    assert s[|s| - 1] == d[|d| - 1];
    assert StripEnd(s) == s;
  }

  /** A minus sign followed by digits reads as the negated digits. */
  lemma NegativeParsed(d: string, s: string)
    requires IsDigits(d) && s == "-" + d
    ensures ParseSigned(s) == Some(-(DigitsValue(d) as int))
  {
    assert s[0] == '-' && s[1..] == d;
    assert IsIntBody(d);
    assert DropUnderscores(d) == d by { DropNoUnderscore(d); }
  }

  lemma ParseIntOfDecimal(n: nat)
    ensures ParseInt(Decimal(n)) == Some(n)
  {
  }

  /** `str` is one-to-one on integers. */
  lemma IntStrInjective(a: int, b: int)
    requires IntStr(a) == IntStr(b)
    ensures a == b
  {
    ParseIntOfIntStr(a);
    ParseIntOfIntStr(b);
  }

  /** Stripping removes whitespace only: a character that is not whitespace stays. */
  lemma StripKeeps(s: string, c: char)
    requires c in s && !IsSpace(c)
    ensures c in Strip(s)
  {
    var i :| 0 <= i < |s| && s[i] == c;
    var t := StripStart(s);
    assert i >= |s| - |t|;
    assert t[i - (|s| - |t|)] == c;
    var r := StripEnd(t);
    assert i - (|s| - |t|) < |r|;
    assert r[i - (|s| - |t|)] == c;
  }

  /** `int()` refuses any text holding a character other than whitespace, a sign, a digit
      or an underscore, such as a comma. */
  lemma ParseIntRejects(s: string, c: char)
    requires c in s && !IsSpace(c) && !IsDigit(c) && c != '_' && c != '-' && c != '+'
    ensures ParseInt(s) == None
  {
    StripKeeps(s, c);
    var t := Strip(s);
    var j :| 0 <= j < |t| && t[j] == c;
    if j > 0 && (t[0] == '-' || t[0] == '+') {
      assert t[1..][j - 1] == c;
    }
  }

  predicate IsHexDigit(c: char) {
    IsDigit(c) || 'a' <= c <= 'f'
  }

  /** The value of a lowercase hexadecimal digit. */
  function HexDigitValue(c: char): nat
    requires IsHexDigit(c)
  {
    if IsDigit(c) then DigitValue(c) else c as int - 'a' as int + 10
  }

  function HexDigit(d: nat): (c: char)
    requires d < 16
    ensures IsHexDigit(c) && HexDigitValue(c) == d
  {
    if d < 10 then DigitChar(d) else ('a' as int + d - 10) as char
  }

  predicate IsHexDigits(s: string) {
    forall i :: 0 <= i < |s| ==> IsHexDigit(s[i])
  }

  /** `int(s, 16)` for a string of lowercase hexadecimal digits (leading zeros allowed). */
  function HexValue(s: string): nat
    requires IsHexDigits(s)
  {
    if |s| == 0 then 0 else 16 * HexValue(s[..|s| - 1]) + HexDigitValue(s[|s| - 1])
  }

  function Pow16(k: nat): (p: nat)
    ensures p >= 1
  {
    if k == 0 then 1 else 16 * Pow16(k - 1)
  }

  /** `format(n, "x")`: lowercase hexadecimal without leading zeros. */
  function Hex(n: nat): (s: string)
    ensures |s| >= 1
    ensures IsHexDigits(s)
    ensures n > 0 ==> s[0] != '0'
    decreases n
  {
    if n < 16 then [HexDigit(n)] else Hex(n / 16) + [HexDigit(n % 16)]
  }

  /** Reading the hexadecimal text back gives the number. */
  lemma {:induction false} HexValueOfHex(n: nat)
    ensures HexValue(Hex(n)) == n
    decreases n
  {
    if n >= 16 {
      HexValueOfHex(n / 16);
      var s := Hex(n);
      assert s[..|s| - 1] == Hex(n / 16);
    }
  }

  /** A number below 16^k needs at most k hexadecimal digits. */
  lemma {:induction false} HexLength(n: nat, k: nat)
    requires k >= 1 && n < Pow16(k)
    ensures |Hex(n)| <= k
    decreases k
  {
    if n >= 16 {
      HexLength(n / 16, k - 1);
    }
  }

  /** Leading zeros do not change the value. */
  lemma {:induction false} HexValueLeadingZeros(z: string, s: string)
    requires forall i :: 0 <= i < |z| ==> z[i] == '0'
    requires IsHexDigits(s)
    ensures IsHexDigits(z + s) && HexValue(z + s) == HexValue(s)
    decreases |s|
  {
    if |s| == 0 {
      assert z + s == z;
      ZerosValue(z);
    } else {
      var t := z + s;
      assert t[..|t| - 1] == z + s[..|s| - 1];
      HexValueLeadingZeros(z, s[..|s| - 1]);
    }
  }

  lemma {:induction false} ZerosValue(z: string)
    requires forall i :: 0 <= i < |z| ==> z[i] == '0'
    ensures IsHexDigits(z) && HexValue(z) == 0
  {
    if |z| > 0 {
      ZerosValue(z[..|z| - 1]);
    }
  }

  /** `format(n, "0<width>x")`: hexadecimal padded on the left with zeros to at least `width` digits. */
  function HexPadded(n: nat, width: nat): (s: string)
    ensures |s| >= width
    ensures IsHexDigits(s)
  {
    var h := Hex(n);
    if |h| >= width then h else seq(width - |h|, _ => '0') + h
  }

  /** Padded hexadecimal reads back as the number, and has exactly `width` digits when the number fits. */
  lemma HexPaddedReadsBack(n: nat, width: nat)
    ensures HexValue(HexPadded(n, width)) == n
    ensures width >= 1 && n < Pow16(width) ==> |HexPadded(n, width)| == width
  {
    var h := Hex(n);
    HexValueOfHex(n);
    if |h| < width {
      HexValueLeadingZeros(seq(width - |h|, _ => '0'), h);
    }
    if width >= 1 && n < Pow16(width) {
      HexLength(n, width);
    }
  }
}
