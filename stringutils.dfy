/**
 * String helpers (`utils/stringutils.py`): the thousands-separated form of an integer
 * (`formatted_number`) and the first version-like run of digits and dots in a text
 * (`extract_version`).
 */
module StringUtils {
  import opened Wrappers
  import opened PyStr

  /** The digits of a non-empty decimal numeral in groups of three from the right; only
      the leftmost group may be shorter. */
  function Groups(d: string): (gs: seq<string>)
    requires |d| > 0
    ensures |gs| >= 1 && 1 <= |gs[0]| <= 3
    ensures forall k :: 1 <= k < |gs| ==> |gs[k]| == 3
    ensures IsDigits(d) ==> forall k :: 0 <= k < |gs| ==> IsDigits(gs[k])
    decreases |d|
  {
    if |d| <= 3 then [d]
    else
      var gs := Groups(d[..|d| - 3]) + [d[|d| - 3..]];
      assert IsDigits(d) ==> IsDigits(d[..|d| - 3]) && IsDigits(d[|d| - 3..]);
      gs
  }

  /** `f"{number:,}"` for an integer: the decimal digits with a comma between every group
      of three counted from the right, after a minus sign for a negative number. */
  function FormattedNumber(n: int): string {
    if n < 0 then "-" + Join(Groups(Decimal(-n)), ',') else Join(Groups(Decimal(n)), ',')
  }

  /** Deleting the commas from the grouped digits gives the digits back. */
  lemma {:induction false} GroupsJoined(d: string)
    requires |d| > 0 && ',' !in d
    ensures RemoveAll(Join(Groups(d), ','), ",") == d
    decreases |d|
  {
    if |d| <= 3 {
      RemoveCharAbsent(d, ',');
    } else {
      var front, last := d[..|d| - 3], d[|d| - 3..];
      assert ',' !in front && ',' !in last;
      var joined := Join(Groups(front), ',');
      assert Join(Groups(d), ',') == joined + [','] + last by {
        JoinAppend(Groups(front), last, ',');
      }
      assert RemoveAll(joined, ",") == front by {
        GroupsJoined(front);
      }
      CommaDropped(joined, front, last);
      assert front + last == d;
    }
  }

  /** Deleting the commas around one more comma-free group. */
  lemma CommaDropped(joined: string, front: string, last: string)
    requires RemoveAll(joined, ",") == front && ',' !in last
    ensures RemoveAll(joined + [','] + last, ",") == front + last
  {
    RemoveCharAppend(joined + [','], last, ',');
    RemoveCharAppend(joined, [','], ',');
    assert RemoveAll([','], [',']) == [];
    RemoveCharAbsent(last, ',');
  }

  /** Removing the commas from `formatted_number(n)` gives `str(n)`. */
  lemma FormattedNumberDigits(n: int)
    ensures RemoveAll(FormattedNumber(n), ",") == IntStr(n)
  {
    var d := Decimal(if n < 0 then -n else n);
    assert ',' !in d by { assert IsDigits(d); }
    GroupsJoined(d);
    if n < 0 {
      RemoveCharAppend("-", Join(Groups(d), ','), ',');
      RemoveCharAbsent("-", ',');
    }
  }

  /** Split at the commas, `formatted_number(n)` of a natural number consists of digit groups:
      the first holds one to three digits and every later one exactly three. */
  lemma FormattedNumberGroups(n: nat)
    ensures var parts := Split(FormattedNumber(n), ',');
      && |parts| >= 1
      && 1 <= |parts[0]| <= 3
      && (forall k :: 1 <= k < |parts| ==> |parts[k]| == 3)
      && (forall k :: 0 <= k < |parts| ==> IsDigits(parts[k]))
  {
    var gs := Groups(Decimal(n));
    assert forall k :: 0 <= k < |gs| ==> ',' !in gs[k];
    SplitOfJoin(gs, ',');
  }

  /** Numbers below one thousand are written without a comma. */
  lemma FormattedNumberSmall(n: int)
    requires -1000 < n < 1000
    ensures FormattedNumber(n) == IntStr(n)
  {
    var m := if n < 0 then -n else n;
    assert |Decimal(m)| <= 3 by { DecimalShort(m); }
  }

  lemma {:induction false} DecimalShort(m: nat)
    requires m < 1000
    ensures |Decimal(m)| <= 3
  {
    if m >= 10 {
      DecimalShort(m / 10);
      if m >= 100 {
        assert |Decimal(m / 10)| <= 2 by { DecimalBelow100(m / 10); }
      } else {
        assert |Decimal(m / 10)| == 1;
      }
    }
  }

  lemma DecimalBelow100(m: nat)
    requires m < 100
    ensures |Decimal(m)| <= 2
  {
  }

  /** `formatted_number(1234567)` is "1,234,567". */
  lemma {:induction false} FormattedNumberExample(n: int)
    requires n == 1234567
    ensures FormattedNumber(n) == "1,234,567"
  {
    var d := Decimal(n);
    ExampleDecimal(n);
    ExampleGroups(d);
    var gs := ["1", "234", "567"];
    assert Join(gs, ',') == "1" + [','] + ("234" + [','] + "567");
  }

  lemma {:induction false} ExampleDecimal(n: nat)
    requires n == 1234567
    ensures Decimal(n) == "1234567"
  {
    var m := n / 1000;
    ExampleTrailingDigits(n);
    ExampleLeadingDigits(m);
    assert "1234" + [DigitChar(5), DigitChar(6), DigitChar(7)] == "1234567";
  }

  lemma {:induction false} ExampleTrailingDigits(n: nat)
    requires n == 1234567
    ensures Decimal(n) == Decimal(n / 1000) + [DigitChar(5), DigitChar(6), DigitChar(7)]
  {
    assert Decimal(n) == Decimal(n / 10) + [DigitChar(7)];
    assert Decimal(n / 10) == Decimal(n / 100) + [DigitChar(6)];
    assert Decimal(n / 100) == Decimal(n / 1000) + [DigitChar(5)];
  }

  lemma {:induction false} ExampleLeadingDigits(m: nat)
    requires m == 1234
    ensures Decimal(m) == "1234"
  {
    assert Decimal(m) == Decimal(m / 10) + [DigitChar(4)];
    assert Decimal(m / 10) == Decimal(m / 100) + [DigitChar(3)];
    assert Decimal(m / 100) == Decimal(m / 1000) + [DigitChar(2)];
    assert Decimal(m / 1000) == [DigitChar(1)];
  }

  lemma {:induction false} ExampleGroups(d: string)
    requires d == "1234567"
    ensures Groups(d) == ["1", "234", "567"]
  {
    assert d[..|d| - 3] == "1234" && d[|d| - 3..] == "567";
    var front := "1234";
    assert front[..|front| - 3] == "1" && front[|front| - 3..] == "234";
    assert Groups(front) == Groups("1") + ["234"];
  }

  /** The characters `[\d.]` matches (ASCII digits and the dot). */
  predicate IsVersionChar(c: char) {
    IsDigit(c) || c == '.'
  }

  /** The length of the leading run of version characters. */
  function RunLength(s: string): (k: nat)
    ensures k <= |s|
    ensures forall i :: 0 <= i < k ==> IsVersionChar(s[i])
    ensures k < |s| ==> !IsVersionChar(s[k])
  {
    if |s| == 0 || !IsVersionChar(s[0]) then 0 else 1 + RunLength(s[1..])
  }

  /** The index of the first version character, if any. */
  function FirstVersionChar(s: string): (r: Option<nat>)
    ensures r.Some? ==> r.value < |s| && IsVersionChar(s[r.value])
    ensures r.Some? ==> forall i :: 0 <= i < r.value ==> !IsVersionChar(s[i])
    ensures r.None? ==> forall i :: 0 <= i < |s| ==> !IsVersionChar(s[i])
  {
    if |s| == 0 then None
    else if IsVersionChar(s[0]) then Some(0)
    else match FirstVersionChar(s[1..])
      case None => None
      case Some(i) => Some(i + 1)
  }

  /** `extract_version`: the text `re.search(r"([\d.]+)", s)` captures, or "--" without
      a match. */
  function ExtractVersion(s: string): (r: string)
    ensures r == "--" || (|r| > 0 && forall i :: 0 <= i < |r| ==> IsVersionChar(r[i]))
  {
    match FirstVersionChar(s)
    case None => "--"
    case Some(i) =>
      var k := RunLength(s[i..]);
      assert s[i..][..k] == s[i..i + k];
      s[i..i + k]
  }

  /** Without a digit or a dot there is no match; with one there is always a match. */
  lemma ExtractVersionNone(s: string)
    ensures ExtractVersion(s) == "--" <==> forall i :: 0 <= i < |s| ==> !IsVersionChar(s[i])
  {
    if ExtractVersion(s) == "--" {
      assert !IsVersionChar('-');
    }
  }

  /** The match is the leftmost run of digits and dots, taken as long as it goes: given the
      run `s[i..j]` with no digit or dot before it and none right after it, that run is
      what `extract_version` returns. */
  lemma ExtractVersionLeftmostRun(s: string, i: nat, j: nat)
    requires i < j <= |s|
    requires forall k :: 0 <= k < i ==> !IsVersionChar(s[k])
    requires forall k :: i <= k < j ==> IsVersionChar(s[k])
    requires j == |s| || !IsVersionChar(s[j])
    ensures ExtractVersion(s) == s[i..j]
  {
    var first := FirstVersionChar(s);
    assert IsVersionChar(s[i]);
    assert first == Some(i);
    var k := RunLength(s[i..]);
    assert j < |s| ==> s[i..][j - i] == s[j];
    assert i + k < |s| ==> s[i..][k] == s[i + k];
    assert i + k == j;
  }

  /** A version number in a product string: "macOS 14.5 (23F79)" gives "14.5". */
  lemma {:induction false} ExtractVersionExample(s: string)
    requires s == "macOS 14.5 (23F79)"
    ensures ExtractVersion(s) == "14.5"
  {
    assert s[6..10] == "14.5";
    ExtractVersionLeftmostRun(s, 6, 10);
  }

  /** A lone dot is a match too: "Mr. X" gives ".". */
  lemma {:induction false} ExtractVersionLoneDot(s: string)
    requires s == "Mr. X"
    ensures ExtractVersion(s) == "."
  {
    assert s[2..3] == ".";
    ExtractVersionLeftmostRun(s, 2, 3);
  }
}
