/**
 * Processor name cleaning (`cpu/utils.py`): trademark markers are deleted, the
 * clock-speed tail starting at "CPU @" is cut off and the rest is trimmed.
 */
module CpuUtils {
  import opened PyStr

  const Registered := "(R)"
  const Trademark := "(TM)"
  const ClockMarker := "CPU @"

  /** `clean_name`: delete every "(R)", then every "(TM)", keep what precedes the first
      "CPU @" and strip the surrounding whitespace. */
  function CleanName(name: string): (r: string)
    ensures |r| <= |name|
    ensures r == [] || (!IsSpace(r[0]) && !IsSpace(r[|r| - 1]))
    ensures !Contains(r, ClockMarker)
  {
    var unmarked := RemoveAll(RemoveAll(name, Registered), Trademark);
    var cut := Before(unmarked, ClockMarker);
    BeforeExcludes(unmarked, ClockMarker);
    StripNoOccurrence(cut, ClockMarker);
    Strip(cut)
  }

  /** A name with no parenthesis and no "CPU @" is only trimmed. */
  lemma {:induction false} CleanNamePlain(name: string)
    requires '(' !in name && !Contains(name, ClockMarker)
    ensures CleanName(name) == Strip(name)
  {
    RemoveAllSkip(name, "", Registered);
    assert name + "" == name;
    RemoveAllSkip(name, "", Trademark);
  }

  /** Whatever follows the first "CPU @" never reaches the result. */
  lemma {:induction false} CleanNameDropsClock(head: string, tail: string)
    requires '(' !in head && '(' !in tail
    requires forall j :: 0 <= j < |head| ==> !OccursAt(head + ClockMarker + tail, ClockMarker, j)
    ensures CleanName(head + ClockMarker + tail) == Strip(head)
  {
    var name := head + ClockMarker + tail;
    assert '(' !in name;
    RemoveAllSkip(name, "", Registered);
    assert name + "" == name;
    RemoveAllSkip(name, "", Trademark);
    BeforeFirst(head, ClockMarker, tail);
  }

  /** The documented example: "Intel(R) Core(TM) i7-8700 CPU @ 3.20GHz" becomes
      "Intel Core i7-8700". */
  lemma CleanNameExample(name: string)
    requires name == "Intel(R) Core(TM) i7-8700 CPU @ 3.20GHz"
    ensures CleanName(name) == "Intel Core i7-8700"
  {
    var head, tail := "Intel Core i7-8700 ", " 3.20GHz";
    ExampleName(name);
    ExampleUnmarked(head, tail);
    MarkersRemoved("Intel", " Core", " i7-8700 CPU @ 3.20GHz");
    ExampleCut(head, tail);
    ExampleStrip(head);
  }

  lemma ExampleName(name: string)
    requires name == "Intel(R) Core(TM) i7-8700 CPU @ 3.20GHz"
    ensures name == "Intel" + (Registered + (" Core" + (Trademark + " i7-8700 CPU @ 3.20GHz")))
  {
  }

  lemma ExampleUnmarked(head: string, tail: string)
    requires head == "Intel Core i7-8700 " && tail == " 3.20GHz"
    ensures "Intel" + (" Core" + " i7-8700 CPU @ 3.20GHz") == head + ClockMarker + tail
  {
  }

  lemma ExampleStrip(head: string)
    requires head == "Intel Core i7-8700 "
    ensures Strip(head) == "Intel Core i7-8700"
  {
    assert StripStart(head) == head;
    assert StripEnd(head[..|head| - 1]) == head[..|head| - 1];
  }

  /** One "(R)" and one "(TM)" between parenthesis-free texts are both deleted. */
  lemma {:induction false} MarkersRemoved(a: string, b: string, c: string)
    requires '(' !in a && '(' !in b && '(' !in c
    ensures RemoveAll(RemoveAll(a + (Registered + (b + (Trademark + c))), Registered), Trademark) == a + (b + c)
  {
    RegisteredRemoved(a, b, c);
    assert '(' !in a + b;
    TrademarkRemoved(a + b, c);
    assert (a + b) + c == a + (b + c);
  }

  /** Deleting "(R)" leaves a following "(TM)" in place. */
  lemma {:induction false} RegisteredRemoved(a: string, b: string, c: string)
    requires '(' !in a && '(' !in b && '(' !in c
    ensures RemoveAll(a + (Registered + (b + (Trademark + c))), Registered) == (a + b) + (Trademark + c)
  {
    var rest := Trademark + c;
    assert rest[..|Registered|] != Registered by { assert rest[1] == 'T'; }
    RemoveAllSkip(rest[1..], "", Registered);
    assert rest[1..] + "" == rest[1..];
    RemoveAllMismatch(rest, Registered);
    assert [rest[0]] + rest[1..] == rest;
    RemoveAllSkip(b, rest, Registered);
    RemoveAllAt(Registered, b + rest);
    RemoveAllSkip(a, Registered + (b + rest), Registered);
    assert a + (b + rest) == (a + b) + rest;
  }

  lemma {:induction false} TrademarkRemoved(x: string, c: string)
    requires '(' !in x && '(' !in c
    ensures RemoveAll(x + (Trademark + c), Trademark) == x + c
  {
    RemoveAllSkip(c, "", Trademark);
    assert c + "" == c;
    RemoveAllAt(Trademark, c);
    RemoveAllSkip(x, Trademark + c, Trademark);
  }

  lemma ExampleCut(head: string, tail: string)
    requires head == "Intel Core i7-8700 " && tail == " 3.20GHz"
    ensures Before(head + ClockMarker + tail, ClockMarker) == head
  {
    var s := head + ClockMarker + tail;
    assert forall i :: 0 <= i < |head| ==> s[i] == head[i];
    forall j | 0 <= j < |head|
      ensures !OccursAt(s, ClockMarker, j)
    {
      var w := s[j..j + |ClockMarker|];
      if j == 6 {
        assert w[1] == head[7] == 'o';
      } else {
        assert w[0] == head[j] != 'C';
      }
    }
    BeforeFirst(head, ClockMarker, tail);
  }
}
