/**
 * Decoded JSON values as the Python code sees them after `json.loads`, with the parts of
 * Python's object protocol the inspectors use on them: truthiness, `dict.get`, iteration,
 * and `str()` / `repr()` as f-strings apply them.  JSON numbers with a fraction or an
 * exponent are not represented.
 */
module Json {
  import opened Wrappers
  import opened PyStr

  /** `None`, `bool`, `int`, `str`, `list` and `dict` (its items in insertion order). */
  datatype Json =
    | JNull
    | JBool(b: bool)
    | JInt(i: int)
    | JStr(s: string)
    | JArr(items: seq<Json>)
    | JObj(members: seq<(string, Json)>)

  /** The Python exceptions the inspectors can raise on unexpected JSON shapes. */
  datatype PyError = AttributeError | TypeError | ValueError

  /** A Python loop or list comprehension that applies `f` to each element in order: the
      list of the results, or the exception of the first element that raises. */
  function MapOrRaise<T, U>(xs: seq<T>, f: T -> Result<U, PyError>): Result<seq<U>, PyError>
    decreases |xs|
  {
    if |xs| == 0 then Ok([])
    else
      match MapOrRaise(xs[..|xs| - 1], f)
      case Err(e) => Err(e)
      case Ok(ys) =>
        match f(xs[|xs| - 1])
        case Err(e) => Err(e)
        case Ok(y) => Ok(ys + [y])
  }

  /** The loop itself: appends `f(x)` to `out` for each `x` in turn, and stops with the
      exception of the first element that raises. */
  method AppendEach<T, U>(xs: seq<T>, f: T -> Result<U, PyError>, out: seq<U>) returns (r: Result<seq<U>, PyError>)
    ensures MapOrRaise(xs, f).Err? ==> r == Err(MapOrRaise(xs, f).error)
    ensures MapOrRaise(xs, f).Ok? ==> r == Ok(out + MapOrRaise(xs, f).value)
  {
    var acc := out;
    for i := 0 to |xs|
      invariant MapOrRaise(xs[..i], f).Ok?
      invariant acc == out + MapOrRaise(xs[..i], f).value
    {
      MapOrRaiseStep(xs, f, i);
      var y := f(xs[i]);
      if y.Err? {
        MapOrRaiseStop(xs, f, i + 1);
        return Err(y.error);
      }
      acc := acc + [y.value];
    }
    assert xs[..|xs|] == xs;
    return Ok(acc);
  }

  /** One result per element, in order, exactly when no element raises. */
  lemma {:induction false} MapOrRaiseInOrder<T, U>(xs: seq<T>, f: T -> Result<U, PyError>)
    ensures MapOrRaise(xs, f).Ok? <==> forall k :: 0 <= k < |xs| ==> f(xs[k]).Ok?
    ensures MapOrRaise(xs, f).Ok? ==>
              && |MapOrRaise(xs, f).value| == |xs|
              && forall k :: 0 <= k < |xs| ==> MapOrRaise(xs, f).value[k] == f(xs[k]).value
    decreases |xs|
  {
    if |xs| > 0 {
      var init := xs[..|xs| - 1];
      MapOrRaiseInOrder(init, f);
      assert forall k :: 0 <= k < |init| ==> init[k] == xs[k];
    }
  }

  /** The first element that raises decides the exception. */
  lemma {:induction false} MapOrRaiseFirstError<T, U>(xs: seq<T>, f: T -> Result<U, PyError>, i: nat)
    requires i < |xs| && f(xs[i]).Err?
    requires forall k :: 0 <= k < i ==> f(xs[k]).Ok?
    ensures MapOrRaise(xs, f) == Err(f(xs[i]).error)
    decreases |xs|
  {
    var init := xs[..|xs| - 1];
    if i < |init| {
      assert forall k :: 0 <= k <= i ==> init[k] == xs[k];
      MapOrRaiseFirstError(init, f, i);
    } else {
      MapOrRaiseInOrder(init, f);
      assert forall k :: 0 <= k < |init| ==> init[k] == xs[k];
    }
  }

  /** One more turn of the loop: the prefix of `i + 1` elements from the prefix of `i`. */
  lemma MapOrRaiseStep<T, U>(xs: seq<T>, f: T -> Result<U, PyError>, i: nat)
    requires i < |xs|
    ensures MapOrRaise(xs[..i], f).Err? ==> MapOrRaise(xs[..i + 1], f) == MapOrRaise(xs[..i], f)
    ensures MapOrRaise(xs[..i], f).Ok? && f(xs[i]).Err? ==> MapOrRaise(xs[..i + 1], f) == Err(f(xs[i]).error)
    ensures MapOrRaise(xs[..i], f).Ok? && f(xs[i]).Ok? ==>
              MapOrRaise(xs[..i + 1], f) == Ok(MapOrRaise(xs[..i], f).value + [f(xs[i]).value])
  {
    assert xs[..i + 1][..i] == xs[..i];
  }

  /** Once a prefix raises, the whole loop raises the same exception. */
  lemma {:induction false} MapOrRaiseStop<T, U>(xs: seq<T>, f: T -> Result<U, PyError>, k: nat)
    requires k <= |xs| && MapOrRaise(xs[..k], f).Err?
    ensures MapOrRaise(xs, f) == MapOrRaise(xs[..k], f)
    decreases |xs| - k
  {
    if k == |xs| {
      assert xs[..k] == xs;
    } else {
      var init := xs[..|xs| - 1];
      assert init[..k] == xs[..k];
      MapOrRaiseStop(init, f, k);
    }
  }

  /** Python truthiness: `None`, `False`, `0`, `""`, `[]` and `{}` are false. */
  predicate Truthy(j: Json) {
    match j
    case JNull => false
    case JBool(b) => b
    case JInt(i) => i != 0
    case JStr(s) => |s| > 0
    case JArr(items) => |items| > 0
    case JObj(members) => |members| > 0
  }

  /** The value stored under `key`, if any (the first entry with that key). */
  function Lookup(members: seq<(string, Json)>, key: string): (r: Option<Json>)
    ensures r.None? <==> forall k :: 0 <= k < |members| ==> members[k].0 != key
    ensures r.Some? ==> exists k :: 0 <= k < |members| && members[k] == (key, r.value)
  {
    if |members| == 0 then None
    else if members[0].0 == key then Some(members[0].1)
    else
      var r := Lookup(members[1..], key);
      assert forall k :: 1 <= k < |members| ==> members[k] == members[1..][k - 1];
      r
  }

  /** `d.get(key, default)` on a dict. */
  function GetOr(members: seq<(string, Json)>, key: string, default: Json): (r: Json)
    ensures Lookup(members, key).None? ==> r == default
    ensures Lookup(members, key).Some? ==> r == Lookup(members, key).value
  {
    match Lookup(members, key)
    case None => default
    case Some(v) => v
  }

  /** `obj.get(key, default)` on any value: an `AttributeError` unless `obj` is a dict. */
  function Get(obj: Json, key: string, default: Json): (r: Result<Json, PyError>)
    ensures obj.JObj? ==> r == Ok(GetOr(obj.members, key, default))
    ensures !obj.JObj? ==> r == Err(AttributeError)
  {
    match obj
    case JObj(members) => Ok(GetOr(members, key, default))
    case _ => Err(AttributeError)
  }

  /** `for x in value`: a list gives its elements, a dict its keys, a string its characters;
      anything else is a `TypeError`. */
  function Iterate(j: Json): (r: Result<seq<Json>, PyError>)
    ensures r.Err? <==> j.JNull? || j.JBool? || j.JInt?
    ensures r.Err? ==> r.error == TypeError
    ensures j.JArr? ==> r == Ok(j.items)
    ensures j.JObj? ==> r.Ok? && |r.value| == |j.members|
    ensures j.JObj? ==> forall k :: 0 <= k < |j.members| ==> r.value[k] == JStr(j.members[k].0)
    ensures j.JStr? ==> r.Ok? && |r.value| == |j.s|
    ensures j.JStr? ==> forall k :: 0 <= k < |j.s| ==> r.value[k] == JStr([j.s[k]])
  {
    match j
    case JArr(items) => Ok(items)
    case JObj(members) => Ok(seq(|members|, k requires 0 <= k < |members| => JStr(members[k].0)))
    case JStr(s) => Ok(seq(|s|, k requires 0 <= k < |s| => JStr([s[k]])))
    case _ => Err(TypeError)
  }

  /** The quote `repr` puts around a string: a double quote when the text holds a single
      quote and no double quote, otherwise a single quote. */
  function QuoteFor(s: string): (q: char)
    ensures q == '"' || q == '\''
    ensures q == '"' <==> '\'' in s && '"' !in s
  {
    if '\'' in s && '"' !in s then '"' else '\''
  }

  /** A character `repr` writes as a `\xNN` escape: the ASCII and Latin-1 control
      characters, the no-break space and the soft hyphen. */
  predicate IsHexEscaped(c: char) {
    c as int < 0x20 || 0x7f <= c as int <= 0xa0 || c as int == 0xad
  }

  /** How `repr` writes one character of a string quoted with `quote`. */
  function EscapeChar(c: char, quote: char): (r: string)
    ensures |r| >= 1
    ensures r == [c] <==> c != quote && c != '\\' && !IsHexEscaped(c)
  {
    if c == quote || c == '\\' then ['\\', c]
    else if c == '\t' then "\\t"
    else if c == '\n' then "\\n"
    else if c == '\r' then "\\r"
    else if IsHexEscaped(c) then "\\x" + HexPadded(c as int, 2)
    else [c]
  }

  function Escape(s: string, quote: char): (r: string)
    ensures |r| >= |s|
  {
    if |s| == 0 then "" else EscapeChar(s[0], quote) + Escape(s[1..], quote)
  }

  /** `repr(s)` of a string. */
  function QuoteRepr(s: string): (r: string)
    ensures |r| >= |s| + 2
    ensures r[0] == r[|r| - 1] == QuoteFor(s)
  {
    var q := QuoteFor(s);
    [q] + Escape(s, q) + [q]
  }

  /** `sep.join(parts)`, for any number of parts. */
  function JoinWith(parts: seq<string>, sep: string): string {
    if |parts| == 0 then ""
    else if |parts| == 1 then parts[0]
    else parts[0] + sep + JoinWith(parts[1..], sep)
  }

  /** `repr(value)`. */
  function Repr(j: Json): (r: string)
    ensures |r| > 0
    decreases j
  {
    match j
    case JNull => "None"
    case JBool(b) => if b then "True" else "False"
    case JInt(i) => IntStr(i)
    case JStr(s) => QuoteRepr(s)
    case JArr(items) =>
      "[" + JoinWith(seq(|items|, k requires 0 <= k < |items| => Repr(items[k])), ", ") + "]"
    case JObj(members) =>
      "{" + JoinWith(seq(|members|, k requires 0 <= k < |members| =>
                       QuoteRepr(members[k].0) + ": " + Repr(members[k].1)), ", ") + "}"
  }

  /** `str(value)`, as an f-string placeholder formats it: a string is itself, anything
      else its `repr`. */
  function Str(j: Json): (r: string)
    ensures j.JStr? ==> r == j.s
  {
    if j.JStr? then j.s else Repr(j)
  }

  /** Text that needs no escaping comes back between single quotes. */
  lemma {:induction false} ReprPlainString(s: string)
    requires forall k :: 0 <= k < |s| ==> s[k] != '\'' && s[k] != '\\' && !IsHexEscaped(s[k])
    ensures Repr(JStr(s)) == "'" + s + "'"
  {
    EscapePlain(s, '\'');
  }

  lemma {:induction false} EscapePlain(s: string, quote: char)
    requires forall k :: 0 <= k < |s| ==> s[k] != quote && s[k] != '\\' && !IsHexEscaped(s[k])
    ensures Escape(s, quote) == s
  {
    if |s| > 0 {
      EscapePlain(s[1..], quote);
      assert [s[0]] + s[1..] == s;
    }
  }

  /** `str()` of an integer is its decimal form, and `str()` of `None`, a boolean, a list or a
      dict never reads as an integer. */
  lemma StrAsInt(j: Json)
    ensures j.JInt? ==> ParseInt(Str(j)) == Some(j.i)
    ensures j.JNull? || j.JBool? || j.JArr? || j.JObj? ==> ParseInt(Str(j)) == None
  {
    match j
    case JInt(i) => ParseIntOfIntStr(i);
    case JNull => ParseIntRejects("None", 'N');
    case JBool(b) => if b { ParseIntRejects("True", 'T'); } else { ParseIntRejects("False", 'F'); }
    case JArr(items) => ParseIntRejects(Str(j), '[');
    case JObj(members) => ParseIntRejects(Str(j), '{');
    case JStr(s) =>
  }
}
