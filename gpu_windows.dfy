/**
 * Graphics adapters on Windows (`gpu/windows.py`): the JSON that PowerShell prints for
 * `Win32_VideoController` is decoded into controller records, and each record becomes a
 * four-field adapter summary.  Running PowerShell and `json.loads` are outside the model:
 * the command's output and the decoder are parameters.
 */
module GpuWindows {
  import opened Wrappers
  import opened PyStr
  import opened Json
  import GpuUtils

  /** `_get_vram`'s outcome: "--", or the size in GiB that `bytes_to_gib` derives from a byte
      count (the floating-point rounding and formatting are not modelled). */
  datatype Vram = NoVram | GiB(bytes: int)

  /** The dict `_build_adapter_info` returns. */
  datatype AdapterInfo = AdapterInfo(model: string, vram: Vram, resolution: string, refreshRate: string)

  /** `_parse_controllers`: no output, empty output or undecodable output gives no
      controllers; a decoded list is the list of controllers; any other decoded value is
      the only controller. */
  function ParseControllers(output: Option<string>, decode: string -> Option<Json>): (cs: seq<Json>)
    ensures output.None? || output == Some("") ==> cs == []
    ensures output.Some? && output.value != "" && decode(output.value).None? ==> cs == []
    ensures output.Some? && output.value != "" && decode(output.value).Some? ==>
      var data := decode(output.value).value;
      && (data.JArr? ==> cs == data.items)
      && (!data.JArr? ==> cs == [data])
  {
    if output.None? || output.value == "" then []
    else
      match decode(output.value)
      case None => []
      case Some(data) => if data.JArr? then data.items else [data]
  }

  /** `_get_model`: the cleaned `Name` when it is truthy, else "--"; a truthy `Name` that is
      not a string has no `replace` and raises. */
  function Model(controller: Json): (r: Result<string, PyError>)
    ensures !controller.JObj? ==> r == Err(AttributeError)
    ensures controller.JObj? ==>
      var name := Lookup(controller.members, "Name");
      && (name.None? || !Truthy(name.value) ==> r == Ok("--"))
      && (name.Some? && name.value.JStr? && Truthy(name.value) ==> r == Ok(GpuUtils.CleanName(name.value.s)))
      && (name.Some? && !name.value.JStr? && Truthy(name.value) ==> r == Err(AttributeError))
  {
    var name :- Get(controller, "Name", JNull);
    if !Truthy(name) then Ok("--")
    else if name.JStr? then Ok(GpuUtils.CleanName(name.s))
    else Err(AttributeError)
  }

  /** `int(value)` as `_get_vram` applies it: an integer is itself, `True` is 1, a string is
      parsed, anything else fails (the failure is caught). */
  function IntOf(j: Json): (r: Option<int>)
    ensures j.JInt? ==> r == Some(j.i)
    ensures j.JStr? ==> r == ParseInt(j.s)
    ensures j.JArr? || j.JObj? || j.JNull? ==> r.None?
  {
    match j
    case JInt(i) => Some(i)
    case JBool(b) => Some(if b then 1 else 0)
    case JStr(s) => ParseInt(s)
    case _ => None
  }

  /** `_get_vram`: "--" when `AdapterRAM` is missing, falsy or not convertible to an integer. */
  function VramOf(controller: Json): (r: Result<Vram, PyError>)
    ensures !controller.JObj? ==> r == Err(AttributeError)
    ensures controller.JObj? ==>
      var ram := Lookup(controller.members, "AdapterRAM");
      && r.Ok?
      && (ram.None? || !Truthy(ram.value) ==> r.value == NoVram)
      && (ram.Some? && Truthy(ram.value) ==>
            r.value == (if IntOf(ram.value).Some? then GiB(IntOf(ram.value).value) else NoVram))
  {
    var ram :- Get(controller, "AdapterRAM", JNull);
    if Truthy(ram) && IntOf(ram).Some? then Ok(GiB(IntOf(ram).value)) else Ok(NoVram)
  }

  /** `_get_resolution`: "H x V" when both resolutions are truthy, else "--". */
  function Resolution(controller: Json): (r: Result<string, PyError>)
    ensures !controller.JObj? ==> r == Err(AttributeError)
    ensures controller.JObj? ==>
      var h := Get(controller, "CurrentHorizontalResolution", JNull).value;
      var v := Get(controller, "CurrentVerticalResolution", JNull).value;
      r == Ok(if Truthy(h) && Truthy(v) then Str(h) + " x " + Str(v) else "--")
  {
    match controller
    case JObj(members) =>
      var h := GetOr(members, "CurrentHorizontalResolution", JNull);
      var v := GetOr(members, "CurrentVerticalResolution", JNull);
      if Truthy(h) && Truthy(v) then Ok(Str(h) + " x " + Str(v)) else Ok("--")
    case _ => Err(AttributeError)
  }

  /** `_get_refresh_rate`: "<rate> Hz" when the rate is truthy, else "--". */
  function RefreshRate(controller: Json): (r: Result<string, PyError>)
    ensures !controller.JObj? ==> r == Err(AttributeError)
    ensures controller.JObj? ==>
      var rate := Get(controller, "CurrentRefreshRate", JNull).value;
      r == Ok(if Truthy(rate) then Str(rate) + " Hz" else "--")
  {
    var rate :- Get(controller, "CurrentRefreshRate", JNull);
    if Truthy(rate) then Ok(Str(rate) + " Hz") else Ok("--")
  }

  /** `_build_adapter_info`: the four fields, evaluated in order.  The model is computed
      first, and the other three fail only on a non-dict controller, where the model has
      already failed; so the record fails exactly when the model does. */
  function AdapterInfoOf(controller: Json): (r: Result<AdapterInfo, PyError>)
    ensures r.Ok? <==> Model(controller).Ok?
    ensures r.Err? ==> r.error == Model(controller).error
    ensures r.Ok? ==>
      && VramOf(controller).Ok? && Resolution(controller).Ok? && RefreshRate(controller).Ok?
      && r.value == AdapterInfo(Model(controller).value, VramOf(controller).value,
                                Resolution(controller).value, RefreshRate(controller).value)
  {
    var model :- Model(controller);
    Ok(AdapterInfo(model, VramOf(controller).value, Resolution(controller).value, RefreshRate(controller).value))
  }

  /** The list comprehension in `get_gpu_info`: one adapter record per controller, or the
      first controller's exception. */
  function AdapterInfos(controllers: seq<Json>): Result<seq<AdapterInfo>, PyError> {
    MapOrRaise(controllers, AdapterInfoOf)
  }

  /** `get_gpu_info` over the command's output. */
  function GpuInfo(output: Option<string>, decode: string -> Option<Json>): Result<seq<AdapterInfo>, PyError> {
    AdapterInfos(ParseControllers(output, decode))
  }

  /** The records are in controller order, one per controller; the call fails exactly when
      some controller fails. */
  lemma AdapterInfosInOrder(controllers: seq<Json>)
    ensures var r := AdapterInfos(controllers);
      && (r.Ok? <==> forall k :: 0 <= k < |controllers| ==> AdapterInfoOf(controllers[k]).Ok?)
      && (r.Ok? ==> |r.value| == |controllers|
                    && forall k :: 0 <= k < |controllers| ==> r.value[k] == AdapterInfoOf(controllers[k]).value)
  {
    MapOrRaiseInOrder(controllers, AdapterInfoOf);
  }

  /** The first failing controller decides the error. */
  lemma AdapterInfosFirstError(controllers: seq<Json>, i: nat)
    requires i < |controllers| && AdapterInfoOf(controllers[i]).Err?
    requires forall k :: 0 <= k < i ==> AdapterInfoOf(controllers[k]).Ok?
    ensures AdapterInfos(controllers) == Err(AdapterInfoOf(controllers[i]).error)
  {
    MapOrRaiseFirstError(controllers, AdapterInfoOf, i);
  }

  /** Dict controllers always succeed when their `Name` is missing, falsy or a string. */
  lemma AdapterInfoOfDict(controller: Json)
    requires controller.JObj?
    requires var name := Lookup(controller.members, "Name");
      name.None? || !Truthy(name.value) || name.value.JStr?
    ensures AdapterInfoOf(controller).Ok?
  {
  }

  /** Without usable output there are no adapters. */
  lemma GpuInfoEmpty(output: Option<string>, decode: string -> Option<Json>)
    requires output.None? || output == Some("") || decode(output.value).None?
    ensures GpuInfo(output, decode) == Ok([])
  {
  }

  /** A single decoded controller object gives a single record. */
  lemma GpuInfoSingle(output: string, decode: string -> Option<Json>)
    requires output != "" && decode(output).Some? && decode(output).value.JObj?
    requires AdapterInfoOf(decode(output).value).Ok?
    ensures GpuInfo(Some(output), decode) == Ok([AdapterInfoOf(decode(output).value).value])
  {
    var c := decode(output).value;
    assert ParseControllers(Some(output), decode) == [c];
    AdapterInfosInOrder([c]);
    var r := AdapterInfos([c]);
    assert r.Ok? && r.value == [AdapterInfoOf(c).value];
  }

  /** The resolution string reads back as the two integers it was built from. */
  lemma ResolutionReadsBack(controller: Json, h: int, v: int)
    requires controller.JObj?
    requires Lookup(controller.members, "CurrentHorizontalResolution") == Some(JInt(h))
    requires Lookup(controller.members, "CurrentVerticalResolution") == Some(JInt(v))
    requires h != 0 && v != 0
    ensures var parts := Split(Resolution(controller).value, ' ');
      && |parts| == 3 && parts[1] == "x"
      && ParseInt(parts[0]) == Some(h) && ParseInt(parts[2]) == Some(v)
  {
    assert Resolution(controller).value == IntStr(h) + " x " + IntStr(v);
    ResolutionTextReadsBack(Resolution(controller).value, h, v);
  }

  /** "<h> x <v>" splits at its spaces into the two integers around an "x". */
  lemma ResolutionTextReadsBack(s: string, h: int, v: int)
    requires s == IntStr(h) + " x " + IntStr(v)
    ensures var parts := Split(s, ' ');
      && |parts| == 3 && parts[1] == "x"
      && ParseInt(parts[0]) == Some(h) && ParseInt(parts[2]) == Some(v)
  {
    NoSpaceInIntStr(h);
    NoSpaceInIntStr(v);
    SplitAroundX(IntStr(h), IntStr(v));
    ParseIntOfIntStr(h);
    ParseIntOfIntStr(v);
  }

  lemma {:induction false} SplitAroundX(a: string, b: string)
    requires ' ' !in a && ' ' !in b
    ensures Split(a + " x " + b, ' ') == [a, "x", b]
  {
    assert a + " x " + b == a + [' '] + ("x" + [' '] + b);
    SplitAfterPiece(a, "x" + [' '] + b, ' ');
    SplitTwo("x", b, ' ');
  }

  lemma NoSpaceInIntStr(i: int)
    ensures ' ' !in IntStr(i)
  {
    var d := Decimal(if i < 0 then -i else i);
    assert IsDigits(d);
    if i < 0 {
      assert IntStr(i) == "-" + d;
    }
  }
}
