/** Choosing the operating-system variant of a capability package. */
module ImportUtils {
  import opened Wrappers

  /** The three platform modules a capability package can provide. */
  datatype Variant = Mac | Windows | Linux

  /** The relative module name of each variant. */
  function ModuleName(v: Variant): (name: string)
    ensures |name| > 1 && name[0] == '.'
  {
    match v
    case Mac => ".mac"
    case Windows => ".windows"
    case Linux => ".linux"
  }

  /** The platform identifiers the table knows (`sys.platform` values). */
  function PlatformOf(v: Variant): string {
    match v
    case Mac => "darwin"
    case Windows => "win32"
    case Linux => "linux"
  }

  /** The `ImportError` message for an identifier the table does not know. */
  function UnsupportedMessage(platform: string): (msg: string)
    ensures |msg| == 22 + |platform| && msg[..22] == "Unsupported platform: " && msg[22..] == platform
  {
    "Unsupported platform: " + platform
  }

  /** `get_platform_module_name()` for the platform identifier `platform`: the table lookup,
      or the `ImportError` message when the identifier is not in the table. */
  function PlatformModuleName(platform: string): (r: Result<string, string>)
    ensures r.Err? ==> r.error == UnsupportedMessage(platform)
  {
    if platform == "darwin" then Ok(".mac")
    else if platform == "win32" then Ok(".windows")
    else if platform == "linux" then Ok(".linux")
    else Err(UnsupportedMessage(platform))
  }

  /** A module resolved by `get_platform_module(package)`: the package it was asked for and
      the variant whose relative name was imported under it. */
  datatype PlatformModule = PlatformModule(package: string, variant: Variant)

  /** `get_platform_module(package)`: `import_module(name, package=package)`, with the import
      machinery reduced to naming the variant under the requesting package. */
  function GetPlatformModule(package: string, platform: string): (r: Result<PlatformModule, string>)
    ensures r.Ok? ==> r.value.package == package
  {
    match PlatformModuleName(platform)
    case Err(msg) => Err(msg)
    case Ok(name) =>
      if name == ".mac" then Ok(PlatformModule(package, Mac))
      else if name == ".windows" then Ok(PlatformModule(package, Windows))
      else Ok(PlatformModule(package, Linux))
  }

  /** The table: each supported identifier names its variant's module, and those are the only
      identifiers that succeed. */
  lemma PlatformTable(platform: string)
    ensures PlatformModuleName(platform).Ok? <==> exists v :: PlatformOf(v) == platform
    ensures forall v :: PlatformOf(v) == platform ==> PlatformModuleName(platform) == Ok(ModuleName(v))
  {
    if platform == "darwin" { assert PlatformOf(Mac) == platform; }
    if platform == "win32" { assert PlatformOf(Windows) == platform; }
    if platform == "linux" { assert PlatformOf(Linux) == platform; }
  }

  /** Any other identifier fails with "Unsupported platform: <id>", from which the identifier
      can be read back. */
  lemma UnsupportedPlatform(platform: string)
    requires platform != "darwin" && platform != "win32" && platform != "linux"
    ensures PlatformModuleName(platform) == Err(UnsupportedMessage(platform))
    ensures UnsupportedMessage(platform)[22..] == platform
  {
  }

  /** Distinct supported identifiers give distinct module names. */
  lemma PlatformModuleNameInjective(a: string, b: string)
    requires PlatformModuleName(a).Ok? && PlatformModuleName(a) == PlatformModuleName(b)
    ensures a == b
  {
  }

  /** The resolved variant does not depend on the requesting package, so every capability
      package (firewall, cpu, ...) binds the same variant, or every one fails with the same
      message. */
  lemma SameVariantForEveryPackage(p1: string, p2: string, platform: string)
    ensures GetPlatformModule(p1, platform).Ok? <==> GetPlatformModule(p2, platform).Ok?
    ensures GetPlatformModule(p1, platform).Ok? ==>
      GetPlatformModule(p1, platform).value.variant == GetPlatformModule(p2, platform).value.variant
    ensures GetPlatformModule(p1, platform).Err? ==>
      GetPlatformModule(p1, platform) == GetPlatformModule(p2, platform)
  {
  }

  /** The variant a package gets is the one whose module name the table gives. */
  lemma VariantMatchesTable(package: string, platform: string)
    ensures GetPlatformModule(package, platform).Ok? ==>
      PlatformModuleName(platform) == Ok(ModuleName(GetPlatformModule(package, platform).value.variant))
    ensures GetPlatformModule(package, platform).Err? ==>
      GetPlatformModule(package, platform).error == UnsupportedMessage(platform)
  {
  }
}
