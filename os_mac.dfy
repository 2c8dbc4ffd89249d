/** The marketing name of a macOS version. */
module OsMac {
  import opened PyStr

  /** The edition table: OS X versions by "10.minor", macOS versions by major number. */
  const Editions: map<string, string> := map[
    "10.0" := "Cheetah",
    "10.1" := "Puma",
    "10.2" := "Jaguar",
    "10.3" := "Panther",
    "10.4" := "Tiger",
    "10.5" := "Leopard",
    "10.6" := "Snow Leopard",
    "10.7" := "Lion",
    "10.8" := "Mountain Lion",
    "10.9" := "Mavericks",
    "10.10" := "Yosemite",
    "10.11" := "El Capitan",
    "10.12" := "Sierra",
    "10.13" := "High Sierra",
    "10.14" := "Mojave",
    "10.15" := "Catalina",
    "11" := "Big Sur",
    "12" := "Monterey",
    "13" := "Ventura",
    "14" := "Sonoma",
    "15" := "Sequoia"
  ]

  /** `version.split(".")[0]` */
  function Major(version: string): (major: string)
    ensures '.' !in major
    ensures |major| <= |version| && major == version[..|major|]
    ensures |major| < |version| ==> version[|major|] == '.'
  {
    UpTo(version, '.')
  }

  /** `_get_mac_os_edition(version)`: the exact version first, then its major part, else "--". */
  function Edition(version: string): (edition: string)
    ensures edition == "--" || edition in Editions.Values
    ensures version in Editions ==> edition == Editions[version]
    ensures version !in Editions && Major(version) in Editions ==> edition == Editions[Major(version)]
    ensures version !in Editions && Major(version) !in Editions ==> edition == "--"
  {
    if version in Editions then Editions[version]
    else
      var major := Major(version);
      if major in Editions then Editions[major] else "--"
  }

  /** "--" is never an edition name, so the result tells a known version from an unknown one. */
  lemma UnknownMarker()
    ensures "--" !in Editions.Values
  {
  }

  /** Every "10.x.y" version that is not itself a key is unknown: only "10" is looked up
      next, and "10" is not in the table. */
  lemma OsXPatchUnknown(version: string)
    requires |version| >= 3 && version[..3] == "10." && version !in Editions
    ensures Edition(version) == "--"
  {
    assert Major(version) == "10" by {
      assert version[0] == '1' && version[1] == '0' && version[2] == '.';
      assert UpTo(version, '.') == [version[0]] + UpTo(version[1..], '.');
      assert UpTo(version[1..], '.') == [version[1]] + UpTo(version[2..], '.');
    }
  }

  /** A macOS point release "M.rest" with M from 11 to 15 gets the name of its major version. */
  lemma MacOsPointRelease(major: string, rest: string)
    requires major in {"11", "12", "13", "14", "15"}
    ensures Edition(major + "." + rest) == Editions[major]
  {
    var version := major + "." + rest;
    assert version[1] != '0' && version[2] == '.';
    NotAKey(version);
    assert UpTo(version, '.') == [version[0]] + UpTo(version[1..], '.');
    assert UpTo(version[1..], '.') == [version[1]] + UpTo(version[2..], '.');
    assert UpTo(version[2..], '.') == [] by { assert version[2..][0] == '.'; }
    assert version[0] == major[0] && version[1] == major[1];
    assert Major(version) == [major[0], major[1]] == major;
  }

  /** Keys of three or more characters are the "10.x" ones. */
  lemma NotAKey(version: string)
    requires |version| >= 3 && version[1] != '0'
    ensures version !in Editions
  {
  }

  /** The cases the repository's own tests name. */
  lemma EditionExamples()
    ensures Edition("10.15") == "Catalina"
    ensures Edition("11") == "Big Sur"
    ensures Edition("14") == "Sonoma"
    ensures Edition("99") == "--"
  {
    assert Major("99") == "99" by {
      assert UpTo("99", '.') == ['9'] + UpTo("9", '.');
    }
  }

  /** A point release of a modern macOS falls back to its major version; a
      full Mac OS X version with a patch number is not in the table. */
  lemma PointReleaseExamples()
    ensures Edition("14.5") == "Sonoma"
    ensures Edition("10.15.7") == "--"
  {
    MacOsPointRelease("14", "5");
    assert "14" + "." + "5" == "14.5";
    assert "10.15.7" !in Editions;
    OsXPatchUnknown("10.15.7");
  }
}
