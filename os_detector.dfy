/**
 * OSDetector: classifies the operating-system name into one of the platforms for which a
 * server binary exists. The name is a parameter here instead of the `os.name` system
 * property; the classification lower-cases it and runs an ordered chain of tests.
 */
module OSDetection {
  import opened Results
  import opened JavaLang

  datatype OS = WINDOWS | UNIX | MAC_OS_X

  /** The architecture answer: x86_64, or any other architecture. */
  datatype Architecture = x86_64 | OtherArchitecture

  /** OsDetectionException, with its message. */
  datatype DetectionError = OsDetectionException(message: string)

  /** `OSDetector.getOS()` for the given value of `os.name`. */
  function GetOS(osName: string): (r: Result<OS, DetectionError>)
    ensures r.Err? ==> r.error.message == "Unrecognized OS: " + Lower(osName)
  {
    var name := Lower(osName);
    if Contains(name, "win") then Ok(WINDOWS)
    else if Contains(name, "nix") || Contains(name, "nux") || Contains(name, "aix") then Ok(UNIX)
    else if EqualsIgnoreCase("Mac OS X", name) then Ok(MAC_OS_X)
    else Err(OsDetectionException("Unrecognized OS: " + name))
  }

  /** `OSDetector.getArchitecture()`: always x86_64, whatever the machine. */
  function GetArchitecture(): (a: Architecture)
    ensures a == x86_64
  {
    x86_64
  }

  /** Only the lower-cased name matters: classifying the lower-cased name gives the same outcome. */
  lemma CaseInsensitive(osName: string)
    ensures GetOS(Lower(osName)) == GetOS(osName)
  {
    LowerIdempotent(osName);
  }

  /** Two names that agree after lower-casing are classified alike. */
  lemma SameLowerSameOS(a: string, b: string)
    requires Lower(a) == Lower(b)
    ensures GetOS(a) == GetOS(b)
  {
  }

  /** WINDOWS exactly when the lower-cased name contains "win"; this test comes first. */
  lemma WindowsIffWin(osName: string)
    ensures GetOS(osName) == Ok(WINDOWS) <==> Contains(Lower(osName), "win")
  {
  }

  /** "Darwin" (macOS's kernel name) contains "win" and is therefore classified as WINDOWS. */
  lemma DarwinIsWindows()
    ensures GetOS("Darwin") == Ok(WINDOWS)
    ensures GetOS("darwin") == Ok(WINDOWS)
  {
    assert OccursAt(Lower("Darwin"), "win", 3);
    assert OccursAt(Lower("darwin"), "win", 3);
  }

  /** UNIX exactly when the name has no "win" but has "nix", "nux" or "aix". */
  lemma UnixIff(osName: string)
    ensures GetOS(osName) == Ok(UNIX) <==>
      var name := Lower(osName);
      !Contains(name, "win") && (Contains(name, "nix") || Contains(name, "nux") || Contains(name, "aix"))
  {
  }

  /** A name with neither 'n' nor 'i' contains none of "win", "nix", "nux", "aix". */
  lemma NoneOfTheSubstrings(name: string)
    requires 'n' !in name && 'i' !in name
    ensures !Contains(name, "win") && !Contains(name, "nix")
    ensures !Contains(name, "nux") && !Contains(name, "aix")
  {
    if Contains(name, "win") { ContainsChar(name, "win", 1); }
    if Contains(name, "nix") { ContainsChar(name, "nix", 0); }
    if Contains(name, "nux") { ContainsChar(name, "nux", 0); }
    if Contains(name, "aix") { ContainsChar(name, "aix", 1); }
  }

  /** "mac os x" contains none of the substrings that the earlier tests look for. */
  lemma MacNameHasNoEarlierMatch()
    ensures !Contains("mac os x", "win") && !Contains("mac os x", "nix")
    ensures !Contains("mac os x", "nux") && !Contains("mac os x", "aix")
  {
    NoneOfTheSubstrings("mac os x");
  }

  /** MAC_OS_X exactly when the whole name equals "Mac OS X" ignoring case. */
  lemma MacIffWholeName(osName: string)
    ensures GetOS(osName) == Ok(MAC_OS_X) <==> Lower(osName) == "mac os x"
  {
    MacNameHasNoEarlierMatch();
    EqualsIgnoreCaseIsLowerEquality("Mac OS X", Lower(osName));
    LowerIdempotent(osName);
    assert Lower("Mac OS X") == "mac os x";
  }

  /** A name that merely contains "mac os x" is not recognised. */
  lemma MacSubstringNotEnough()
    ensures GetOS("Mac OS X 10.15") == Err(OsDetectionException("Unrecognized OS: mac os x 10.15"))
  {
    var name := Lower("Mac OS X 10.15");
    assert name == "mac os x 10.15";
    assert 'n' !in name && 'i' !in name;
    NoneOfTheSubstrings(name);
    assert !EqualsIgnoreCase("Mac OS X", name);
    assert GetOS("Mac OS X 10.15") == Err(OsDetectionException("Unrecognized OS: " + name));
    assert "Unrecognized OS: " + name == "Unrecognized OS: mac os x 10.15";
  }

  /** The failure is raised exactly when none of the three tests matches. */
  lemma UnrecognizedIff(osName: string)
    ensures GetOS(osName).Err? <==>
      var name := Lower(osName);
      !Contains(name, "win") && !Contains(name, "nix") && !Contains(name, "nux")
      && !Contains(name, "aix") && name != "mac os x"
  {
    MacIffWholeName(osName);
  }
}
