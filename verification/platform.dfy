/**
  The desktop platform: the operating system is read off the `os.name`
  system property, which is a parameter here.
 */
module Platform {
  import opened Strings

  datatype PlatformType = Windows | MacOs | Linux

  /** `DesktopPlatform.type`: "win" anywhere in the lowercased name first, then "mac", else Linux. */
  function PlatformOf(osName: string): (t: PlatformType)
    ensures t == Windows <==> Contains(Lower(osName), "win")
    ensures t == MacOs <==> !Contains(Lower(osName), "win") && Contains(Lower(osName), "mac")
    ensures t == Linux <==> !Contains(Lower(osName), "win") && !Contains(Lower(osName), "mac")
  {
    if Contains(Lower(osName), "win") then Windows
    else if Contains(Lower(osName), "mac") then MacOs
    else Linux
  }

  /** Only the lowercased name matters: names that agree but for case give the same platform. */
  lemma PlatformIgnoresCase(a: string, b: string)
    requires Lower(a) == Lower(b)
    ensures PlatformOf(a) == PlatformOf(b)
  {
  }

  /** Lowercasing the name first changes nothing. */
  lemma PlatformOfLowercase(osName: string)
    ensures PlatformOf(Lower(osName)) == PlatformOf(osName)
  {
    LowerIdempotent(osName);
  }

  /** "win" is looked for first, so a name holding both, such as "Darwin", is taken for Windows. */
  lemma WinBeforeMac(osName: string)
    requires Contains(Lower(osName), "win") && Contains(Lower(osName), "mac")
    ensures PlatformOf(osName) == Windows
  {
  }

  /** The macOS `os.name`, "Mac OS X", is read as macOS. */
  lemma MacOsName()
    ensures PlatformOf("Mac OS X") == MacOs
  {
    var lower := "mac os x";
    MacOsLower();
    assert lower[0..3] == "mac";
    ContainsWitness(lower, "mac", 0);
    NoWinInMacOs();
  }

  lemma MacOsLower()
    ensures Lower("Mac OS X") == "mac os x"
  {
  }

  /** "mac os x" holds no "w", so no "win". */
  lemma NoWinInMacOs()
    ensures !Contains("mac os x", "win")
  {
    var lower := "mac os x";
    ContainsIndexOf(lower, "win");
    forall k | 0 <= k
      ensures !OccursAt(lower, "win", k)
    {
      if k + 3 <= |lower| {
        assert lower[k..k + 3][0] == lower[k];
      }
    }
  }

  /** A name such as "Darwin" holds "win", and is read as Windows. */
  lemma DarwinIsWindows()
    ensures PlatformOf("Darwin") == Windows
  {
    var lower := Lower("Darwin");
    assert lower == "darwin";
    assert lower[3..6] == "win";
    ContainsWitness(lower, "win", 3);
  }
}
