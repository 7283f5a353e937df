/**
 * Scores of concrete release assets on a concrete host, from the package's
 * own scoring tests. Each URL is the test's common release prefix followed
 * by a file name.
 */
module ScoreExamples {
  import opened Strs
  import opened Platform
  import opened GitHub
  import opened Install

  const ReleaseHost := "https://github.com/"
  const ReleaseRepo := "foo/bar/releases/"
  const ReleaseTag := "download/v1.0/"
  const ReleasePrefix := ReleaseHost + ReleaseRepo + ReleaseTag

  /** An asset that differs from the zero Asset only in its download URL. */
  function AssetAt(url: string): (a: Asset)
    ensures a.browserDownloadURL == url
  {
    Asset("", 0, "", "", "", "", "", 0, 0, 0, 0, url)
  }

  /** A text ends with anything appended to it. */
  lemma SuffixOfConcat(p: string, w: string)
    ensures HasSuffix(p + w, w)
  {
    assert (p + w)[|p + w| - |w|..] == w;
  }

  /** A word found in the lower-cased middle piece of a text is found in the whole lower-cased text. */
  lemma InLowerPiece(p: string, n: string, q: string, w: string)
    requires Contains(Lower(n), w)
    ensures Contains(Lower(p + n + q), w)
  {
    LowerAppend(p, n);
    LowerAppend(p + n, q);
    ContainsInside(Lower(p), Lower(n), Lower(q), w);
  }

  /** A word holding a non-letter that the text lacks is absent from the lower-cased text. */
  lemma NotInLower(s: string, w: string, c: char)
    requires c in w && !('a' <= c <= 'z') && c !in s
    ensures !Contains(Lower(s), w)
  {
    LowerKeepsAbsence(s, c);
    NotContainsWithoutChar(Lower(s), w, c);
  }

  /** No archive suffix ends with a character other than 'p', 'r', 'z', 'g' or '2'. */
  lemma LastCharRulesOutArchive(p: string, n: string)
    requires |n| > 0 && n[|n| - 1] !in "przg2"
    ensures !IsDownloadableExtension(AssetAt(p + n))
  {
    var u := p + n;
    assert u[|u| - 1] == n[|n| - 1];
    assert forall w :: w in DownloadableExtensions ==> |w| > 0 && w[|w| - 1] in "przg2";
    forall w | HasSuffix(u, w) && |w| > 0 ensures u[|u| - 1] == w[|w| - 1] {
      assert u[|u| - |w|..][|w| - 1] == w[|w| - 1];
    }
  }

  /** A file name with neither '.' nor '/' after a directory part is the last segment, so the URL has no extension. */
  lemma BareName(u: string, p: string, name: string)
    requires u == p + name
    requires |p| > 0 && p[|p| - 1] == '/'
    requires '.' !in name && '/' !in name
    ensures HasNoExtension(AssetAt(u))
  {
    LastSegmentOfJoin(p, name);
    NotContainsWithoutChar(name, ".", '.');
  }

  /** An OS token in one piece of the URL makes the asset match the host's OS. */
  lemma SameOSFromPiece(c: Capabilities, u: string, p: string, n: string, q: string, w: string)
    requires u == p + n + q
    requires (c.os == Darwin && w in MacIdentifiers) || (c.os == Linux && w == "linux")
    requires Contains(Lower(n), w)
    ensures IsSameOS(AssetAt(u), c)
  {
    InLowerPiece(p, n, q, w);
  }

  /** An architecture token in one piece of the URL makes the asset match the host's architecture. */
  lemma SameArchFromPiece(c: Capabilities, u: string, p: string, n: string, q: string, w: string)
    requires u == p + n + q
    requires w == Lower(c.arch) || (c.arch == "amd64" && w == "x86_64") || (c.arch == "arm64" && w == "aarch64")
    requires Contains(Lower(n), w)
    ensures IsSameArchitecture(AssetAt(u), c)
  {
    InLowerPiece(p, n, q, w);
  }

  /** Every token for amd64 and arm64 holds a '6', so a URL without one matches neither. */
  lemma NoArchWithoutSix(c: Capabilities, p: string, n: string)
    requires c.arch == "amd64" || c.arch == "arm64"
    requires '6' !in p && '6' !in n
    ensures !IsSameArchitecture(AssetAt(p + n), c)
  {
    var u := p + n;
    assert '6' !in u;
    assert Lower(c.arch) == c.arch;
    NotInLower(u, c.arch, '6');
    NotInLower(u, "x86_64", '6');
    NotInLower(u, "aarch64", '6');
  }

  /** A suffix that starts with '.' and holds no '/' means the URL has an extension. */
  lemma ExtensionFromSuffix(u: string, p: string, w: string)
    requires u == p + w
    requires |w| > 0 && w[0] == '.' && '/' !in w
    ensures !HasNoExtension(AssetAt(u))
  {
    SuffixOfConcat(p, w);
    DotSuffixIsExtension(u, w);
  }

  /** An archive suffix at the end of the URL: the asset is an archive, and so it has an extension. */
  lemma ArchiveSuffix(u: string, p: string, w: string)
    requires u == p + w && w in DownloadableExtensions
    ensures IsDownloadableExtension(AssetAt(u)) && !HasNoExtension(AssetAt(u))
  {
    SuffixOfConcat(p, w);
    ExtensionsAreDotSuffixes();
    DotSuffixIsExtension(u, w);
  }

  /** In a text where `w[j]` never stands right before a '6', a word with `w[j]` right before a '6' does not occur. */
  lemma {:induction false} AbsentByPair(s: string, w: string, j: int)
    requires 0 <= j && j + 1 < |w| && w[j + 1] == '6'
    requires forall i :: 0 <= i && i + 1 < |s| && s[i + 1] == '6' ==> s[i] != w[j]
    ensures !Contains(s, w)
  {
    forall i
      ensures !OccursAt(s, w, i)
    {
      if 0 <= i && i + |w| <= |s| {
        assert s[i..i + |w|][j] == s[i + j] && s[i..i + |w|][j + 1] == s[i + j + 1];
      }
    }
  }

  /**
   * When the prefix has no '6' and, in the file name, no '6' is preceded by a
   * character that lower-cases to `a`, no `a` precedes a '6' anywhere in the
   * lower-cased URL.
   */
  lemma {:induction false} SixPredecessors(p: string, n: string, a: char)
    requires '6' !in p && |n| > 0 && n[0] != '6'
    requires forall k :: 0 < k < |n| && n[k] == '6' ==> LowerChar(n[k - 1]) != a
    ensures forall i :: 0 <= i && i + 1 < |Lower(p + n)| && Lower(p + n)[i + 1] == '6' ==> Lower(p + n)[i] != a
  {
    var u := p + n;
    var s := Lower(u);
    forall i | 0 <= i && i + 1 < |s|
      ensures s[i + 1] == '6' ==> s[i] != a
    {
      assert s[i + 1] == LowerChar(u[i + 1]) && s[i] == LowerChar(u[i]);
      if i + 1 < |p| {
        assert u[i + 1] == p[i + 1];
      } else if i + 1 == |p| {
        assert u[i + 1] == n[0];
      } else {
        assert u[i + 1] == n[i + 1 - |p|] && u[i] == n[i - |p|];
      }
    }
  }

  /**
   * The tokens for an arm64 host have 'm' or 'h' before their '6', those for
   * an amd64 host 'd' or '8': a URL whose '6's all follow other characters
   * matches neither architecture.
   */
  lemma NoArchBeforeSix(c: Capabilities, p: string, n: string)
    requires c.arch == "amd64" || c.arch == "arm64"
    requires '6' !in p && |n| > 0 && n[0] != '6'
    requires forall k :: 0 < k < |n| && n[k] == '6' ==>
      LowerChar(n[k - 1]) !in (if c.arch == "arm64" then "mh" else "d8")
    ensures !IsSameArchitecture(AssetAt(p + n), c)
  {
    var s := Lower(p + n);
    assert Lower(c.arch) == c.arch;
    if c.arch == "arm64" {
      SixPredecessors(p, n, 'm');
      AbsentByPair(s, "arm64", 2);
      SixPredecessors(p, n, 'h');
      AbsentByPair(s, "aarch64", 4);
    } else {
      SixPredecessors(p, n, 'd');
      AbsentByPair(s, "amd64", 2);
      SixPredecessors(p, n, '8');
      AbsentByPair(s, "x86_64", 1);
    }
  }

  /** The score of an asset whose four predicates are known. */
  lemma ScoreOf(c: Capabilities, a: Asset, os: bool, arch: bool, archive: bool, bare: bool)
    requires IsSameOS(a, c) == os && IsSameArchitecture(a, c) == arch
    requires IsDownloadableExtension(a) == archive && HasNoExtension(a) == bare
    ensures EvaluateAssetSuitability(c, a) ==
      (if os then 4 else 0) + (if arch then 3 else 0) + (if archive then 2 else 0) + (if bare then 1 else 0)
  {
  }

  const DarwinArm := Capabilities(Darwin, DarwinExecutableMime, "arm64")
  const LinuxAmd := Capabilities(Linux, "asdf", "amd64")

  // Each case settles the OS, architecture, archive and extension tests in
  // lemmas of their own, then adds up the weights with ScoreOf.

  // ---- TestEvalAssetSuitabilityDarwin: an arm64 Mac ----

  lemma DirenvDarwinOS(p: string)
    ensures IsSameOS(AssetAt(p + "direnv.darwin-arm64"), DarwinArm)
  {
    SameOSFromPiece(DarwinArm, p + "direnv.darwin-arm64", p + "direnv.", "darwin", "-arm64", "darwin");
  }

  lemma DirenvDarwinArch(p: string)
    ensures IsSameArchitecture(AssetAt(p + "direnv.darwin-arm64"), DarwinArm)
  {
    SameArchFromPiece(DarwinArm, p + "direnv.darwin-arm64", p + "direnv.darwin-", "arm64", "", "arm64");
  }

  lemma DirenvDarwinNotArchive(p: string)
    ensures !IsDownloadableExtension(AssetAt(p + "direnv.darwin-arm64"))
  {
    LastCharRulesOutArchive(p, "direnv.darwin-arm64");
  }

  lemma DirenvDarwinExtension(p: string)
    ensures !HasNoExtension(AssetAt(p + "direnv.darwin-arm64"))
  {
    ExtensionFromSuffix(p + "direnv.darwin-arm64", p + "direnv", ".darwin-arm64");
  }

  /** direnv.darwin-arm64: OS and architecture match, but the name has a '.': 4 + 3 = 7. */
  lemma DirenvDarwinScoresSeven(p: string)
    ensures EvaluateAssetSuitability(DarwinArm, AssetAt(p + "direnv.darwin-arm64")) == 7
  {
    DirenvDarwinOS(p);
    DirenvDarwinArch(p);
    DirenvDarwinNotArchive(p);
    DirenvDarwinExtension(p);
    ScoreOf(DarwinArm, AssetAt(p + "direnv.darwin-arm64"), true, true, false, false);
  }

  lemma PlutoDarwinOS(p: string)
    ensures IsSameOS(AssetAt(p + "pluto_4.2.0_darwin_arm64.tar.gz"), DarwinArm)
  {
    SameOSFromPiece(DarwinArm, p + "pluto_4.2.0_darwin_arm64.tar.gz", p + "pluto_4.2.0_", "darwin", "_arm64.tar.gz", "darwin");
  }

  lemma PlutoDarwinArch(p: string)
    ensures IsSameArchitecture(AssetAt(p + "pluto_4.2.0_darwin_arm64.tar.gz"), DarwinArm)
  {
    SameArchFromPiece(DarwinArm, p + "pluto_4.2.0_darwin_arm64.tar.gz", p + "pluto_4.2.0_darwin_", "arm64", ".tar.gz", "arm64");
  }

  lemma PlutoDarwinArchive(p: string)
    ensures IsDownloadableExtension(AssetAt(p + "pluto_4.2.0_darwin_arm64.tar.gz")) && !HasNoExtension(AssetAt(p + "pluto_4.2.0_darwin_arm64.tar.gz"))
  {
    ArchiveSuffix(p + "pluto_4.2.0_darwin_arm64.tar.gz", p + "pluto_4.2.0_darwin_arm64.tar", ".gz");
  }

  /** pluto_4.2.0_darwin_arm64.tar.gz: OS, architecture and archive: 4 + 3 + 2 = 9. */
  lemma PlutoDarwinScoresNine(p: string)
    ensures EvaluateAssetSuitability(DarwinArm, AssetAt(p + "pluto_4.2.0_darwin_arm64.tar.gz")) == 9
  {
    PlutoDarwinOS(p);
    PlutoDarwinArch(p);
    PlutoDarwinArchive(p);
    ScoreOf(DarwinArm, AssetAt(p + "pluto_4.2.0_darwin_arm64.tar.gz"), true, true, true, false);
  }

  lemma RuplacerDarwinOS(p: string)
    ensures IsSameOS(AssetAt(p + "ruplacer-osx"), DarwinArm)
  {
    SameOSFromPiece(DarwinArm, p + "ruplacer-osx", p + "ruplacer-", "osx", "", "osx");
  }

  lemma RuplacerDarwinArch(p: string)
    requires '6' !in p
    ensures !IsSameArchitecture(AssetAt(p + "ruplacer-osx"), DarwinArm)
  {
    NoArchWithoutSix(DarwinArm, p, "ruplacer-osx");
  }

  lemma RuplacerDarwinNotArchive(p: string)
    ensures !IsDownloadableExtension(AssetAt(p + "ruplacer-osx"))
  {
    LastCharRulesOutArchive(p, "ruplacer-osx");
  }

  lemma RuplacerDarwinBare(p: string)
    requires |p| > 0 && p[|p| - 1] == '/'
    ensures HasNoExtension(AssetAt(p + "ruplacer-osx"))
  {
    BareName(p + "ruplacer-osx", p, "ruplacer-osx");
  }

  /** ruplacer-osx: "osx" names macOS, no architecture token, a bare binary: 4 + 1 = 5. */
  lemma RuplacerDarwinScoresFive(p: string)
    requires |p| > 0 && p[|p| - 1] == '/' && '6' !in p
    ensures EvaluateAssetSuitability(DarwinArm, AssetAt(p + "ruplacer-osx")) == 5
  {
    RuplacerDarwinOS(p);
    RuplacerDarwinArch(p);
    RuplacerDarwinNotArchive(p);
    RuplacerDarwinBare(p);
    ScoreOf(DarwinArm, AssetAt(p + "ruplacer-osx"), true, false, false, true);
  }

  lemma CrocDarwinOS(p: string)
    ensures IsSameOS(AssetAt(p + "croc_9.2.0_macOS-64bit.tar.gz"), DarwinArm)
  {
    SameOSFromPiece(DarwinArm, p + "croc_9.2.0_macOS-64bit.tar.gz", p + "croc_9.2.0_", "macOS", "-64bit.tar.gz", "macos");
  }

  lemma CrocDarwinArch(p: string)
    requires '6' !in p
    ensures !IsSameArchitecture(AssetAt(p + "croc_9.2.0_macOS-64bit.tar.gz"), DarwinArm)
  {
    NoArchBeforeSix(DarwinArm, p, "croc_9.2.0_macOS-64bit.tar.gz");
  }

  lemma CrocDarwinArchive(p: string)
    ensures IsDownloadableExtension(AssetAt(p + "croc_9.2.0_macOS-64bit.tar.gz")) && !HasNoExtension(AssetAt(p + "croc_9.2.0_macOS-64bit.tar.gz"))
  {
    ArchiveSuffix(p + "croc_9.2.0_macOS-64bit.tar.gz", p + "croc_9.2.0_macOS-64bit.tar", ".gz");
  }

  /** croc_9.2.0_macOS-64bit.tar.gz: "64bit" is no architecture token: 4 + 2 = 6. */
  lemma CrocDarwinScoresSix(p: string)
    requires '6' !in p
    ensures EvaluateAssetSuitability(DarwinArm, AssetAt(p + "croc_9.2.0_macOS-64bit.tar.gz")) == 6
  {
    CrocDarwinOS(p);
    CrocDarwinArch(p);
    CrocDarwinArchive(p);
    ScoreOf(DarwinArm, AssetAt(p + "croc_9.2.0_macOS-64bit.tar.gz"), true, false, true, false);
  }

  lemma ConftestDarwinAmdOS(p: string)
    ensures IsSameOS(AssetAt(p + "conftest_0.28.1_Darwin_x86_64.tar.gz"), DarwinArm)
  {
    SameOSFromPiece(DarwinArm, p + "conftest_0.28.1_Darwin_x86_64.tar.gz", p + "conftest_0.28.1_", "Darwin", "_x86_64.tar.gz", "darwin");
  }

  lemma ConftestDarwinAmdArch(p: string)
    requires '6' !in p
    ensures !IsSameArchitecture(AssetAt(p + "conftest_0.28.1_Darwin_x86_64.tar.gz"), DarwinArm)
  {
    NoArchBeforeSix(DarwinArm, p, "conftest_0.28.1_Darwin_x86_64.tar.gz");
  }

  lemma ConftestDarwinAmdArchive(p: string)
    ensures IsDownloadableExtension(AssetAt(p + "conftest_0.28.1_Darwin_x86_64.tar.gz")) && !HasNoExtension(AssetAt(p + "conftest_0.28.1_Darwin_x86_64.tar.gz"))
  {
    ArchiveSuffix(p + "conftest_0.28.1_Darwin_x86_64.tar.gz", p + "conftest_0.28.1_Darwin_x86_64.tar", ".gz");
  }

  /** conftest_0.28.1_Darwin_x86_64.tar.gz: an amd64 build on an arm64 host: 4 + 2 = 6. */
  lemma ConftestDarwinAmdScoresSix(p: string)
    requires '6' !in p
    ensures EvaluateAssetSuitability(DarwinArm, AssetAt(p + "conftest_0.28.1_Darwin_x86_64.tar.gz")) == 6
  {
    ConftestDarwinAmdOS(p);
    ConftestDarwinAmdArch(p);
    ConftestDarwinAmdArchive(p);
    ScoreOf(DarwinArm, AssetAt(p + "conftest_0.28.1_Darwin_x86_64.tar.gz"), true, false, true, false);
  }

  lemma ConftestDarwinOS(p: string)
    ensures IsSameOS(AssetAt(p + "conftest_0.28.1_Darwin_arm64.tar.gz"), DarwinArm)
  {
    SameOSFromPiece(DarwinArm, p + "conftest_0.28.1_Darwin_arm64.tar.gz", p + "conftest_0.28.1_", "Darwin", "_arm64.tar.gz", "darwin");
  }

  lemma ConftestDarwinArch(p: string)
    ensures IsSameArchitecture(AssetAt(p + "conftest_0.28.1_Darwin_arm64.tar.gz"), DarwinArm)
  {
    SameArchFromPiece(DarwinArm, p + "conftest_0.28.1_Darwin_arm64.tar.gz", p + "conftest_0.28.1_Darwin_", "arm64", ".tar.gz", "arm64");
  }

  lemma ConftestDarwinArchive(p: string)
    ensures IsDownloadableExtension(AssetAt(p + "conftest_0.28.1_Darwin_arm64.tar.gz")) && !HasNoExtension(AssetAt(p + "conftest_0.28.1_Darwin_arm64.tar.gz"))
  {
    ArchiveSuffix(p + "conftest_0.28.1_Darwin_arm64.tar.gz", p + "conftest_0.28.1_Darwin_arm64.tar", ".gz");
  }

  /** conftest_0.28.1_Darwin_arm64.tar.gz: "Darwin" lower-cases to "darwin": 4 + 3 + 2 = 9. */
  lemma ConftestDarwinScoresNine(p: string)
    ensures EvaluateAssetSuitability(DarwinArm, AssetAt(p + "conftest_0.28.1_Darwin_arm64.tar.gz")) == 9
  {
    ConftestDarwinOS(p);
    ConftestDarwinArch(p);
    ConftestDarwinArchive(p);
    ScoreOf(DarwinArm, AssetAt(p + "conftest_0.28.1_Darwin_arm64.tar.gz"), true, true, true, false);
  }

  lemma PandocDarwinOS(p: string)
    ensures IsSameOS(AssetAt(p + "pandoc-2.14.2-macOS.pkg"), DarwinArm)
  {
    SameOSFromPiece(DarwinArm, p + "pandoc-2.14.2-macOS.pkg", p + "pandoc-2.14.2-", "macOS", ".pkg", "macos");
  }

  lemma PandocDarwinArch(p: string)
    requires '6' !in p
    ensures !IsSameArchitecture(AssetAt(p + "pandoc-2.14.2-macOS.pkg"), DarwinArm)
  {
    NoArchWithoutSix(DarwinArm, p, "pandoc-2.14.2-macOS.pkg");
  }

  lemma PandocDarwinArchive(p: string)
    ensures IsDownloadableExtension(AssetAt(p + "pandoc-2.14.2-macOS.pkg")) && !HasNoExtension(AssetAt(p + "pandoc-2.14.2-macOS.pkg"))
  {
    ArchiveSuffix(p + "pandoc-2.14.2-macOS.pkg", p + "pandoc-2.14.2-macOS", ".pkg");
  }

  /** pandoc-2.14.2-macOS.pkg: "macOS" lower-cases to "macos", ".pkg" is an archive: 4 + 2 = 6. */
  lemma PandocDarwinScoresSix(p: string)
    requires '6' !in p
    ensures EvaluateAssetSuitability(DarwinArm, AssetAt(p + "pandoc-2.14.2-macOS.pkg")) == 6
  {
    PandocDarwinOS(p);
    PandocDarwinArch(p);
    PandocDarwinArchive(p);
    ScoreOf(DarwinArm, AssetAt(p + "pandoc-2.14.2-macOS.pkg"), true, false, true, false);
  }

  lemma GopassDarwinAmdOS(p: string)
    ensures IsSameOS(AssetAt(p + "gopass-1.15.11-darwin-amd64.tar.gz"), DarwinArm)
  {
    SameOSFromPiece(DarwinArm, p + "gopass-1.15.11-darwin-amd64.tar.gz", p + "gopass-1.15.11-", "darwin", "-amd64.tar.gz", "darwin");
  }

  lemma GopassDarwinAmdArch(p: string)
    requires '6' !in p
    ensures !IsSameArchitecture(AssetAt(p + "gopass-1.15.11-darwin-amd64.tar.gz"), DarwinArm)
  {
    NoArchBeforeSix(DarwinArm, p, "gopass-1.15.11-darwin-amd64.tar.gz");
  }

  lemma GopassDarwinAmdArchive(p: string)
    ensures IsDownloadableExtension(AssetAt(p + "gopass-1.15.11-darwin-amd64.tar.gz")) && !HasNoExtension(AssetAt(p + "gopass-1.15.11-darwin-amd64.tar.gz"))
  {
    ArchiveSuffix(p + "gopass-1.15.11-darwin-amd64.tar.gz", p + "gopass-1.15.11-darwin-amd64.tar", ".gz");
  }

  /** gopass-1.15.11-darwin-amd64.tar.gz: an amd64 build on an arm64 host: 4 + 2 = 6. */
  lemma GopassDarwinAmdScoresSix(p: string)
    requires '6' !in p
    ensures EvaluateAssetSuitability(DarwinArm, AssetAt(p + "gopass-1.15.11-darwin-amd64.tar.gz")) == 6
  {
    GopassDarwinAmdOS(p);
    GopassDarwinAmdArch(p);
    GopassDarwinAmdArchive(p);
    ScoreOf(DarwinArm, AssetAt(p + "gopass-1.15.11-darwin-amd64.tar.gz"), true, false, true, false);
  }

  lemma GopassDarwinOS(p: string)
    ensures IsSameOS(AssetAt(p + "gopass-1.15.11-darwin-arm64.tar.gz"), DarwinArm)
  {
    SameOSFromPiece(DarwinArm, p + "gopass-1.15.11-darwin-arm64.tar.gz", p + "gopass-1.15.11-", "darwin", "-arm64.tar.gz", "darwin");
  }

  lemma GopassDarwinArch(p: string)
    ensures IsSameArchitecture(AssetAt(p + "gopass-1.15.11-darwin-arm64.tar.gz"), DarwinArm)
  {
    SameArchFromPiece(DarwinArm, p + "gopass-1.15.11-darwin-arm64.tar.gz", p + "gopass-1.15.11-darwin-", "arm64", ".tar.gz", "arm64");
  }

  lemma GopassDarwinArchive(p: string)
    ensures IsDownloadableExtension(AssetAt(p + "gopass-1.15.11-darwin-arm64.tar.gz")) && !HasNoExtension(AssetAt(p + "gopass-1.15.11-darwin-arm64.tar.gz"))
  {
    ArchiveSuffix(p + "gopass-1.15.11-darwin-arm64.tar.gz", p + "gopass-1.15.11-darwin-arm64.tar", ".gz");
  }

  /** gopass-1.15.11-darwin-arm64.tar.gz: 4 + 3 + 2 = 9. */
  lemma GopassDarwinScoresNine(p: string)
    ensures EvaluateAssetSuitability(DarwinArm, AssetAt(p + "gopass-1.15.11-darwin-arm64.tar.gz")) == 9
  {
    GopassDarwinOS(p);
    GopassDarwinArch(p);
    GopassDarwinArchive(p);
    ScoreOf(DarwinArm, AssetAt(p + "gopass-1.15.11-darwin-arm64.tar.gz"), true, true, true, false);
  }

  // ---- TestEvalAssetSuitabilityLinux: an amd64 Linux host ----

  lemma DirenvLinuxOS(p: string)
    ensures IsSameOS(AssetAt(p + "direnv.linux-amd64"), LinuxAmd)
  {
    SameOSFromPiece(LinuxAmd, p + "direnv.linux-amd64", p + "direnv.", "linux", "-amd64", "linux");
  }

  lemma DirenvLinuxArch(p: string)
    ensures IsSameArchitecture(AssetAt(p + "direnv.linux-amd64"), LinuxAmd)
  {
    SameArchFromPiece(LinuxAmd, p + "direnv.linux-amd64", p + "direnv.linux-", "amd64", "", "amd64");
  }

  lemma DirenvLinuxNotArchive(p: string)
    ensures !IsDownloadableExtension(AssetAt(p + "direnv.linux-amd64"))
  {
    LastCharRulesOutArchive(p, "direnv.linux-amd64");
  }

  lemma DirenvLinuxExtension(p: string)
    ensures !HasNoExtension(AssetAt(p + "direnv.linux-amd64"))
  {
    ExtensionFromSuffix(p + "direnv.linux-amd64", p + "direnv", ".linux-amd64");
  }

  /** direnv.linux-amd64: OS and architecture match, but the name has a '.': 4 + 3 = 7. */
  lemma DirenvLinuxScoresSeven(p: string)
    ensures EvaluateAssetSuitability(LinuxAmd, AssetAt(p + "direnv.linux-amd64")) == 7
  {
    DirenvLinuxOS(p);
    DirenvLinuxArch(p);
    DirenvLinuxNotArchive(p);
    DirenvLinuxExtension(p);
    ScoreOf(LinuxAmd, AssetAt(p + "direnv.linux-amd64"), true, true, false, false);
  }

  lemma PlutoLinuxOS(p: string)
    ensures IsSameOS(AssetAt(p + "pluto_4.2.0_linux_amd64.tar.gz"), LinuxAmd)
  {
    SameOSFromPiece(LinuxAmd, p + "pluto_4.2.0_linux_amd64.tar.gz", p + "pluto_4.2.0_", "linux", "_amd64.tar.gz", "linux");
  }

  lemma PlutoLinuxArch(p: string)
    ensures IsSameArchitecture(AssetAt(p + "pluto_4.2.0_linux_amd64.tar.gz"), LinuxAmd)
  {
    SameArchFromPiece(LinuxAmd, p + "pluto_4.2.0_linux_amd64.tar.gz", p + "pluto_4.2.0_linux_", "amd64", ".tar.gz", "amd64");
  }

  lemma PlutoLinuxArchive(p: string)
    ensures IsDownloadableExtension(AssetAt(p + "pluto_4.2.0_linux_amd64.tar.gz")) && !HasNoExtension(AssetAt(p + "pluto_4.2.0_linux_amd64.tar.gz"))
  {
    ArchiveSuffix(p + "pluto_4.2.0_linux_amd64.tar.gz", p + "pluto_4.2.0_linux_amd64.tar", ".gz");
  }

  /** pluto_4.2.0_linux_amd64.tar.gz: 4 + 3 + 2 = 9. */
  lemma PlutoLinuxScoresNine(p: string)
    ensures EvaluateAssetSuitability(LinuxAmd, AssetAt(p + "pluto_4.2.0_linux_amd64.tar.gz")) == 9
  {
    PlutoLinuxOS(p);
    PlutoLinuxArch(p);
    PlutoLinuxArchive(p);
    ScoreOf(LinuxAmd, AssetAt(p + "pluto_4.2.0_linux_amd64.tar.gz"), true, true, true, false);
  }

  lemma RuplacerLinuxOS(p: string)
    ensures IsSameOS(AssetAt(p + "ruplacer-linux"), LinuxAmd)
  {
    SameOSFromPiece(LinuxAmd, p + "ruplacer-linux", p + "ruplacer-", "linux", "", "linux");
  }

  lemma RuplacerLinuxArch(p: string)
    requires '6' !in p
    ensures !IsSameArchitecture(AssetAt(p + "ruplacer-linux"), LinuxAmd)
  {
    NoArchWithoutSix(LinuxAmd, p, "ruplacer-linux");
  }

  lemma RuplacerLinuxNotArchive(p: string)
    ensures !IsDownloadableExtension(AssetAt(p + "ruplacer-linux"))
  {
    LastCharRulesOutArchive(p, "ruplacer-linux");
  }

  lemma RuplacerLinuxBare(p: string)
    requires |p| > 0 && p[|p| - 1] == '/'
    ensures HasNoExtension(AssetAt(p + "ruplacer-linux"))
  {
    BareName(p + "ruplacer-linux", p, "ruplacer-linux");
  }

  /** ruplacer-linux: no architecture token, a bare binary: 4 + 1 = 5. */
  lemma RuplacerLinuxScoresFive(p: string)
    requires |p| > 0 && p[|p| - 1] == '/' && '6' !in p
    ensures EvaluateAssetSuitability(LinuxAmd, AssetAt(p + "ruplacer-linux")) == 5
  {
    RuplacerLinuxOS(p);
    RuplacerLinuxArch(p);
    RuplacerLinuxNotArchive(p);
    RuplacerLinuxBare(p);
    ScoreOf(LinuxAmd, AssetAt(p + "ruplacer-linux"), true, false, false, true);
  }

  lemma CrocLinuxOS(p: string)
    ensures IsSameOS(AssetAt(p + "croc_9.2.0_linuX-64bit.tar.gz"), LinuxAmd)
  {
    SameOSFromPiece(LinuxAmd, p + "croc_9.2.0_linuX-64bit.tar.gz", p + "croc_9.2.0_", "linuX", "-64bit.tar.gz", "linux");
  }

  lemma CrocLinuxArch(p: string)
    requires '6' !in p
    ensures !IsSameArchitecture(AssetAt(p + "croc_9.2.0_linuX-64bit.tar.gz"), LinuxAmd)
  {
    NoArchBeforeSix(LinuxAmd, p, "croc_9.2.0_linuX-64bit.tar.gz");
  }

  lemma CrocLinuxArchive(p: string)
    ensures IsDownloadableExtension(AssetAt(p + "croc_9.2.0_linuX-64bit.tar.gz")) && !HasNoExtension(AssetAt(p + "croc_9.2.0_linuX-64bit.tar.gz"))
  {
    ArchiveSuffix(p + "croc_9.2.0_linuX-64bit.tar.gz", p + "croc_9.2.0_linuX-64bit.tar", ".gz");
  }

  /** croc_9.2.0_linuX-64bit.tar.gz: "linuX" lower-cases to "linux", "64bit" is no architecture token: 4 + 2 = 6. */
  lemma CrocLinuxScoresSix(p: string)
    requires '6' !in p
    ensures EvaluateAssetSuitability(LinuxAmd, AssetAt(p + "croc_9.2.0_linuX-64bit.tar.gz")) == 6
  {
    CrocLinuxOS(p);
    CrocLinuxArch(p);
    CrocLinuxArchive(p);
    ScoreOf(LinuxAmd, AssetAt(p + "croc_9.2.0_linuX-64bit.tar.gz"), true, false, true, false);
  }

  lemma ConftestLinuxOS(p: string)
    ensures IsSameOS(AssetAt(p + "conftest_0.28.1_Linux_x86_64.tar.gz"), LinuxAmd)
  {
    SameOSFromPiece(LinuxAmd, p + "conftest_0.28.1_Linux_x86_64.tar.gz", p + "conftest_0.28.1_", "Linux", "_x86_64.tar.gz", "linux");
  }

  lemma ConftestLinuxArch(p: string)
    ensures IsSameArchitecture(AssetAt(p + "conftest_0.28.1_Linux_x86_64.tar.gz"), LinuxAmd)
  {
    SameArchFromPiece(LinuxAmd, p + "conftest_0.28.1_Linux_x86_64.tar.gz", p + "conftest_0.28.1_Linux_", "x86_64", ".tar.gz", "x86_64");
  }

  lemma ConftestLinuxArchive(p: string)
    ensures IsDownloadableExtension(AssetAt(p + "conftest_0.28.1_Linux_x86_64.tar.gz")) && !HasNoExtension(AssetAt(p + "conftest_0.28.1_Linux_x86_64.tar.gz"))
  {
    ArchiveSuffix(p + "conftest_0.28.1_Linux_x86_64.tar.gz", p + "conftest_0.28.1_Linux_x86_64.tar", ".gz");
  }

  /** conftest_0.28.1_Linux_x86_64.tar.gz: "x86_64" is the amd64 alias: 4 + 3 + 2 = 9. */
  lemma ConftestLinuxScoresNine(p: string)
    ensures EvaluateAssetSuitability(LinuxAmd, AssetAt(p + "conftest_0.28.1_Linux_x86_64.tar.gz")) == 9
  {
    ConftestLinuxOS(p);
    ConftestLinuxArch(p);
    ConftestLinuxArchive(p);
    ScoreOf(LinuxAmd, AssetAt(p + "conftest_0.28.1_Linux_x86_64.tar.gz"), true, true, true, false);
  }

  lemma ConftestLinuxArmOS(p: string)
    ensures IsSameOS(AssetAt(p + "conftest_0.28.1_Linux_arm64.tar.gz"), LinuxAmd)
  {
    SameOSFromPiece(LinuxAmd, p + "conftest_0.28.1_Linux_arm64.tar.gz", p + "conftest_0.28.1_", "Linux", "_arm64.tar.gz", "linux");
  }

  lemma ConftestLinuxArmArch(p: string)
    requires '6' !in p
    ensures !IsSameArchitecture(AssetAt(p + "conftest_0.28.1_Linux_arm64.tar.gz"), LinuxAmd)
  {
    NoArchBeforeSix(LinuxAmd, p, "conftest_0.28.1_Linux_arm64.tar.gz");
  }

  lemma ConftestLinuxArmArchive(p: string)
    ensures IsDownloadableExtension(AssetAt(p + "conftest_0.28.1_Linux_arm64.tar.gz")) && !HasNoExtension(AssetAt(p + "conftest_0.28.1_Linux_arm64.tar.gz"))
  {
    ArchiveSuffix(p + "conftest_0.28.1_Linux_arm64.tar.gz", p + "conftest_0.28.1_Linux_arm64.tar", ".gz");
  }

  /** conftest_0.28.1_Linux_arm64.tar.gz: an arm64 build on an amd64 host: 4 + 2 = 6. */
  lemma ConftestLinuxArmScoresSix(p: string)
    requires '6' !in p
    ensures EvaluateAssetSuitability(LinuxAmd, AssetAt(p + "conftest_0.28.1_Linux_arm64.tar.gz")) == 6
  {
    ConftestLinuxArmOS(p);
    ConftestLinuxArmArch(p);
    ConftestLinuxArmArchive(p);
    ScoreOf(LinuxAmd, AssetAt(p + "conftest_0.28.1_Linux_arm64.tar.gz"), true, false, true, false);
  }

  lemma PandocLinuxOS(p: string)
    ensures IsSameOS(AssetAt(p + "pandoc-2.14.2-linux.pkg"), LinuxAmd)
  {
    SameOSFromPiece(LinuxAmd, p + "pandoc-2.14.2-linux.pkg", p + "pandoc-2.14.2-", "linux", ".pkg", "linux");
  }

  lemma PandocLinuxArch(p: string)
    requires '6' !in p
    ensures !IsSameArchitecture(AssetAt(p + "pandoc-2.14.2-linux.pkg"), LinuxAmd)
  {
    NoArchWithoutSix(LinuxAmd, p, "pandoc-2.14.2-linux.pkg");
  }

  lemma PandocLinuxArchive(p: string)
    ensures IsDownloadableExtension(AssetAt(p + "pandoc-2.14.2-linux.pkg")) && !HasNoExtension(AssetAt(p + "pandoc-2.14.2-linux.pkg"))
  {
    ArchiveSuffix(p + "pandoc-2.14.2-linux.pkg", p + "pandoc-2.14.2-linux", ".pkg");
  }

  /** pandoc-2.14.2-linux.pkg: no architecture token, ".pkg" is an archive: 4 + 2 = 6. */
  lemma PandocLinuxScoresSix(p: string)
    requires '6' !in p
    ensures EvaluateAssetSuitability(LinuxAmd, AssetAt(p + "pandoc-2.14.2-linux.pkg")) == 6
  {
    PandocLinuxOS(p);
    PandocLinuxArch(p);
    PandocLinuxArchive(p);
    ScoreOf(LinuxAmd, AssetAt(p + "pandoc-2.14.2-linux.pkg"), true, false, true, false);
  }

  lemma GopassLinuxArmOS(p: string)
    ensures IsSameOS(AssetAt(p + "gopass-1.15.11-linux-arm64.tar.gz"), LinuxAmd)
  {
    SameOSFromPiece(LinuxAmd, p + "gopass-1.15.11-linux-arm64.tar.gz", p + "gopass-1.15.11-", "linux", "-arm64.tar.gz", "linux");
  }

  lemma GopassLinuxArmArch(p: string)
    requires '6' !in p
    ensures !IsSameArchitecture(AssetAt(p + "gopass-1.15.11-linux-arm64.tar.gz"), LinuxAmd)
  {
    NoArchBeforeSix(LinuxAmd, p, "gopass-1.15.11-linux-arm64.tar.gz");
  }

  lemma GopassLinuxArmArchive(p: string)
    ensures IsDownloadableExtension(AssetAt(p + "gopass-1.15.11-linux-arm64.tar.gz")) && !HasNoExtension(AssetAt(p + "gopass-1.15.11-linux-arm64.tar.gz"))
  {
    ArchiveSuffix(p + "gopass-1.15.11-linux-arm64.tar.gz", p + "gopass-1.15.11-linux-arm64.tar", ".gz");
  }

  /** gopass-1.15.11-linux-arm64.tar.gz: an arm64 build on an amd64 host: 4 + 2 = 6. */
  lemma GopassLinuxArmScoresSix(p: string)
    requires '6' !in p
    ensures EvaluateAssetSuitability(LinuxAmd, AssetAt(p + "gopass-1.15.11-linux-arm64.tar.gz")) == 6
  {
    GopassLinuxArmOS(p);
    GopassLinuxArmArch(p);
    GopassLinuxArmArchive(p);
    ScoreOf(LinuxAmd, AssetAt(p + "gopass-1.15.11-linux-arm64.tar.gz"), true, false, true, false);
  }

  lemma GopassLinuxOS(p: string)
    ensures IsSameOS(AssetAt(p + "gopass-1.15.11-linux-amd64.tar.gz"), LinuxAmd)
  {
    SameOSFromPiece(LinuxAmd, p + "gopass-1.15.11-linux-amd64.tar.gz", p + "gopass-1.15.11-", "linux", "-amd64.tar.gz", "linux");
  }

  lemma GopassLinuxArch(p: string)
    ensures IsSameArchitecture(AssetAt(p + "gopass-1.15.11-linux-amd64.tar.gz"), LinuxAmd)
  {
    SameArchFromPiece(LinuxAmd, p + "gopass-1.15.11-linux-amd64.tar.gz", p + "gopass-1.15.11-linux-", "amd64", ".tar.gz", "amd64");
  }

  lemma GopassLinuxArchive(p: string)
    ensures IsDownloadableExtension(AssetAt(p + "gopass-1.15.11-linux-amd64.tar.gz")) && !HasNoExtension(AssetAt(p + "gopass-1.15.11-linux-amd64.tar.gz"))
  {
    ArchiveSuffix(p + "gopass-1.15.11-linux-amd64.tar.gz", p + "gopass-1.15.11-linux-amd64.tar", ".gz");
  }

  /** gopass-1.15.11-linux-amd64.tar.gz: 4 + 3 + 2 = 9. */
  lemma GopassLinuxScoresNine(p: string)
    ensures EvaluateAssetSuitability(LinuxAmd, AssetAt(p + "gopass-1.15.11-linux-amd64.tar.gz")) == 9
  {
    GopassLinuxOS(p);
    GopassLinuxArch(p);
    GopassLinuxArchive(p);
    ScoreOf(LinuxAmd, AssetAt(p + "gopass-1.15.11-linux-amd64.tar.gz"), true, true, true, false);
  }

  /** The release prefix of the test URLs ends its directory part with '/' and has no digit 6. */
  lemma ReleasePrefixShape()
    ensures |ReleasePrefix| > 0 && ReleasePrefix[|ReleasePrefix| - 1] == '/'
    ensures '6' !in ReleasePrefix
  {
    assert '6' !in ReleaseHost && '6' !in ReleaseRepo && '6' !in ReleaseTag;
    assert ReleasePrefix[|ReleasePrefix| - 1] == ReleaseTag[|ReleaseTag| - 1];
  }

  /** Every score TestEvalAssetSuitabilityDarwin expects, under the tests' release prefix. */
  lemma DarwinFixtures()
    ensures EvaluateAssetSuitability(DarwinArm, AssetAt(ReleasePrefix + "direnv.darwin-arm64")) == 7
    ensures EvaluateAssetSuitability(DarwinArm, AssetAt(ReleasePrefix + "pluto_4.2.0_darwin_arm64.tar.gz")) == 9
    ensures EvaluateAssetSuitability(DarwinArm, AssetAt(ReleasePrefix + "ruplacer-osx")) == 5
    ensures EvaluateAssetSuitability(DarwinArm, AssetAt(ReleasePrefix + "croc_9.2.0_macOS-64bit.tar.gz")) == 6
    ensures EvaluateAssetSuitability(DarwinArm, AssetAt(ReleasePrefix + "conftest_0.28.1_Darwin_x86_64.tar.gz")) == 6
    ensures EvaluateAssetSuitability(DarwinArm, AssetAt(ReleasePrefix + "conftest_0.28.1_Darwin_arm64.tar.gz")) == 9
    ensures EvaluateAssetSuitability(DarwinArm, AssetAt(ReleasePrefix + "pandoc-2.14.2-macOS.pkg")) == 6
    ensures EvaluateAssetSuitability(DarwinArm, AssetAt(ReleasePrefix + "gopass-1.15.11-darwin-amd64.tar.gz")) == 6
    ensures EvaluateAssetSuitability(DarwinArm, AssetAt(ReleasePrefix + "gopass-1.15.11-darwin-arm64.tar.gz")) == 9
  {
    ReleasePrefixShape();
    DirenvDarwinScoresSeven(ReleasePrefix);
    PlutoDarwinScoresNine(ReleasePrefix);
    RuplacerDarwinScoresFive(ReleasePrefix);
    CrocDarwinScoresSix(ReleasePrefix);
    ConftestDarwinAmdScoresSix(ReleasePrefix);
    ConftestDarwinScoresNine(ReleasePrefix);
    PandocDarwinScoresSix(ReleasePrefix);
    GopassDarwinAmdScoresSix(ReleasePrefix);
    GopassDarwinScoresNine(ReleasePrefix);
  }

  /** Every score TestEvalAssetSuitabilityLinux expects, under the tests' release prefix. */
  lemma LinuxFixtures()
    ensures EvaluateAssetSuitability(LinuxAmd, AssetAt(ReleasePrefix + "direnv.linux-amd64")) == 7
    ensures EvaluateAssetSuitability(LinuxAmd, AssetAt(ReleasePrefix + "pluto_4.2.0_linux_amd64.tar.gz")) == 9
    ensures EvaluateAssetSuitability(LinuxAmd, AssetAt(ReleasePrefix + "ruplacer-linux")) == 5
    ensures EvaluateAssetSuitability(LinuxAmd, AssetAt(ReleasePrefix + "croc_9.2.0_linuX-64bit.tar.gz")) == 6
    ensures EvaluateAssetSuitability(LinuxAmd, AssetAt(ReleasePrefix + "conftest_0.28.1_Linux_x86_64.tar.gz")) == 9
    ensures EvaluateAssetSuitability(LinuxAmd, AssetAt(ReleasePrefix + "conftest_0.28.1_Linux_arm64.tar.gz")) == 6
    ensures EvaluateAssetSuitability(LinuxAmd, AssetAt(ReleasePrefix + "pandoc-2.14.2-linux.pkg")) == 6
    ensures EvaluateAssetSuitability(LinuxAmd, AssetAt(ReleasePrefix + "gopass-1.15.11-linux-arm64.tar.gz")) == 6
    ensures EvaluateAssetSuitability(LinuxAmd, AssetAt(ReleasePrefix + "gopass-1.15.11-linux-amd64.tar.gz")) == 9
  {
    ReleasePrefixShape();
    DirenvLinuxScoresSeven(ReleasePrefix);
    PlutoLinuxScoresNine(ReleasePrefix);
    RuplacerLinuxScoresFive(ReleasePrefix);
    CrocLinuxScoresSix(ReleasePrefix);
    ConftestLinuxScoresNine(ReleasePrefix);
    ConftestLinuxArmScoresSix(ReleasePrefix);
    PandocLinuxScoresSix(ReleasePrefix);
    GopassLinuxArmScoresSix(ReleasePrefix);
    GopassLinuxScoresNine(ReleasePrefix);
  }
}
