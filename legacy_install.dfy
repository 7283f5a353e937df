/**
 * The first, macOS-only installer at the root of the repository. It keeps
 * the archive-suffix and no-extension tests of the current selector, but
 * filters assets instead of scoring them, tests the macOS tokens
 * case-sensitively, and runs every matching unpacking branch in turn.
 */
module LegacyInstall {
  import opened Wrappers
  import opened Strs
  import opened GitHub

  const LegacyMacIdentifiers: seq<string> := ["mac", "macOs", "macos", "darwin", "osx"]

  /** The URL contains one of the macOS tokens, compared case-sensitively. */
  function LegacyIsMacAsset(a: Asset): (r: bool)
    ensures r <==> exists w :: w in LegacyMacIdentifiers && Contains(a.browserDownloadURL, w)
  {
    ContainsAny(a.browserDownloadURL, LegacyMacIdentifiers)
  }

  /** Lower-casing an old token gives one of the current tokens. */
  lemma LegacyTokensLowered(w: string)
    requires w in LegacyMacIdentifiers
    ensures Lower(w) in MacIdentifiers
  {
    if w == "macOs" {
      assert Lower(w) == "macos";
    } else {
      LowerOfLower(w);
    }
  }

  /** Every asset the old token test accepts, the current lower-cased test accepts too. */
  lemma LegacyMacIsMac(a: Asset)
    requires LegacyIsMacAsset(a)
    ensures IsMacAsset(a)
  {
    var w :| w in LegacyMacIdentifiers && Contains(a.browserDownloadURL, w);
    ContainsLower(a.browserDownloadURL, w);
    LegacyTokensLowered(w);
  }

  /** A URL without 'c', 'd' or 'o' holds none of the old tokens. */
  lemma NoLegacyToken(a: Asset)
    requires 'c' !in a.browserDownloadURL && 'd' !in a.browserDownloadURL && 'o' !in a.browserDownloadURL
    ensures !LegacyIsMacAsset(a)
  {
    var u := a.browserDownloadURL;
    forall w | w in LegacyMacIdentifiers
      ensures !Contains(u, w)
    {
      if w == "darwin" {
        NotContainsWithoutChar(u, w, 'd');
      } else if w == "osx" {
        NotContainsWithoutChar(u, w, 'o');
      } else {
        assert w[2] == 'c';
        NotContainsWithoutChar(u, w, 'c');
      }
    }
  }

  /** "Darwin" anywhere in the URL makes it a macOS asset of the current test. */
  lemma CapitalDarwinIsMac(a: Asset, p: string, q: string)
    requires a.browserDownloadURL == p + "Darwin" + q
    ensures IsMacAsset(a)
  {
    assert Contains(Lower("Darwin"), "darwin") by {
      assert Lower("Darwin") == "darwin";
      assert OccursAt("darwin", "darwin", 0);
    }
    LowerAppend(p, "Darwin");
    LowerAppend(p + "Darwin", q);
    ContainsInside(Lower(p), Lower("Darwin"), Lower(q), "darwin");
    assert "darwin" in MacIdentifiers;
  }

  /**
   * The converse of LegacyMacIsMac fails: a URL that names the OS only as
   * "Darwin", with no 'c', 'd' or 'o' elsewhere, is a macOS asset now but
   * was not one then.
   */
  lemma CapitalDarwin(a: Asset, p: string, q: string)
    requires a.browserDownloadURL == p + "Darwin" + q
    requires 'c' !in p + q && 'd' !in p + q && 'o' !in p + q
    ensures IsMacAsset(a) && !LegacyIsMacAsset(a)
  {
    assert 'c' !in "Darwin" && 'd' !in "Darwin" && 'o' !in "Darwin";
    NoLegacyToken(a);
    CapitalDarwinIsMac(a, p, q);
  }

  /**
   * Whether the old filter keeps an asset: a macOS asset that is an archive
   * or has no extension. A kept asset passes the current macOS test too, and
   * passes exactly one of the two file tests.
   */
  function Kept(a: Asset): (r: bool)
    ensures r ==> IsMacAsset(a)
    ensures r ==> IsDownloadableExtension(a) != HasNoExtension(a)
  {
    DownloadableHasExtension(a);
    if LegacyIsMacAsset(a) then
      LegacyMacIsMac(a);
      IsDownloadableExtension(a) || HasNoExtension(a)
    else false
  }

  /** The assets the old filter keeps, in their original order. */
  function KeptAssets(assets: seq<Asset>): (r: seq<Asset>)
    ensures |r| <= |assets|
    ensures forall k :: 0 <= k < |r| ==> Kept(r[k])
  {
    if |assets| == 0 then []
    else
      var last := assets[|assets| - 1];
      KeptAssets(assets[..|assets| - 1]) + (if Kept(last) then [last] else [])
  }

  /** An asset is in the result exactly when it is in the input and kept. */
  lemma {:induction false} KeptAssetsMembers(assets: seq<Asset>, a: Asset)
    ensures a in KeptAssets(assets) <==> a in assets && Kept(a)
  {
    if |assets| > 0 {
      var init := assets[..|assets| - 1];
      KeptAssetsMembers(init, a);
      assert assets == init + [assets[|assets| - 1]];
    }
  }

  /** The result is empty exactly when no asset is kept. */
  lemma KeptAssetsEmpty(assets: seq<Asset>)
    ensures |KeptAssets(assets)| == 0 <==> forall i :: 0 <= i < |assets| ==> !Kept(assets[i])
  {
    if |KeptAssets(assets)| == 0 {
      forall i | 0 <= i < |assets|
        ensures !Kept(assets[i])
      {
        KeptAssetsMembers(assets, assets[i]);
      }
    } else {
      var a := KeptAssets(assets)[0];
      KeptAssetsMembers(assets, a);
    }
  }

  /**
   * The old findGithubReleaseMacAssets: two independent tests per asset, an
   * archive test and a no-extension test, each appending the asset. The two
   * never both hold, so no asset is appended twice.
   */
  method LegacyFindMacAssets(assets: seq<Asset>) returns (downloadable: seq<Asset>)
    ensures downloadable == KeptAssets(assets)
  {
    downloadable := [];
    for i := 0 to |assets|
      invariant downloadable == KeptAssets(assets[..i])
    {
      var asset := assets[i];
      assert assets[..i + 1][..i] == assets[..i];
      DownloadableHasExtension(asset);
      if LegacyIsMacAsset(asset) && IsDownloadableExtension(asset) {
        downloadable := downloadable + [asset];
      }
      if LegacyIsMacAsset(asset) && HasNoExtension(asset) {
        downloadable := downloadable + [asset];
      }
    }
    assert assets[..|assets|] == assets;
  }

  const NoMacAssets := "Could not find a github asset with mac binaries"

  /**
   * The selection step of the old downloadGithubRelease, given the release's
   * assets: the filtered list, with an error exactly when it is empty.
   */
  method LegacyDownloadGithubRelease(releaseAssets: seq<Asset>) returns (selected: seq<Asset>, err: Outcome)
    ensures selected == KeptAssets(releaseAssets)
    ensures err.Err? <==> |selected| == 0
    ensures err.Err? ==> err == Err(NoMacAssets)
  {
    selected := LegacyFindMacAssets(releaseAssets);
    if |selected| == 0 {
      return selected, Err(NoMacAssets);
    }
    return selected, Ok;
  }

  /**
   * Which `if`s of the old extractPackage run for a path, field by field in
   * source order. The branches are independent: every one whose test holds runs.
   */
  datatype Branches = Branches(
    unarchiveTarGz: bool,  // ".tar.gz": the archive library
    unarchiveBz2: bool,    // ".bz2": the archive library
    untarTgz: bool,        // ".tgz": Untar
    unxz: bool,            // ".xz": Unxz
    untarGz: bool,         // ".gz": Untar
    unzip: bool,           // ".zip": Unzip
    skipDmg: bool,         // ".dmg": a message, and nothing else
    installBare: bool)     // no '.' in the last segment: installBinary on the file itself

  const NoBranch := Branches(false, false, false, false, false, false, false, false)

  /** Some branch that unpacks an archive runs. */
  predicate Unpacks(b: Branches)
  {
    b.unarchiveTarGz || b.unarchiveBz2 || b.untarTgz || b.unxz || b.untarGz || b.unzip
  }

  /** The old extractPackage: every `if` is tested, and every one that holds runs. */
  method LegacyExtractPackage(downloadPath: string) returns (run: Branches)
    ensures run.unarchiveTarGz <==> HasSuffix(downloadPath, ".tar.gz")
    ensures run.unarchiveBz2 <==> HasSuffix(downloadPath, ".bz2")
    ensures run.untarTgz <==> HasSuffix(downloadPath, ".tgz")
    ensures run.unxz <==> HasSuffix(downloadPath, ".xz")
    ensures run.untarGz <==> HasSuffix(downloadPath, ".gz")
    ensures run.unzip <==> HasSuffix(downloadPath, ".zip")
    ensures run.skipDmg <==> HasSuffix(downloadPath, ".dmg")
    ensures run.installBare <==> DotsBeforeSlash(downloadPath)
    ensures run.installBare ==> !Unpacks(run) && !run.skipDmg
    ensures run.unarchiveTarGz ==> run.untarGz
  {
    run := NoBranch;
    if HasSuffix(downloadPath, ".tar.gz") {
      run := run.(unarchiveTarGz := true);
    }
    if HasSuffix(downloadPath, ".bz2") {
      run := run.(unarchiveBz2 := true);
    }
    if HasSuffix(downloadPath, ".tgz") {
      run := run.(untarTgz := true);
    }
    if HasSuffix(downloadPath, ".xz") {
      run := run.(unxz := true);
    }
    if HasSuffix(downloadPath, ".gz") {
      run := run.(untarGz := true);
    }
    if HasSuffix(downloadPath, ".zip") {
      run := run.(unzip := true);
    }
    if HasSuffix(downloadPath, ".dmg") {
      run := run.(skipDmg := true);
    }
    var fileName := LastSegment(downloadPath);
    if !Contains(fileName, ".") {
      run := run.(installBare := true);
    }
    NoExtensionDots(downloadPath);
    BareHasNoSuffix(downloadPath);
    TarGzEndsInGz(downloadPath);
  }

  /** A path ending in ".tar.gz" also ends in ".gz", so both of those branches run on it. */
  lemma TarGzEndsInGz(downloadPath: string)
    ensures HasSuffix(downloadPath, ".tar.gz") ==> HasSuffix(downloadPath, ".gz")
  {
    if HasSuffix(downloadPath, ".tar.gz") {
      var n := |downloadPath|;
      assert downloadPath[n - 3..] == downloadPath[n - 7..][4..];
    }
  }

  /** A path whose last segment has no '.' ends in none of the tested suffixes. */
  lemma BareHasNoSuffix(downloadPath: string)
    ensures NoExtension(downloadPath) ==>
      !HasSuffix(downloadPath, ".tar.gz") && !HasSuffix(downloadPath, ".bz2") &&
      !HasSuffix(downloadPath, ".tgz") && !HasSuffix(downloadPath, ".xz") &&
      !HasSuffix(downloadPath, ".gz") && !HasSuffix(downloadPath, ".zip") &&
      !HasSuffix(downloadPath, ".dmg")
  {
    DotSuffixExcludesBare(downloadPath, ".tar.gz");
    DotSuffixExcludesBare(downloadPath, ".bz2");
    DotSuffixExcludesBare(downloadPath, ".tgz");
    DotSuffixExcludesBare(downloadPath, ".xz");
    DotSuffixExcludesBare(downloadPath, ".gz");
    DotSuffixExcludesBare(downloadPath, ".zip");
    DotSuffixExcludesBare(downloadPath, ".dmg");
  }

  /** A path that ends in a '.'-suffix without '/' has an extension. */
  lemma DotSuffixExcludesBare(downloadPath: string, w: string)
    requires |w| > 0 && w[0] == '.' && '/' !in w
    ensures NoExtension(downloadPath) ==> !HasSuffix(downloadPath, w)
  {
    if HasSuffix(downloadPath, w) {
      DotSuffixIsExtension(downloadPath, w);
    }
  }

  /** ".dmg" only prints a message: no branch unpacks or installs anything, and nothing fails. */
  lemma DmgOnlySkips(p: string)
    ensures var s := p + ".dmg";
      HasSuffix(s, ".dmg") &&
      !HasSuffix(s, ".tar.gz") && !HasSuffix(s, ".bz2") && !HasSuffix(s, ".tgz") &&
      !HasSuffix(s, ".xz") && !HasSuffix(s, ".gz") && !HasSuffix(s, ".zip") &&
      !DotsBeforeSlash(s)
  {
    var s := p + ".dmg";
    var n := |s|;
    assert s[n - 4..] == ".dmg";
    assert s[n - 2] == 'm' && s[n - 3] == 'd';
    DotSuffixIsExtension(s, ".dmg");
    NoExtensionDots(s);
  }

  /** ".tar.gz" runs exactly two branches: the archive library, then Untar on the same file. */
  lemma TarGzRunsTwice(p: string)
    ensures var s := p + ".tar.gz";
      HasSuffix(s, ".tar.gz") && HasSuffix(s, ".gz") &&
      !HasSuffix(s, ".bz2") && !HasSuffix(s, ".tgz") && !HasSuffix(s, ".xz") &&
      !HasSuffix(s, ".zip") && !HasSuffix(s, ".dmg") && !DotsBeforeSlash(s)
  {
    var s := p + ".tar.gz";
    var n := |s|;
    assert s[n - 7..] == ".tar.gz";
    assert s[n - 3..] == ".gz" && s[n - 4] == 'r' && s[n - 2] == 'g';
    DotSuffixIsExtension(s, ".gz");
    NoExtensionDots(s);
  }
}
