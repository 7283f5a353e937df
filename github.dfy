/**
 * Release assets and the predicates that the selector scores them with.
 * Every predicate is a test on the asset's browser download URL alone.
 */
module GitHub {
  import opened Strs
  import opened Platform

  /** One release artifact as the release API describes it; times are opaque integers. */
  datatype Asset = Asset(
    url: string,
    id: int,
    nodeId: string,
    name: string,
    assetLabel: string,
    contentType: string,
    state: string,
    size: int,
    downloadCount: int,
    createdAt: int,
    updatedAt: int,
    browserDownloadURL: string)

  const DownloadableExtensions: seq<string> := [".zip", ".tar", ".gz", ".xz", ".dmg", ".pkg", ".tgz", ".bz2"]
  const MacIdentifiers: seq<string> := ["mac", "macos", "darwin", "osx", "apple"]
  const LinuxIdentifiers: seq<string> := ["linux"]

  /** The `for _, word := range words { if strings.HasSuffix(s, word) { return true } }` search. */
  function EndsWithAny(s: string, words: seq<string>): (r: bool)
    ensures r <==> exists w :: w in words && HasSuffix(s, w)
  {
    if |words| == 0 then false
    else if HasSuffix(s, words[0]) then true
    else
      assert words == [words[0]] + words[1..];
      EndsWithAny(s, words[1..])
  }

  /** The `for _, word := range words { if strings.Contains(s, word) { return true } }` search. */
  function ContainsAny(s: string, words: seq<string>): (r: bool)
    ensures r <==> exists w :: w in words && Contains(s, w)
  {
    if |words| == 0 then false
    else if Contains(s, words[0]) then
      assert words[0] in words;
      true
    else
      var r := ContainsAny(s, words[1..]);
      assert forall w :: w in words <==> w == words[0] || w in words[1..];
      assert r <==> exists w :: w in words[1..] && Contains(s, w);
      r
  }

  /** The URL ends with an archive suffix; the test is case-sensitive. */
  function IsDownloadableExtension(a: Asset): (r: bool)
    ensures r <==> exists w :: w in DownloadableExtensions && HasSuffix(a.browserDownloadURL, w)
  {
    EndsWithAny(a.browserDownloadURL, DownloadableExtensions)
  }

  /**
   * The final path segment of the URL has no '.'; equivalently, every '.' of
   * the URL is followed later by a '/'.
   */
  function HasNoExtension(a: Asset): (r: bool)
    ensures r <==> DotsBeforeSlash(a.browserDownloadURL)
  {
    NoExtensionDots(a.browserDownloadURL);
    NoExtension(a.browserDownloadURL)
  }

  /** The lower-cased URL names macOS. */
  function IsMacAsset(a: Asset): (r: bool)
    ensures r <==> exists w :: w in MacIdentifiers && Contains(Lower(a.browserDownloadURL), w)
  {
    ContainsAny(Lower(a.browserDownloadURL), MacIdentifiers)
  }

  /** The lower-cased URL names Linux. */
  function IsLinuxAsset(a: Asset): (r: bool)
    ensures r <==> Contains(Lower(a.browserDownloadURL), "linux")
  {
    ContainsAny(Lower(a.browserDownloadURL), LinuxIdentifiers)
  }

  /** The asset is built for the host's OS family; no asset matches an OS other than Darwin or Linux. */
  function IsSameOS(a: Asset, capabilities: Capabilities): (r: bool)
    ensures r <==>
      (capabilities.os == Darwin && exists w :: w in MacIdentifiers && Contains(Lower(a.browserDownloadURL), w)) ||
      (capabilities.os == Linux && Contains(Lower(a.browserDownloadURL), "linux"))
  {
    match capabilities.os
    case 0 => IsMacAsset(a)
    case 1 => IsLinuxAsset(a)
    case _ => false
  }

  /**
   * The asset is built for the host's architecture. The source tests four
   * branches; the third (arm64 host, URL containing "arm64") is already the
   * first, so three conditions remain.
   */
  function IsSameArchitecture(a: Asset, capabilities: Capabilities): (r: bool)
    ensures r <==>
      Contains(Lower(a.browserDownloadURL), Lower(capabilities.arch)) ||
      (capabilities.arch == "amd64" && Contains(Lower(a.browserDownloadURL), "x86_64")) ||
      (capabilities.arch == "arm64" && Contains(Lower(a.browserDownloadURL), "aarch64"))
  {
    var u := Lower(a.browserDownloadURL);
    assert capabilities.arch == "arm64" ==> Lower(capabilities.arch) == "arm64";
    if Contains(u, Lower(capabilities.arch)) then true
    else if capabilities.arch == "amd64" && Contains(u, "x86_64") then true
    else if capabilities.arch == "arm64" && Contains(u, "arm64") then true
    else if capabilities.arch == "arm64" && Contains(u, "aarch64") then true
    else false
  }

  /** Every archive suffix starts with '.' and holds no '/'. */
  lemma ExtensionsAreDotSuffixes()
    ensures forall w :: w in DownloadableExtensions ==> |w| > 0 && w[0] == '.' && '/' !in w
  {
  }

  /** An archive suffix always lies inside the last segment: the two extension tests never both hold. */
  lemma DownloadableHasExtension(a: Asset)
    ensures !(IsDownloadableExtension(a) && HasNoExtension(a))
  {
    if IsDownloadableExtension(a) {
      var w :| w in DownloadableExtensions && HasSuffix(a.browserDownloadURL, w);
      ExtensionsAreDotSuffixes();
      DotSuffixIsExtension(a.browserDownloadURL, w);
    }
  }

  /** "macos" contains "mac", so the macOS test is a test for four tokens. */
  lemma MacIdentifiersRedundant(a: Asset)
    ensures IsMacAsset(a) <==>
      var u := Lower(a.browserDownloadURL);
      Contains(u, "mac") || Contains(u, "darwin") || Contains(u, "osx") || Contains(u, "apple")
  {
    var u := Lower(a.browserDownloadURL);
    if Contains(u, "macos") {
      ContainsPrefixOf(u, "macos", "mac");
    }
    assert "mac" in MacIdentifiers && "darwin" in MacIdentifiers && "osx" in MacIdentifiers && "apple" in MacIdentifiers;
  }

  /** Two assets with the same download URL get the same answer from every predicate. */
  lemma PredicatesReadOnlyTheURL(a: Asset, b: Asset, capabilities: Capabilities)
    requires a.browserDownloadURL == b.browserDownloadURL
    ensures IsDownloadableExtension(a) == IsDownloadableExtension(b)
    ensures HasNoExtension(a) == HasNoExtension(b)
    ensures IsMacAsset(a) == IsMacAsset(b) && IsLinuxAsset(a) == IsLinuxAsset(b)
    ensures IsSameOS(a, capabilities) == IsSameOS(b, capabilities)
    ensures IsSameArchitecture(a, capabilities) == IsSameArchitecture(b, capabilities)
  {
  }
}
