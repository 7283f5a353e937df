/**
 * Asset selection and the two routing decisions of the install path:
 * scoring each asset against the host, keeping those that reach the
 * threshold, taking one with the highest score, deciding how a downloaded
 * file is handled, and choosing which walked files are installed.
 */
module Install {
  import opened Wrappers
  import opened Strs
  import opened Platform
  import opened GitHub
  import Sorting

  /** Score weights and the acceptance threshold. */
  const OSWeight := 4
  const ArchWeight := 3
  const ArchiveWeight := 2
  const BareBinaryWeight := 1
  const Threshold := 6

  /** A key/value pair of the score map: asset index and score. */
  datatype Pair = Pair(key: int, value: int)

  /** A set with a positive size has a member: the next key a map iteration can visit. */
  lemma HasMember(keys: set<int>)
    requires |keys| > 0
    ensures exists k :: k in keys
  {
    if forall k :: k !in keys {
      assert false;
    }
  }

  /**
   * getHighestScore: copies the map into a PairList in the map's iteration
   * order (unspecified, hence chosen with `:|`), sorts it by value and takes
   * the last pair. Which of several maximal keys comes out is not determined.
   */
  method GetHighestScore(assetScores: map<int, int>) returns (highest: Pair)
    requires |assetScores| > 0
    ensures highest.key in assetScores && assetScores[highest.key] == highest.value
    ensures forall k :: k in assetScores ==> assetScores[k] <= highest.value
  {
    var assetsByScore := new Pair[|assetScores|](_ => Pair(0, 0));
    var remaining := assetScores.Keys;
    ghost var position: map<int, int> := map[];
    var i := 0;
    while |remaining| > 0
      invariant remaining <= assetScores.Keys
      invariant i + |remaining| == |assetScores|
      invariant position.Keys == assetScores.Keys - remaining
      invariant forall j :: 0 <= j < i ==>
        assetsByScore[j].key in assetScores && assetsByScore[j].value == assetScores[assetsByScore[j].key]
      invariant forall k :: k in position ==>
        0 <= position[k] < i && assetsByScore[position[k]] == Pair(k, assetScores[k])
      decreases |remaining|
    {
      HasMember(remaining);
      var k :| k in remaining;
      assetsByScore[i] := Pair(k, assetScores[k]);
      position := position[k := i];
      remaining := remaining - {k};
      i := i + 1;
    }
    ghost var filled := assetsByScore[..];
    assert forall k :: k in assetScores ==> Pair(k, assetScores[k]) in multiset(filled) by {
      forall k | k in assetScores ensures Pair(k, assetScores[k]) in multiset(filled) {
        assert filled[position[k]] == Pair(k, assetScores[k]);
      }
    }
    Sorting.SortByKey(assetsByScore, (p: Pair) => p.value);
    var n := assetsByScore.Length;
    highest := assetsByScore[n - 1];
    ghost var sorted := assetsByScore[..];
    assert sorted[n - 1] == highest;
    assert highest in multiset(filled);
    assert forall j :: 0 <= j < n - 1 ==> sorted[j].value <= highest.value;
    forall k | k in assetScores ensures assetScores[k] <= highest.value {
      assert Pair(k, assetScores[k]) in sorted;
    }
  }

  function Weight(holds: bool, weight: int): int
  {
    if holds then weight else 0
  }

  /**
   * evaluateAssetSuitability: the additive score of one asset. The two
   * extension tests never both hold, so the score never exceeds 9, and the
   * OS match alone decides whether the threshold can be reached.
   */
  function EvaluateAssetSuitability(capabilities: Capabilities, asset: Asset): (score: int)
    ensures 0 <= score <= OSWeight + ArchWeight + ArchiveWeight
    ensures score >= Threshold ==> IsSameOS(asset, capabilities)
  {
    DownloadableHasExtension(asset);
    Weight(IsSameOS(asset, capabilities), OSWeight)
      + Weight(IsSameArchitecture(asset, capabilities), ArchWeight)
      + Weight(IsDownloadableExtension(asset), ArchiveWeight)
      + Weight(HasNoExtension(asset), BareBinaryWeight)
  }

  /** Without the OS match, architecture and file kind together reach at most 5, one short of the threshold. */
  lemma ScoreBounds(capabilities: Capabilities, asset: Asset)
    ensures !IsSameOS(asset, capabilities) ==> EvaluateAssetSuitability(capabilities, asset) <= ArchWeight + ArchiveWeight
  {
    DownloadableHasExtension(asset);
  }

  /** Each predicate contributes its weight independently of the others. */
  lemma ScoreIsWeightedSum(capabilities: Capabilities, asset: Asset)
    ensures EvaluateAssetSuitability(capabilities, asset) ==
      (if IsSameOS(asset, capabilities) then 4 else 0) + (if IsSameArchitecture(asset, capabilities) then 3 else 0)
      + (if HasNoExtension(asset) then 1 else if IsDownloadableExtension(asset) then 2 else 0)
  {
    DownloadableHasExtension(asset);
  }

  /**
   * The score map findGithubReleaseMacAssets has built after scoring the
   * first `n` assets with `score`: exactly the indices below `n` whose score
   * reaches the threshold, each mapped to its own score.
   */
  ghost function QualifyingScores(score: Asset -> int, assets: seq<Asset>, n: nat): (m: map<int, int>)
    requires n <= |assets|
    ensures forall k :: k in m <==> 0 <= k < n && score(assets[k]) >= Threshold
    ensures forall k :: k in m ==> m[k] == score(assets[k])
  {
    if n == 0 then map[]
    else
      var before := QualifyingScores(score, assets, n - 1);
      if score(assets[n - 1]) >= Threshold then before[n - 1 := score(assets[n - 1])] else before
  }

  /** One iteration of the scoring loop extends the map by the next asset's score, if that reaches the threshold. */
  lemma QualifyingScoresStep(score: Asset -> int, assets: seq<Asset>, n: nat, before: map<int, int>, s: int, after: map<int, int>)
    requires n < |assets| && before == QualifyingScores(score, assets, n) && s == score(assets[n])
    requires after == if s >= Threshold then before[n := s] else before
    ensures after == QualifyingScores(score, assets, n + 1)
  {
  }

  /** An empty score map after all assets means that no asset reaches the threshold. */
  lemma NoneQualifies(score: Asset -> int, assets: seq<Asset>)
    requires |QualifyingScores(score, assets, |assets|)| == 0
    ensures forall a :: a in assets ==> score(a) < Threshold
  {
    var m := QualifyingScores(score, assets, |assets|);
    assert m == map[];
    forall a | a in assets ensures score(a) < Threshold {
      var k :| 0 <= k < |assets| && assets[k] == a;
      assert k !in m;
    }
  }

  /** A pair of maximal score in the final map names an asset that reaches the threshold and scores highest. */
  lemma MaximalPairIsBest(score: Asset -> int, assets: seq<Asset>, highest: Pair)
    requires highest.key in QualifyingScores(score, assets, |assets|)
    requires QualifyingScores(score, assets, |assets|)[highest.key] == highest.value
    requires forall k :: k in QualifyingScores(score, assets, |assets|) ==>
      QualifyingScores(score, assets, |assets|)[k] <= highest.value
    ensures 0 <= highest.key < |assets|
    ensures score(assets[highest.key]) == highest.value >= Threshold
    ensures forall a :: a in assets ==> score(a) <= highest.value
  {
    var m := QualifyingScores(score, assets, |assets|);
    forall a | a in assets ensures score(a) <= highest.value {
      var k :| 0 <= k < |assets| && assets[k] == a;
      if score(a) >= Threshold {
        assert k in m;
      }
    }
  }

  /**
   * The loop of findGithubReleaseMacAssets, for any scoring function: scores
   * every asset, records those reaching the threshold in a map from index to
   * score, fails when none does, and otherwise returns the asset at the key
   * getHighestScore picks.
   */
  method SelectByScore(assets: seq<Asset>, score: Asset -> int) returns (r: Result<Asset>)
    ensures r.Failure? <==> forall a :: a in assets ==> score(a) < Threshold
    ensures r.Success? ==>
      && r.value in assets
      && score(r.value) >= Threshold
      && forall a :: a in assets ==> score(a) <= score(r.value)
  {
    var assetScores: map<int, int> := map[];
    var index := 0;
    while index < |assets|
      invariant 0 <= index <= |assets|
      invariant assetScores == QualifyingScores(score, assets, index)
    {
      var assetScore := score(assets[index]);
      ghost var before := assetScores;
      if assetScore >= Threshold {
        assetScores := assetScores[index := assetScore];
      }
      QualifyingScoresStep(score, assets, index, before, assetScore, assetScores);
      index := index + 1;
    }
    if |assetScores| == 0 {
      NoneQualifies(score, assets);
      return Failure("could not find a github asset");
    }
    var highest := GetHighestScore(assetScores);
    MaximalPairIsBest(score, assets, highest);
    r := Success(assets[highest.key]);
  }

  /** findGithubReleaseMacAssets: the selection above, scoring with evaluateAssetSuitability. */
  method FindGithubReleaseMacAssets(capabilities: Capabilities, assets: seq<Asset>) returns (r: Result<Asset>)
    ensures r.Failure? <==> forall a :: a in assets ==> EvaluateAssetSuitability(capabilities, a) < Threshold
    ensures r.Success? ==>
      && r.value in assets
      && EvaluateAssetSuitability(capabilities, r.value) >= Threshold
      && forall a :: a in assets ==> EvaluateAssetSuitability(capabilities, a) <= EvaluateAssetSuitability(capabilities, r.value)
  {
    r := SelectByScore(assets, a => EvaluateAssetSuitability(capabilities, a));
  }

  /** What extractPackage does with a downloaded file before any archive is opened. */
  datatype Route =
    | RejectDmg       // the "kelp does not support dmg files" error
    | InstallDirect   // a bare binary: handed to installBinary, extractPackage returns nil
    | Extract         // identified and unpacked by the archive library

  /**
   * The routing of extractPackage: a ".dmg" path is rejected first; a path
   * whose last segment has no '.' is installed as it is; anything else is
   * extracted.
   */
  function ExtractRoute(downloadPath: string): (route: Route)
    ensures route == RejectDmg <==> HasSuffix(downloadPath, ".dmg")
    ensures route == InstallDirect <==> DotsBeforeSlash(downloadPath)
    ensures route == Extract <==> !HasSuffix(downloadPath, ".dmg") && !DotsBeforeSlash(downloadPath)
  {
    NoExtensionDots(downloadPath);
    if HasSuffix(downloadPath, ".dmg") then
      DotSuffixIsExtension(downloadPath, ".dmg");
      RejectDmg
    else if NoExtension(downloadPath) then InstallDirect
    else Extract
  }

  /** One file of the walked extraction directory, with the MIME type detected for it. */
  datatype WalkedFile = WalkedFile(path: string, mime: string)

  /** filepath.Join of a directory and a single file name. */
  function JoinPath(dir: string, name: string): string
  {
    dir + "/" + name
  }

  /** Where installBinary copies a file: the bin directory plus the file's last path segment. */
  function Destination(binDir: string, file: WalkedFile): string
  {
    JoinPath(binDir, LastSegment(file.path))
  }

  /** The destinations installBinary reports for a walk, in walk order; never more than the walked files. */
  function Destinations(binDir: string, files: seq<WalkedFile>, executableMime: string): (ds: seq<string>)
    ensures |ds| <= |files|
  {
    if |files| == 0 then []
    else
      var last := files[|files| - 1];
      Destinations(binDir, files[..|files| - 1], executableMime)
        + (if last.mime == executableMime then [Destination(binDir, last)] else [])
  }

  /** The positions of the walked files whose MIME type is the executable one. */
  ghost function ExecutablePositions(files: seq<WalkedFile>, executableMime: string): set<int>
  {
    set i | 0 <= i < |files| && files[i].mime == executableMime
  }

  /** The destinations of two walks in a row are those of the first followed by those of the second. */
  lemma {:induction false} DestinationsAppend(binDir: string, xs: seq<WalkedFile>, ys: seq<WalkedFile>, executableMime: string)
    ensures Destinations(binDir, xs + ys, executableMime) ==
            Destinations(binDir, xs, executableMime) + Destinations(binDir, ys, executableMime)
  {
    if |ys| > 0 {
      var zs := ys[..|ys| - 1];
      assert (xs + ys)[..|xs + ys| - 1] == xs + zs;
      assert (xs + ys)[|xs + ys| - 1] == ys[|ys| - 1];
      DestinationsAppend(binDir, xs, zs, executableMime);
    } else {
      assert xs + ys == xs;
    }
  }

  /** A destination is reported exactly for the walked files whose MIME type is the executable one. */
  lemma {:induction false} DestinationsMembers(binDir: string, files: seq<WalkedFile>, executableMime: string, d: string)
    ensures d in Destinations(binDir, files, executableMime) <==>
            exists f :: f in files && f.mime == executableMime && d == Destination(binDir, f)
  {
    if |files| > 0 {
      var init := files[..|files| - 1];
      DestinationsMembers(binDir, init, executableMime, d);
      assert files == init + [files[|files| - 1]];
      assert forall f :: f in files <==> f in init || f == files[|files| - 1];
    }
  }

  /** There is exactly one destination per executable file, and none for any other file. */
  lemma {:induction false} DestinationsCount(binDir: string, files: seq<WalkedFile>, executableMime: string)
    ensures |Destinations(binDir, files, executableMime)| == |ExecutablePositions(files, executableMime)|
  {
    if |files| > 0 {
      var n := |files| - 1;
      var init := files[..n];
      DestinationsCount(binDir, init, executableMime);
      var before := ExecutablePositions(init, executableMime);
      assert n !in before;
      if files[n].mime == executableMime {
        assert ExecutablePositions(files, executableMime) == before + {n};
      } else {
        assert ExecutablePositions(files, executableMime) == before;
      }
    }
  }

  /**
   * installBinary after the walk: every file whose detected MIME type is the
   * host's executable type is copied into the bin directory and its
   * destination appended; every other file is skipped.
   */
  method InstallBinary(binDir: string, files: seq<WalkedFile>, executableMime: string) returns (destinations: seq<string>)
    ensures destinations == Destinations(binDir, files, executableMime)
  {
    destinations := [];
    for i := 0 to |files|
      invariant destinations == Destinations(binDir, files[..i], executableMime)
    {
      var file := files[i];
      assert files[..i + 1][..i] == files[..i];
      if file.mime == executableMime {
        var fileName := LastSegment(file.path);
        destinations := destinations + [JoinPath(binDir, fileName)];
      }
    }
    assert files[..|files|] == files;
  }
}
