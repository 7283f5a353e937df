/**
 * The first registry at the root of the repository: a JSON file holding a
 * list of (owner, repo, release) entries, searched by repo and updated by an
 * upsert keyed on the repo alone.
 */
module LegacyConfig {
  import opened Wrappers

  datatype LegacyPackage = LegacyPackage(owner: string, repo: string, release: string)

  /** The zero value `kelpPackage{}`. */
  const ZeroLegacyPackage := LegacyPackage("", "", "")

  const NotFoundToAdd := "package not found in config, try adding it first"

  /** The field findKelpConfig and saveToConfig search by. */
  function LegacyRepoOf(p: LegacyPackage): string
  {
    p.repo
  }

  /** Some entry already records this repo at this release. */
  predicate ExactMatch(kc: seq<LegacyPackage>, kp: LegacyPackage)
  {
    exists i :: 0 <= i < |kc| && kc[i].repo == kp.repo && kc[i].release == kp.release
  }

  /**
   * The list saveToConfig writes: unchanged when the repo is already at this
   * release; otherwise the first entry with the repo takes the new release
   * (keeping its own owner); otherwise the package is appended.
   */
  function Upserted(kc: seq<LegacyPackage>, kp: LegacyPackage): (r: seq<LegacyPackage>)
    ensures |kc| <= |r| <= |kc| + 1
    ensures forall j :: 0 <= j < |kc| ==> r[j].owner == kc[j].owner && r[j].repo == kc[j].repo
    ensures |r| > |kc| ==> r[|kc|] == kp
  {
    if ExactMatch(kc, kp) then kc
    else
      match FirstWithRepo(kc, LegacyRepoOf, kp.repo)
      case Some(i) => kc[i := kc[i].(release := kp.release)]
      case None => kc + [kp]
  }

  /** The list grows exactly when no entry has the repo. */
  lemma UpsertedLength(kc: seq<LegacyPackage>, kp: LegacyPackage)
    ensures |Upserted(kc, kp)| == |kc| + 1 <==> forall j :: 0 <= j < |kc| ==> kc[j].repo != kp.repo
  {
    if ExactMatch(kc, kp) {
      var i :| 0 <= i < |kc| && kc[i].repo == kp.repo && kc[i].release == kp.release;
      assert kc[i].repo == kp.repo;
    }
  }

  /** Afterwards the list records the repo at the new release. */
  lemma UpsertedRecords(kc: seq<LegacyPackage>, kp: LegacyPackage)
    ensures ExactMatch(Upserted(kc, kp), kp)
  {
    var r := Upserted(kc, kp);
    if !ExactMatch(kc, kp) {
      match FirstWithRepo(kc, LegacyRepoOf, kp.repo)
      case Some(i) =>
        assert r[i].repo == kp.repo && r[i].release == kp.release;
      case None =>
        assert r[|kc|] == kp;
    }
  }

  /** Saving the same package twice writes the same list as saving it once. */
  lemma UpsertedIdempotent(kc: seq<LegacyPackage>, kp: LegacyPackage)
    ensures Upserted(Upserted(kc, kp), kp) == Upserted(kc, kp)
  {
    UpsertedRecords(kc, kp);
  }

  /** Only the first entry with the repo can change; every other entry keeps its place and value. */
  lemma UpsertedKeepsOthers(kc: seq<LegacyPackage>, kp: LegacyPackage, j: int)
    requires 0 <= j < |kc|
    requires FirstWithRepo(kc, LegacyRepoOf, kp.repo) != Some(j)
    ensures Upserted(kc, kp)[j] == kc[j]
  {
  }

  /**
   * An instance of Upserted's owner clause: bob's "cli" at v2 only changes
   * the release of alice's "cli" entry.
   */
  lemma OwnerIsKept()
    ensures Upserted([LegacyPackage("alice", "cli", "v1")], LegacyPackage("bob", "cli", "v2"))
         == [LegacyPackage("alice", "cli", "v2")]
  {
    var kc := [LegacyPackage("alice", "cli", "v1")];
    var kp := LegacyPackage("bob", "cli", "v2");
    assert !ExactMatch(kc, kp);
    assert FirstWithRepo(kc, LegacyRepoOf, "cli") == Some(0);
  }

  /**
   * What json.Unmarshal leaves behind: the entries it managed to fill in and
   * the error it reports, if any. A value of the wrong type is reported while
   * the rest of the list is still decoded; malformed JSON yields no entries.
   */
  datatype Decoded = Decoded(packages: seq<LegacyPackage>, error: Option<string>)

  /** The config file: what it decodes to and how many times it has been written. */
  class ConfigFile {
    var contents: Decoded
    var writes: nat

    constructor (contents: Decoded)
      ensures this.contents == contents && writes == 0
    {
      this.contents := contents;
      writes := 0;
    }

    /**
     * The list loadKelpConfig yields: the error is only printed, so the
     * entries decoded so far are used as they are.
     */
    function Loaded(): seq<LegacyPackage>
      reads this
    {
      contents.packages
    }

    /** findKelpConfig: the first entry with this repo, or the zero package and an error. */
    method FindKelpConfig(repo: string) returns (kp: LegacyPackage, err: Outcome)
      ensures FirstWithRepo(Loaded(), LegacyRepoOf, repo).Some? ==>
        err == Ok && kp == Loaded()[FirstWithRepo(Loaded(), LegacyRepoOf, repo).value]
      ensures FirstWithRepo(Loaded(), LegacyRepoOf, repo).None? ==> err == Err(NotFoundToAdd) && kp == ZeroLegacyPackage
    {
      var kc := Loaded();
      var i := 0;
      while i < |kc|
        invariant 0 <= i <= |kc|
        invariant forall j :: 0 <= j < i ==> kc[j].repo != repo
      {
        if kc[i].repo == repo {
          return kc[i], Ok;
        }
        i := i + 1;
      }
      return ZeroLegacyPackage, Err(NotFoundToAdd);
    }

    /**
     * saveToConfig: when decoding the file reports an error, the file is left
     * alone and the error returned; otherwise the upserted list is written,
     * once, unless the repo is already recorded at this release.
     */
    method SaveToConfig(kp: LegacyPackage) returns (err: Outcome)
      modifies this
      ensures old(contents).error.Some? ==>
        err == Err(old(contents).error.value) && contents == old(contents) && writes == old(writes)
      ensures old(contents).error.None? ==> err == Ok
      ensures old(contents).error.None? ==> contents == Decoded(Upserted(old(contents).packages, kp), None)
      ensures old(contents).error.None? ==>
        writes == old(writes) + (if ExactMatch(old(contents).packages, kp) then 0 else 1)
    {
      if contents.error.Some? {
        return Err(contents.error.value);
      }
      var kc := contents.packages;

      var matchFound := false;
      var i := 0;
      while i < |kc|
        invariant 0 <= i <= |kc|
        invariant matchFound <==> exists j :: 0 <= j < i && kc[j].repo == kp.repo && kc[j].release == kp.release
      {
        if kp.repo == kc[i].repo && kp.release == kc[i].release {
          matchFound := true;
        }
        i := i + 1;
      }

      var configUpdated := false;
      if !matchFound {
        i := 0;
        while i < |kc|
          invariant 0 <= i <= |kc|
          invariant forall j :: 0 <= j < i ==> kc[j].repo != kp.repo
          invariant contents == old(contents) && writes == old(writes)
        {
          if kp.repo == kc[i].repo {
            kc := kc[i := kc[i].(release := kp.release)];
            contents := Decoded(kc, None);
            writes := writes + 1;
            configUpdated := true;
            break;
          }
          i := i + 1;
        }
      }
      if !matchFound && !configUpdated {
        kc := kc + [kp];
        contents := Decoded(kc, None);
        writes := writes + 1;
      }
      return Ok;
    }
  }
}
