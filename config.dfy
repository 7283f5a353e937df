/**
 * The package registry: the list of installed packages kept in the config
 * file, and the operations that look packages up, add, remove and update
 * them, list them by date and check that their binaries are on the path.
 * Loading and saving the JSON file, the clock and the path lookup are
 * outside the model: the loaded list is the constructor's argument, the
 * time is a parameter and the lookup is a function passed in.
 */
module Config {
  import opened Wrappers
  import opened Strs
  import opened Sorting

  /** One registry entry. `updatedAt` is a timestamp; 0 stands for Go's zero time. */
  datatype Package = Package(
    owner: string,
    repo: string,
    release: string,
    updatedAt: int,
    description: string,
    binary: string)

  /** The zero value `KelpPackage{}`. */
  const ZeroPackage := Package("", "", "", 0, "", "")

  const NotFoundToAdd := "package not found in config, try adding it first"
  const NotFound := "package not found in config"
  const AlreadyExists := "package already exists in config"

  /** The identity of a package: its owner and repo. */
  function Key(p: Package): (string, string)
  {
    (p.owner, p.repo)
  }

  /** No two entries share an owner and a repo. */
  ghost predicate UniqueKeys(ps: seq<Package>)
  {
    forall i, j :: 0 <= i < j < |ps| ==> Key(ps[i]) != Key(ps[j])
  }

  /** The key that List sorts by. */
  function UpdatedAtOf(p: Package): int
  {
    p.updatedAt
  }

  /**
   * Whether GetPackage's argument selects `p`: an argument with a '/' names
   * the owner and the repo (the first two pieces), one without names the
   * repo alone, whatever the owner.
   */
  function Selects(arg: string, p: Package): (r: bool)
    ensures '/' !in arg ==> (r <==> p.repo == arg)
  {
    SplitMany(arg, '/');
    var parts := Split(arg, '/');
    if |parts| > 1 then p.owner == parts[0] && p.repo == parts[1] else p.repo == arg
  }

  /**
   * "owner/repo" selects exactly the entry with that owner and repo: an entry
   * with the same repo under another owner is not a match.
   */
  lemma SelectsOwnerRepo(owner: string, repo: string, p: Package)
    requires '/' !in owner && '/' !in repo
    ensures Selects(owner + "/" + repo, p) <==> Key(p) == (owner, repo)
  {
    SplitAround(owner, repo, '/');
  }

  /** The field FirstWithRepo searches by. */
  function RepoOf(p: Package): string
  {
    p.repo
  }

  /**
   * The entry SetPackage writes: each non-empty argument replaces its field,
   * and a new release also stamps the entry with the current time.
   */
  function Updated(p: Package, release: string, description: string, binary: string, now: int): (r: Package)
    ensures Key(r) == Key(p)
    ensures release != "" ==> r.release == release && r.updatedAt == now
    ensures release == "" ==> r.release == p.release && r.updatedAt == p.updatedAt
    ensures description != "" ==> r.description == description
    ensures description == "" ==> r.description == p.description
    ensures binary != "" ==> r.binary == binary
    ensures binary == "" ==> r.binary == p.binary
  {
    var withRelease := if release != "" then p.(release := release, updatedAt := now) else p;
    var withDescription := if description != "" then withRelease.(description := description) else withRelease;
    if binary != "" then withDescription.(binary := binary) else withDescription
  }

  /** Replacing one entry by one with the same key keeps the keys distinct. */
  lemma UpdateKeepsUniqueKeys(ps: seq<Package>, i: int, p: Package)
    requires 0 <= i < |ps| && Key(p) == Key(ps[i]) && UniqueKeys(ps)
    ensures UniqueKeys(ps[i := p])
  {
    var qs := ps[i := p];
    forall x, y | 0 <= x < y < |qs|
      ensures Key(qs[x]) != Key(qs[y])
    {
      assert Key(qs[x]) == Key(ps[x]) && Key(qs[y]) == Key(ps[y]);
    }
  }

  /** Dropping one entry keeps the keys distinct. */
  lemma {:induction false} RemoveKeepsUniqueKeys(ps: seq<Package>, i: int)
    requires 0 <= i < |ps| && UniqueKeys(ps)
    ensures UniqueKeys(ps[..i] + ps[i + 1..])
  {
    var qs := ps[..i] + ps[i + 1..];
    forall x, y | 0 <= x < y < |qs|
      ensures Key(qs[x]) != Key(qs[y])
    {
      var x' := if x < i then x else x + 1;
      var y' := if y < i then y else y + 1;
      assert qs[x] == ps[x'] && qs[y] == ps[y'] && x' < y';
    }
  }

  /** A value that occurs twice in a sequence sits at two different offsets. */
  lemma {:induction false} TwiceAtTwoOffsets<T>(s: seq<T>, x: T)
    requires multiset(s)[x] >= 2
    ensures exists a, b :: 0 <= a < b < |s| && s[a] == x && s[b] == x
  {
    assert x in multiset(s);
    var a :| 0 <= a < |s| && s[a] == x;
    assert s == s[..a] + [s[a]] + s[a + 1..];
    assert multiset(s) == multiset(s[..a]) + multiset([x]) + multiset(s[a + 1..]);
    if x in s[..a] {
      var b :| 0 <= b < a && s[..a][b] == x;
      assert s[b] == x;
    } else {
      assert x in multiset(s[a + 1..]);
      var b :| 0 <= b < |s[a + 1..]| && s[a + 1..][b] == x;
      assert s[a + 1 + b] == x;
    }
  }

  /** Two offsets of a reordering are images of two different offsets of the original. */
  lemma {:induction false} DistinctOrigins<T>(ps: seq<T>, qs: seq<T>, x: int, y: int) returns (a: int, b: int)
    requires multiset(ps) == multiset(qs) && 0 <= x < y < |qs|
    ensures 0 <= a < |ps| && 0 <= b < |ps| && a != b && ps[a] == qs[x] && ps[b] == qs[y]
  {
    if qs[x] == qs[y] {
      assert multiset(qs)[qs[x]] >= 2 by {
        assert qs == qs[..y] + [qs[y]] + qs[y + 1..];
        assert qs[x] in qs[..y];
        assert multiset(qs) == multiset(qs[..y]) + multiset([qs[y]]) + multiset(qs[y + 1..]);
      }
      TwiceAtTwoOffsets(ps, qs[x]);
      a, b :| 0 <= a < b < |ps| && ps[a] == qs[x] && ps[b] == qs[x];
    } else {
      assert qs[x] in multiset(ps) && qs[y] in multiset(ps);
      a :| 0 <= a < |ps| && ps[a] == qs[x];
      b :| 0 <= b < |ps| && ps[b] == qs[y];
    }
  }

  /** A reordering of a list with distinct keys still has distinct keys. */
  lemma {:induction false} PermutationKeepsUniqueKeys(ps: seq<Package>, qs: seq<Package>)
    requires multiset(ps) == multiset(qs) && UniqueKeys(ps)
    ensures UniqueKeys(qs)
  {
    forall x, y | 0 <= x < y < |qs|
      ensures Key(qs[x]) != Key(qs[y])
    {
      var a, b := DistinctOrigins(ps, qs, x, y);
      if a > b {
        assert Key(ps[b]) != Key(ps[a]);
      }
    }
  }

  /**
   * A package appended by AddPackage is what GetPackage("owner/repo") then
   * returns: no earlier entry has its owner and repo.
   */
  lemma AddedIsFound(ps: seq<Package>, owner: string, repo: string, release: string, now: int)
    requires '/' !in owner && '/' !in repo
    requires forall i :: 0 <= i < |ps| ==> Key(ps[i]) != (owner, repo)
    ensures var added := ps + [Package(owner, repo, release, now, "", "")];
      Selects(owner + "/" + repo, added[|ps|]) &&
      forall j :: 0 <= j < |ps| ==> !Selects(owner + "/" + repo, added[j])
  {
    var added := ps + [Package(owner, repo, release, now, "", "")];
    SelectsOwnerRepo(owner, repo, added[|ps|]);
    forall j | 0 <= j < |ps|
      ensures !Selects(owner + "/" + repo, added[j])
    {
      SelectsOwnerRepo(owner, repo, added[j]);
    }
  }

  // ---- The release label that List prints ----

  /** A character the regex `[/v-]` accepts. */
  predicate IsMarker(c: char)
  {
    c == '/' || c == 'v' || c == '-'
  }

  /** A character the regex `[\d.]` accepts. */
  predicate IsVersionChar(c: char)
  {
    '0' <= c <= '9' || c == '.'
  }

  /** The regex `[/v-]([\d.]+)` matches starting at offset `i`. */
  predicate MatchesAt(s: string, i: int)
  {
    0 <= i && i + 1 < |s| && IsMarker(s[i]) && IsVersionChar(s[i + 1])
  }

  /** Where the greedy run of version characters starting at `k` ends. */
  function RunEnd(s: string, k: nat): (e: nat)
    requires k <= |s|
    ensures k <= e <= |s|
    ensures forall j :: k <= j < e ==> IsVersionChar(s[j])
    ensures e == |s| || !IsVersionChar(s[e])
    decreases |s| - k
  {
    if k == |s| || !IsVersionChar(s[k]) then k else RunEnd(s, k + 1)
  }

  /** The leftmost offset at or after `i` where the regex matches. */
  function SearchFrom(s: string, i: nat): (r: Option<nat>)
    requires i <= |s|
    ensures r.Some? ==> i <= r.value && MatchesAt(s, r.value)
    ensures r.Some? ==> forall j :: i <= j < r.value ==> !MatchesAt(s, j)
    ensures r.None? <==> forall j :: i <= j < |s| ==> !MatchesAt(s, j)
    decreases |s| - i
  {
    if i == |s| then None
    else if MatchesAt(s, i) then Some(i)
    else SearchFrom(s, i + 1)
  }

  /**
   * The capture group of `regexp.FindStringSubmatch` for `[/v-]([\d.]+)`:
   * at the leftmost offset where the pattern matches, the longest run of
   * digits and dots after the marker.
   */
  function FindVersion(s: string): (r: Option<string>)
    ensures r.None? <==> forall i :: 0 <= i < |s| ==> !MatchesAt(s, i)
    ensures r.Some? ==> exists i, e ::
      MatchesAt(s, i) && (forall j :: 0 <= j < i ==> !MatchesAt(s, j)) &&
      i + 1 < e <= |s| && r.value == s[i + 1..e] && (e == |s| || !IsVersionChar(s[e]))
    ensures r.Some? ==> |r.value| > 0 && forall k :: 0 <= k < |r.value| ==> IsVersionChar(r.value[k])
  {
    match SearchFrom(s, 0)
    case None => None
    case Some(i) =>
      var e := RunEnd(s, i + 1);
      var v := s[i + 1..e];
      assert forall k :: 0 <= k < |v| ==> v[k] == s[i + 1 + k];
      assert MatchesAt(s, i) && (forall j :: 0 <= j < i ==> !MatchesAt(s, j));
      assert i + 1 < e <= |s| && v == s[i + 1..e] && (e == |s| || !IsVersionChar(s[e]));
      Some(v)
  }

  /**
   * In a text whose first match follows the prefix `p`, the version found is
   * the whole run `v` of digits and dots after the marker.
   */
  lemma VersionAfterMarker(p: string, m: char, v: string, q: string)
    requires forall j :: 0 <= j < |p| ==> !MatchesAt(p, j)
    requires IsMarker(m) && |v| > 0 && forall k :: 0 <= k < |v| ==> IsVersionChar(v[k])
    requires |q| == 0 || !IsVersionChar(q[0])
    ensures FindVersion(p + [m] + v + q) == Some(v)
  {
    var s := p + [m] + v + q;
    var n := |p|;
    forall j | 0 <= j < n
      ensures !MatchesAt(s, j)
    {
      if j + 1 < n {
        assert s[j] == p[j] && s[j + 1] == p[j + 1];
        assert !MatchesAt(p, j);
      } else {
        assert s[j + 1] == m;
      }
    }
    assert MatchesAt(s, n) by {
      assert s[n] == m && s[n + 1] == v[0];
    }
    assert SearchFrom(s, 0) == Some(n);
    forall k | n + 1 <= k < n + 1 + |v|
      ensures IsVersionChar(s[k])
    {
      assert s[k] == v[k - n - 1];
    }
    assert n + 1 + |v| == |s| || s[n + 1 + |v|] == q[0];
    RunEndOfRun(s, n + 1, n + 1 + |v|);
    assert s[n + 1..n + 1 + |v|] == v;
  }

  /** RunEnd stops exactly at the end of a maximal run. */
  lemma {:induction false} RunEndOfRun(s: string, k: nat, e: nat)
    requires k <= e <= |s|
    requires forall j :: k <= j < e ==> IsVersionChar(s[j])
    requires e == |s| || !IsVersionChar(s[e])
    ensures RunEnd(s, k) == e
    decreases e - k
  {
    if k < e {
      RunEndOfRun(s, k + 1, e);
    }
  }

  /** How List shows a release: a URL by the version found in it, anything else verbatim. */
  function ReleaseLabel(release: string): (shown: string)
    ensures !HasPrefix(release, "http") ==> shown == release
    ensures HasPrefix(release, "http") && FindVersion(release).Some? ==>
      shown == FindVersion(release).value + " (https)"
    ensures HasPrefix(release, "http") && FindVersion(release).None? ==> shown == "unknown (https)"
  {
    if HasPrefix(release, "http") then
      match FindVersion(release)
      case Some(v) => v + " (https)"
      case None => "unknown (https)"
    else release
  }

  /** One line of List's table; the date column's formatting is not modelled. */
  datatype Row = Row(name: string, release: string, updatedAt: int)

  /** "owner/repo" splits back into the owner and the repo when neither holds a '/'. */
  lemma OwnerRepoSplits(owner: string, repo: string)
    ensures '/' !in owner && '/' !in repo ==> Split(owner + "/" + repo, '/') == [owner, repo]
  {
    if '/' !in owner && '/' !in repo {
      assert owner + "/" + repo == owner + ['/'] + repo;
      SplitAround(owner, repo, '/');
    }
  }

  /** A URL release is labelled with the " (https)" marker, whether or not a version was found. */
  lemma HttpsLabel(release: string)
    ensures HasPrefix(release, "http") ==> HasSuffix(ReleaseLabel(release), " (https)")
  {
    var shown := ReleaseLabel(release);
    if HasPrefix(release, "http") {
      var v := if FindVersion(release).Some? then FindVersion(release).value else "unknown";
      assert shown == v + " (https)";
      assert shown[|shown| - |" (https)"|..] == " (https)";
    }
  }

  /**
   * The row List prints for one entry: "owner/repo", the release label and
   * the date.
   */
  function RowOf(p: Package): (r: Row)
    ensures '/' !in p.owner && '/' !in p.repo ==> Split(r.name, '/') == [p.owner, p.repo]
    ensures !HasPrefix(p.release, "http") ==> r.release == p.release
    ensures HasPrefix(p.release, "http") ==> HasSuffix(r.release, " (https)")
    ensures r.updatedAt == p.updatedAt
  {
    OwnerRepoSplits(p.owner, p.repo);
    HttpsLabel(p.release);
    Row(p.owner + "/" + p.repo, ReleaseLabel(p.release), p.updatedAt)
  }

  /** The rows List prints for `ps`, one per entry, in order. */
  method TableRows(ps: seq<Package>) returns (rows: seq<Row>)
    ensures |rows| == |ps|
    ensures forall i :: 0 <= i < |ps| ==> rows[i] == RowOf(ps[i])
  {
    rows := [];
    var i := 0;
    while i < |ps|
      invariant 0 <= i <= |ps|
      invariant |rows| == i
      invariant forall k :: 0 <= k < i ==> rows[k] == RowOf(ps[k])
    {
      rows := rows + [RowOf(ps[i])];
      i := i + 1;
    }
  }

  // ---- Doctor ----

  datatype Status = BinaryNotFound | Installed | InstalledOutsideKelp

  /** The command Doctor looks for: the binary's alias if set, else the repo name. */
  function BinaryName(p: Package): (name: string)
    ensures p.binary != "" ==> name == p.binary
    ensures p.binary == "" ==> name == p.repo
  {
    if p.binary != "" then p.binary else p.repo
  }

  /** The status Doctor reports for a lookup result. */
  function StatusOf(binDir: string, found: Option<string>): (s: Status)
    ensures s == BinaryNotFound <==> found.None?
    ensures s == Installed <==> found.Some? && HasPrefix(found.value, binDir)
    ensures s == InstalledOutsideKelp <==> found.Some? && !HasPrefix(found.value, binDir)
  {
    match found
    case None => BinaryNotFound
    case Some(path) => if HasPrefix(path, binDir) then Installed else InstalledOutsideKelp
  }

  /** One line of Doctor's table. */
  datatype Check = Check(binary: string, status: Status)

  /** The registry: the file it was loaded from and its entries. */
  class KelpConfig {
    const path: string
    var packages: seq<Package>

    /** The configuration that Load returns for a file whose JSON decoded to `packages`. */
    constructor (path: string, packages: seq<Package>)
      ensures this.path == path && this.packages == packages
    {
      this.path := path;
      this.packages := packages;
    }

    /** The list without the entry at `index`, the rest in order. */
    function Pop(index: int): (r: seq<Package>)
      reads this
      requires 0 <= index < |packages|
      ensures |r| == |packages| - 1
      ensures forall j :: 0 <= j < index ==> r[j] == packages[j]
      ensures forall j :: index <= j < |r| ==> r[j] == packages[j + 1]
      ensures multiset(r) + multiset{packages[index]} == multiset(packages)
    {
      assert packages == packages[..index] + [packages[index]] + packages[index + 1..];
      packages[..index] + packages[index + 1..]
    }

    /**
     * The first entry the argument selects (see Selects), or the zero
     * package and an error when none does.
     */
    method GetPackage(repo: string) returns (kp: Package, err: Outcome)
      ensures err.Ok? <==> exists i :: 0 <= i < |packages| && Selects(repo, packages[i])
      ensures err.Ok? ==> exists i :: 0 <= i < |packages| && kp == packages[i] && Selects(repo, kp) &&
                                     (forall j :: 0 <= j < i ==> !Selects(repo, packages[j]))
      ensures err.Err? ==> kp == ZeroPackage && err == Err(NotFoundToAdd)
    {
      var parts := Split(repo, '/');
      var i := 0;
      if |parts| > 1 {
        while i < |packages|
          invariant 0 <= i <= |packages|
          invariant forall j :: 0 <= j < i ==> !Selects(repo, packages[j])
        {
          if packages[i].owner == parts[0] && packages[i].repo == parts[1] {
            return packages[i], Ok;
          }
          i := i + 1;
        }
      } else {
        while i < |packages|
          invariant 0 <= i <= |packages|
          invariant forall j :: 0 <= j < i ==> !Selects(repo, packages[j])
        {
          if packages[i].repo == repo {
            return packages[i], Ok;
          }
          i := i + 1;
        }
      }
      return ZeroPackage, Err(NotFoundToAdd);
    }

    /** Removes the first entry with this repo; without one, reports an error and changes nothing. */
    method RemovePackage(repo: string) returns (err: Outcome)
      modifies this
      ensures FirstWithRepo(old(packages), RepoOf, repo).Some? ==>
        var i := FirstWithRepo(old(packages), RepoOf, repo).value;
        err == Ok && packages == old(packages)[..i] + old(packages)[i + 1..]
      ensures FirstWithRepo(old(packages), RepoOf, repo).None? ==> err == Err(NotFound) && packages == old(packages)
      ensures UniqueKeys(old(packages)) ==> UniqueKeys(packages)
    {
      var i := 0;
      while i < |packages|
        invariant 0 <= i <= |packages|
        invariant packages == old(packages)
        invariant forall j :: 0 <= j < i ==> packages[j].repo != repo
      {
        if packages[i].repo == repo {
          if UniqueKeys(packages) {
            RemoveKeepsUniqueKeys(packages, i);
          }
          packages := Pop(i);
          return Ok;
        }
        i := i + 1;
      }
      return Err(NotFound);
    }

    /**
     * Appends a new entry stamped with `now`, unless an entry with the same
     * owner and repo exists, in which case it reports an error and changes nothing.
     */
    method AddPackage(owner: string, repo: string, release: string, now: int) returns (err: Outcome)
      modifies this
      ensures (exists i :: 0 <= i < |old(packages)| && Key(old(packages)[i]) == (owner, repo)) ==>
        err == Err(AlreadyExists) && packages == old(packages)
      ensures (forall i :: 0 <= i < |old(packages)| ==> Key(old(packages)[i]) != (owner, repo)) ==>
        err == Ok && packages == old(packages) + [Package(owner, repo, release, now, "", "")]
      ensures UniqueKeys(old(packages)) ==> UniqueKeys(packages)
    {
      var i := 0;
      while i < |packages|
        invariant 0 <= i <= |packages|
        invariant forall j :: 0 <= j < i ==> Key(packages[j]) != (owner, repo)
      {
        if packages[i].owner == owner && packages[i].repo == repo {
          return Err(AlreadyExists);
        }
        i := i + 1;
      }
      packages := packages + [Package(owner, repo, release, now, "", "")];
      return Ok;
    }

    /**
     * Updates the first entry with this repo field by field (see Updated); the
     * result is nil whether or not an entry matched.
     */
    method SetPackage(repo: string, release: string, description: string, binary: string, now: int) returns (err: Outcome)
      modifies this
      ensures err == Ok
      ensures FirstWithRepo(old(packages), RepoOf, repo).Some? ==>
        var i := FirstWithRepo(old(packages), RepoOf, repo).value;
        packages == old(packages)[i := Updated(old(packages)[i], release, description, binary, now)]
      ensures FirstWithRepo(old(packages), RepoOf, repo).None? ==> packages == old(packages)
      ensures UniqueKeys(old(packages)) ==> UniqueKeys(packages)
    {
      var i := 0;
      while i < |packages|
        invariant 0 <= i <= |packages|
        invariant packages == old(packages)
        invariant forall j :: 0 <= j < i ==> packages[j].repo != repo
      {
        if packages[i].repo == repo {
          var p := Updated(packages[i], release, description, binary, now);
          if UniqueKeys(packages) {
            UpdateKeepsUniqueKeys(packages, i, p);
          }
          packages := packages[i := p];
          return Ok;
        }
        i := i + 1;
      }
      return Ok;
    }

    /**
     * Sorts the entries by date in place and returns the table's rows in the
     * new order. The sort is not stable, so entries with equal dates may
     * come out in any order.
     */
    method List() returns (rows: seq<Row>)
      modifies this
      ensures SortedBy(packages, UpdatedAtOf)
      ensures multiset(packages) == multiset(old(packages))
      ensures UniqueKeys(old(packages)) ==> UniqueKeys(packages)
      ensures |rows| == |packages|
      ensures forall i :: 0 <= i < |rows| ==> rows[i] == RowOf(packages[i])
    {
      var a := new Package[|packages|](i requires 0 <= i < |packages| reads this => packages[i]);
      assert a[..] == packages;
      SortByKey(a, UpdatedAtOf);
      if UniqueKeys(packages) {
        PermutationKeepsUniqueKeys(packages, a[..]);
      }
      var sorted := a[..];
      packages := sorted;
      rows := TableRows(sorted);
    }

    /**
     * Looks each entry's command up with `lookPath` and reports whether it
     * was found, and whether it lies under `binDir`.
     */
    method Doctor(binDir: string, lookPath: string -> Option<string>) returns (checks: seq<Check>)
      ensures |checks| == |packages|
      ensures forall i :: 0 <= i < |checks| ==> checks[i].binary == BinaryName(packages[i])
      ensures forall i :: 0 <= i < |checks| ==>
        (checks[i].status == Installed <==>
          lookPath(checks[i].binary).Some? && HasPrefix(lookPath(checks[i].binary).value, binDir))
      ensures forall i :: 0 <= i < |checks| ==>
        (checks[i].status == BinaryNotFound <==> lookPath(checks[i].binary).None?)
    {
      checks := [];
      var i := 0;
      while i < |packages|
        invariant 0 <= i <= |packages|
        invariant |checks| == i
        invariant forall k :: 0 <= k < i ==> checks[k] == Check(BinaryName(packages[k]), StatusOf(binDir, lookPath(BinaryName(packages[k]))))
      {
        var binary := BinaryName(packages[i]);
        checks := checks + [Check(binary, StatusOf(binDir, lookPath(binary)))];
        i := i + 1;
      }
    }
  }
}
