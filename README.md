# kelp: the asset selector, the install routing and the package registry

kelp is a small package manager that installs prebuilt release binaries from
GitHub into `~/.kelp/bin` and records what it installed in a JSON config.
This project models its core in Dafny and proves properties of it:

- **Platform** (`pkg/types/os.go`): the host's capabilities (OS family,
  executable MIME type and architecture). They are computed on the first
  call and memoized in a package-level variable.
- **GitHub** (`pkg/types/github.go`): the release asset and the predicates
  that inspect its download URL. These are archive suffix, no extension,
  macOS / Linux tokens, same OS and same architecture.
- **Install** (`pkg/install/install.go`) covers asset selection and two routing decisions:
  - the additive suitability score (4 OS, 3 architecture, 2 archive,
    1 bare binary);
  - the threshold of 6;
  - the choice of a highest-scoring asset (`getHighestScore`);
  - what `extractPackage` does with a downloaded path;
  - which walked files `installBinary` copies.
- **ScoreExamples**: the scores the package's tests expect for concrete
  download URLs, proved about the model. Every token for amd64 and arm64
  holds a '6', so some cases are proved for release prefixes without one: a
  prefix such as `.../arm64/releases/...` would add an architecture match.
- **Config** (`pkg/config/config.go`): the `KelpConfig` registry. It covers:
  - looking up, adding, removing and updating packages;
  - listing them sorted by date, with the release label derived from a URL;
  - the doctor check of each binary's location.
- **LegacyInstall** and **LegacyConfig** (`install.go`, `config.go` at the
  repository root): the first macOS-only installer and its registry.
  - It uses a case-sensitive macOS test and a filter instead of a score.
  - Its `extractPackage` runs every matching branch.
  - It saves the registry with an upsert keyed on the repo.
- **Strs** and **Sorting**: Go's `strings` operations and the unstable
  in-place sort that the above use. **Wrappers**: `Option`, `Outcome` (a Go
  `error` result), `Result`, and `FirstWithRepo`, the first-match search by
  repo that both registries run, generic in the entry type.

Modelling choices:

- **Mutable state is modelled as classes.** `KelpConfig`, the capability memo and the legacy config file on disk are classes whose methods modify their fields.
- **Pure predicates are modelled as functions.** Loops stay methods with invariants, proved against specification functions.
- **Dependencies are parameters.** These are:
  - the clock (`now`);
  - `exec.LookPath` (`lookPath`);
  - the host `capabilities` that `findGithubReleaseMacAssets` obtains from `types.GetCapabilities()`;
  - the `executableMime` that `installBinary` compares against;
  - the walked directory listing, with each file's detected MIME type;
  - what decoding the config file yields.
- **The legacy predicates are reused.** The legacy `isDownloadableExtension` and `hasNoExtension` have the same bodies as the current `IsDownloadableExtension` and `HasNoExtension`, so the legacy model reuses `GitHub`'s.
- **The legacy `installBinary` is not modelled separately.** It copies the files that `Install.InstallBinary` would pick with the MIME type fixed to `Platform.DarwinExecutableMime`, but it returns no destinations.
- **The selection loop is a generic method.** `SelectByScore` is the loop of `findGithubReleaseMacAssets`, taking the scoring function as a parameter. `FindGithubReleaseMacAssets` calls it with `evaluateAssetSuitability`.

Behaviour of the code worth noting:

- **The archive test is case-sensitive.** `IsDownloadableExtension` compares the URL as written; only the OS and architecture tests lower-case it.
- **Ties are resolved by whatever `getHighestScore` returns.** `getHighestScore` copies a Go map in its unspecified iteration order, then applies an unstable sort. So the model promises only *some* asset of maximal score, not the first one in list order.
- **`GetPackage` accepts both forms of the repo argument.** `owner/repo` matches owner and repo, while a bare name matches the first entry with that repo, whatever its owner.
- **A bare binary with a '.' in its name is extracted.** `extractPackage` installs a download directly only when its last segment has no '.'. So a cached `direnv.darwin-arm64` goes to the extraction branch (`ExtractRoute` gives `Extract`), although it is no archive.
- **`SetPackage` refreshes the date on every non-empty release.** It sets `UpdatedAt` whenever the release argument is non-empty, even when it equals the recorded release.
- **A partly decoded legacy config is still used.** `loadKelpConfig` only prints the decoder's error and returns whatever entries were filled in. For example, a `Release` of the wrong type still leaves the entry's owner and repo to be found. `saveToConfig` returns that error and writes nothing.

## Model

| member | source | states |
|---|---|---|
| Platform.GetOS | pkg/types/os.go:28-36 | "darwin" and "linux" name the two OS families; any other value gives the unknown OS, and only then |
| Platform.ProbedCapabilities | pkg/types/os.go:45-52 | the capabilities of a supported host: its OS family, the architecture reported by the runtime, and "application/x-mach-binary" on Darwin or "application/x-executable" on Linux as the executable MIME type |
| Platform.Probe.GetCapabilities | pkg/types/os.go:38-53 | returns the probed capabilities and memoizes them; a value that is already memoized is returned unchanged; an unsupported host with nothing memoized is excluded because the source dereferences nil there |
| Platform.RepeatedProbe | pkg/types/os.go:40-43 | two successive probes return the same capabilities |
| GitHub.EndsWithAny | pkg/types/github.go:67-76 | the suffix search succeeds exactly when some word of the list is a suffix |
| GitHub.ContainsAny | pkg/types/github.go:85-95 | the token search succeeds exactly when some word of the list occurs in the text |
| GitHub.IsDownloadableExtension | pkg/types/github.go:67-76 | true exactly when the URL ends, case-sensitively, with one of the eight archive suffixes |
| GitHub.HasNoExtension | pkg/types/github.go:78-82 | the last segment of the URL has no '.' exactly when every '.' of the URL is followed by a later '/' |
| GitHub.IsMacAsset | pkg/types/github.go:85-95 | true exactly when the lower-cased URL contains mac, macos, darwin, osx or apple |
| GitHub.IsLinuxAsset | pkg/types/github.go:97-107 | true exactly when the lower-cased URL contains linux |
| GitHub.IsSameOS | pkg/types/github.go:109-117 | true exactly when the host is Darwin and the asset is a macOS asset, or the host is Linux and it is a Linux asset; false on any other OS |
| GitHub.IsSameArchitecture | pkg/types/github.go:119-131 | true exactly when the lower-cased URL contains the host's architecture, or "x86_64" on amd64, or "aarch64" on arm64 |
| GitHub.ExtensionsAreDotSuffixes | pkg/types/github.go:68-69 | every archive suffix begins with '.' and contains no '/' |
| GitHub.DownloadableHasExtension | pkg/types/github.go:67-82 | an asset is never both an archive and extension-less |
| GitHub.MacIdentifiersRedundant | pkg/types/github.go:86-92 | the token "macos" adds nothing: the macOS test is equivalent to a test for mac, darwin, osx or apple |
| GitHub.PredicatesReadOnlyTheURL | pkg/types/github.go:67-131 | two assets with the same download URL get the same answer from every predicate |
| Sorting.Swap | pkg/install/install.go:35 | exchanges two elements, leaves all others in place, and keeps the multiset |
| Sorting.InsertAt | pkg/install/install.go:34-36 | extends an ordered prefix by one element while keeping the array a permutation of itself |
| Sorting.SortByKey | pkg/config/config.go:157-159 | the array ends non-decreasing by the key and is a permutation of its old contents; stability is not promised |
| Install.GetHighestScore | pkg/install/install.go:245-256 | for a non-empty score map, returns a pair that is in the map and whose value is no smaller than any score in it |
| Install.EvaluateAssetSuitability | pkg/install/install.go:258-274 | a score lies in 0..9, and a score reaching the threshold 6 implies the OS matches |
| Install.ScoreBounds | pkg/install/install.go:258-274 | without the OS match, architecture and file kind together give at most 5 |
| Install.ScoreIsWeightedSum | pkg/install/install.go:258-274 | the score is the OS weight plus the architecture weight plus, for the file kind, 1 for a bare binary, 2 for an archive, 0 otherwise |
| Install.QualifyingScores | pkg/install/install.go:280-287 | the score map after n assets holds exactly the indices below n whose score reaches 6, each with its own score |
| Install.QualifyingScoresStep | pkg/install/install.go:280-287 | one loop iteration adds the next index exactly when its score reaches 6 |
| Install.NoneQualifies | pkg/install/install.go:289-291 | an empty final score map means no asset reaches the threshold |
| Install.MaximalPairIsBest | pkg/install/install.go:293-295 | a maximal pair of the score map names an asset that reaches the threshold and scores at least as high as every asset |
| Install.SelectByScore | pkg/install/install.go:276-299 | fails exactly when no asset reaches the threshold; otherwise returns an asset of the list that reaches it and has the highest score |
| Install.FindGithubReleaseMacAssets | pkg/install/install.go:276-299 | the same statement, for the suitability score against the host's capabilities |
| Install.ExtractRoute | pkg/install/install.go:140-156 | ".dmg" paths are rejected; otherwise a path is installed as a bare binary exactly when every '.' precedes a '/', and extracted in every other case |
| Install.DestinationsAppend | pkg/install/install.go:226-241 | the destinations of a concatenated walk are those of its parts, in order |
| Install.DestinationsMembers | pkg/install/install.go:226-241 | a destination is reported exactly for the walked files whose MIME type is the executable one, as the bin directory joined with the file's last segment |
| Install.Destinations | pkg/install/install.go:226-241 | the walk never yields more destinations than files |
| Install.DestinationsCount | pkg/install/install.go:226-241 | the number of destinations is exactly the number of walked files with the executable MIME type, so each such file yields one |
| Install.InstallBinary | pkg/install/install.go:218-243 | the returned destinations are those of the walk's executable files, in walk order |
| ScoreExamples.DirenvDarwinScoresSeven | pkg/install/intstall_test.go:56-58 | `direnv.darwin-arm64` scores 7 on an arm64 Mac: OS and architecture, but the '.' in the name rules out the bare-binary point, whatever the release prefix |
| ScoreExamples.PlutoDarwinScoresNine | pkg/install/intstall_test.go:60-61 | `pluto_4.2.0_darwin_arm64.tar.gz` scores 9 on an arm64 Mac, whatever the release prefix |
| ScoreExamples.RuplacerDarwinScoresFive | pkg/install/intstall_test.go:63-64 | `ruplacer-osx` scores 5 on an arm64 Mac: OS and bare binary, below the threshold, under any release prefix that has no '6' and ends in '/', the tests' prefix among them |
| ScoreExamples.CrocDarwinScoresSix | pkg/install/intstall_test.go:66-67 | `croc_9.2.0_macOS-64bit.tar.gz` scores 6 on an arm64 Mac: "64bit" is no architecture token, under any release prefix without a '6', the tests' prefix among them |
| ScoreExamples.ConftestDarwinAmdScoresSix | pkg/install/intstall_test.go:69-70 | `conftest_0.28.1_Darwin_x86_64.tar.gz` scores 6 on an arm64 Mac: OS and archive, the wrong architecture, under any release prefix without a '6', the tests' prefix among them |
| ScoreExamples.ConftestDarwinScoresNine | pkg/install/intstall_test.go:72-73 | `conftest_0.28.1_Darwin_arm64.tar.gz` scores 9 on an arm64 Mac: "Darwin" matches after lower-casing, whatever the release prefix |
| ScoreExamples.PandocDarwinScoresSix | pkg/install/intstall_test.go:75-76 | `pandoc-2.14.2-macOS.pkg` scores 6 on an arm64 Mac, exactly the threshold, under any release prefix without a '6', the tests' prefix among them |
| ScoreExamples.GopassDarwinAmdScoresSix | pkg/install/intstall_test.go:78-79 | `gopass-1.15.11-darwin-amd64.tar.gz` scores 6 on an arm64 Mac, under any release prefix without a '6', the tests' prefix among them |
| ScoreExamples.GopassDarwinScoresNine | pkg/install/intstall_test.go:81-82 | `gopass-1.15.11-darwin-arm64.tar.gz` scores 9 on an arm64 Mac, whatever the release prefix |
| ScoreExamples.DirenvLinuxScoresSeven | pkg/install/intstall_test.go:99-101 | `direnv.linux-amd64` scores 7 on amd64 Linux, whatever the release prefix |
| ScoreExamples.PlutoLinuxScoresNine | pkg/install/intstall_test.go:103-104 | `pluto_4.2.0_linux_amd64.tar.gz` scores 9 on amd64 Linux, whatever the release prefix |
| ScoreExamples.RuplacerLinuxScoresFive | pkg/install/intstall_test.go:106-107 | `ruplacer-linux` scores 5 on amd64 Linux, under any release prefix that has no '6' and ends in '/', the tests' prefix among them |
| ScoreExamples.CrocLinuxScoresSix | pkg/install/intstall_test.go:109-110 | `croc_9.2.0_linuX-64bit.tar.gz` scores 6 on amd64 Linux: "linuX" matches after lower-casing, under any release prefix without a '6', the tests' prefix among them |
| ScoreExamples.ConftestLinuxScoresNine | pkg/install/intstall_test.go:112-113 | `conftest_0.28.1_Linux_x86_64.tar.gz` scores 9 on amd64 Linux through the x86_64 alias, whatever the release prefix |
| ScoreExamples.ConftestLinuxArmScoresSix | pkg/install/intstall_test.go:115-116 | `conftest_0.28.1_Linux_arm64.tar.gz` scores 6 on amd64 Linux: the wrong architecture, under any release prefix without a '6', the tests' prefix among them |
| ScoreExamples.PandocLinuxScoresSix | pkg/install/intstall_test.go:118-119 | `pandoc-2.14.2-linux.pkg` scores 6 on amd64 Linux, under any release prefix without a '6', the tests' prefix among them |
| ScoreExamples.GopassLinuxArmScoresSix | pkg/install/intstall_test.go:121-122 | `gopass-1.15.11-linux-arm64.tar.gz` scores 6 on amd64 Linux, under any release prefix without a '6', the tests' prefix among them |
| ScoreExamples.GopassLinuxScoresNine | pkg/install/intstall_test.go:124-125 | `gopass-1.15.11-linux-amd64.tar.gz` scores 9 on amd64 Linux, whatever the release prefix |
| ScoreExamples.DarwinFixtures | pkg/install/intstall_test.go:42-83 | all nine scores of the Darwin test, under the test's own release URL prefix |
| ScoreExamples.LinuxFixtures | pkg/install/intstall_test.go:85-126 | all nine scores of the Linux test, under the test's own release URL prefix |
| Config.Selects | pkg/config/config.go:43-53 | an argument without '/' selects an entry exactly when the repo matches, whatever the owner |
| Config.SelectsOwnerRepo | pkg/config/config.go:44-53 | "owner/repo" selects exactly the entries with that owner and that repo |
| Wrappers.FirstWithRepo | pkg/config/config.go:88-95 | the index of the first entry with the repo: it has the repo, no earlier index has it, and there is none exactly when no entry has it; the legacy `findKelpConfig` loop (`config.go:21-31` at the repository root) is the same search over its own entry type |
| Config.Updated | pkg/config/config.go:135-146 | each non-empty argument replaces its field, a new release also sets the time, empty arguments keep the old fields, and owner and repo never change |
| Config.UpdateKeepsUniqueKeys | pkg/config/config.go:133-151 | replacing an entry by one with the same owner/repo keeps owner/repo pairs distinct |
| Config.RemoveKeepsUniqueKeys | pkg/config/config.go:88-97 | removing an entry keeps owner/repo pairs distinct |
| Config.PermutationKeepsUniqueKeys | pkg/config/config.go:157-159 | reordering the list keeps owner/repo pairs distinct |
| Config.AddedIsFound | pkg/config/config.go:99-118 | after AddPackage appends a new owner/repo, GetPackage("owner/repo") selects the appended entry and no earlier one |
| Config.FindVersion | pkg/config/config.go:172-176 | the capture of `[/v-]([\d.]+)`: none exactly when the pattern matches nowhere; otherwise the maximal run of digits and dots after the leftmost marker that is followed by one |
| Config.VersionAfterMarker | pkg/config/config.go:172-176 | when the first match follows a prefix, the capture is the whole run of version characters after the marker |
| Config.RunEndOfRun | pkg/config/config.go:172-176 | greedy matching stops exactly at the end of a maximal run of version characters |
| Config.ReleaseLabel | pkg/config/config.go:168-182 | a release not starting with "http" is shown as is; a URL release is shown as its version plus " (https)", or "unknown (https)" when none is found |
| Config.RowOf | pkg/config/config.go:161-185 | a row's name splits back into the owner and the repo; a non-URL release is shown as is and a URL release ends in " (https)"; the date is the entry's |
| Config.TableRows | pkg/config/config.go:161-185 | one row per entry in order: "owner/repo", its release label and its time |
| Config.BinaryName | pkg/config/config.go:278-283 | the command checked is the binary alias when set and the repo otherwise |
| Config.StatusOf | pkg/config/config.go:285-295 | not found exactly when the lookup fails; installed exactly when the found path is under the bin directory; installed outside kelp otherwise |
| Config.KelpConfig.Pop | pkg/config/config.go:39-41 | the list without the entry at the index, the others in order, one shorter and the same multiset less that entry |
| Config.KelpConfig.GetPackage | pkg/config/config.go:43-65 | succeeds exactly when some entry is selected and returns the first such entry; otherwise the zero package and the "try adding it first" error |
| Config.KelpConfig.RemovePackage | pkg/config/config.go:88-97 | removes the first entry with the repo and keeps the rest in order; without one returns the not-found error and changes nothing; keeps owner/repo pairs distinct |
| Config.KelpConfig.AddPackage | pkg/config/config.go:99-118 | an existing owner/repo gives the already-exists error and no change; otherwise appends the package stamped with the current time, keeping owner/repo pairs distinct |
| Config.KelpConfig.SetPackage | pkg/config/config.go:133-151 | always returns nil; updates the first entry with the repo as Updated states, or changes nothing when there is none; keeps owner/repo pairs distinct |
| Config.KelpConfig.List | pkg/config/config.go:153-187 | leaves the list sorted by date as a permutation of itself with owner/repo pairs still distinct, and returns one row per entry in that order |
| Config.KelpConfig.Doctor | pkg/config/config.go:274-299 | one check per entry, naming its command, with not found exactly when the lookup fails and installed exactly when the found path is under the bin directory |
| LegacyInstall.LegacyIsMacAsset | install.go:260-270 | true exactly when the URL as written contains mac, macOs, macos, darwin or osx |
| LegacyInstall.LegacyTokensLowered | install.go:261 | lower-casing an old macOS token gives one of the current tokens |
| LegacyInstall.LegacyMacIsMac | install.go:260-270 | every asset the old test accepts, the current test accepts |
| LegacyInstall.NoLegacyToken | install.go:260-270 | a URL without 'c', 'd' or 'o' holds none of the old tokens |
| LegacyInstall.CapitalDarwinIsMac | pkg/types/github.go:85-95 | "Darwin" anywhere in a URL makes it a macOS asset for the current test |
| LegacyInstall.CapitalDarwin | install.go:260-270 | the converse of LegacyMacIsMac fails: a URL naming the OS only as "Darwin" is macOS now and was not then |
| LegacyInstall.Kept | install.go:272-285 | a kept asset passes the current macOS test too, and passes exactly one of the archive and no-extension tests |
| LegacyInstall.KeptAssets | install.go:272-285 | never more assets than given, and every asset in the result is kept |
| LegacyInstall.KeptAssetsMembers | install.go:272-285 | an asset is kept exactly when it is in the input, is a macOS asset and is an archive or extension-less |
| LegacyInstall.KeptAssetsEmpty | install.go:340-344 | the filtered list is empty exactly when no asset passes the filter |
| LegacyInstall.LegacyFindMacAssets | install.go:272-285 | the two independent appends together yield the filtered list in input order, with no asset appended twice |
| LegacyInstall.LegacyDownloadGithubRelease | install.go:303-345 | returns the filtered list, with the "mac binaries" error exactly when it is empty |
| LegacyInstall.LegacyExtractPackage | install.go:143-189 | each test runs exactly when its suffix holds; the bare-binary install runs exactly when every '.' precedes a '/', and never together with an unpacking or the dmg message; ".tar.gz" also runs the ".gz" branch |
| LegacyInstall.TarGzEndsInGz | install.go:150-173 | a ".tar.gz" path also ends in ".gz" |
| LegacyInstall.BareHasNoSuffix | install.go:150-187 | a path whose last segment has no '.' ends in none of the tested suffixes |
| LegacyInstall.DotSuffixExcludesBare | install.go:181-187 | a path ending in a '.'-suffix without '/' has an extension |
| LegacyInstall.DmgOnlySkips | install.go:177-187 | a ".dmg" path runs only the skip message: no unpacking and no install |
| LegacyInstall.TarGzRunsTwice | install.go:150-187 | a ".tar.gz" path runs exactly the archive-library branch and the ".gz" Untar branch |
| LegacyConfig.Upserted | config.go:51-95 | the saved list never shrinks and grows by at most one entry; every existing entry keeps its owner and repo; an added entry is the package itself, at the end |
| LegacyConfig.UpsertedLength | config.go:51-95 | the saved list grows exactly when no entry has the repo |
| LegacyConfig.UpsertedRecords | config.go:61-92 | afterwards some entry records the repo at the new release |
| LegacyConfig.UpsertedIdempotent | config.go:51-95 | saving the same package twice leaves the list as saving it once does |
| LegacyConfig.UpsertedKeepsOthers | config.go:73-86 | only the first entry with the repo can change; every other entry keeps its place and value |
| LegacyConfig.OwnerIsKept | config.go:77-79 | an instance of Upserted's owner clause: bob's "cli" at v2 only moves alice's "cli" entry to v2 |
| LegacyConfig.ConfigFile.FindKelpConfig | config.go:21-31 | the first entry of the loaded list with the repo, or the zero package and the "try adding it first" error; the loaded list is whatever the decoder filled in, even when it reports an error |
| LegacyConfig.ConfigFile.SaveToConfig | config.go:51-95 | a decoding error is returned and nothing changes; otherwise returns nil, stores the upserted list, and writes once unless the repo is already at that release |

## Left out

- Network access: the release API query, the downloads and the download cache in `downloadGithubRelease` and `downloadFile`. The assets are given as a list.
- Reading and writing the JSON config (`Load`, `Save`, the file read in `loadKelpConfig`, the marshalling in `saveToConfig`). What decoding yields is the input: for the legacy file, the entries filled in and the decoder's error, if any. The legacy file's writes are counted.
- Archive extraction, `unquarantineFile`, MIME detection, the directory walk and file copying. `InstallBinary` sees the walk as a list of paths with their detected MIME types and reports destinations instead of copying.
- The opening, unpacking and error paths of `extractPackage` after routing. `Install.ExtractRoute` models the routing only. The legacy model does not model the `log.Fatal` on a file that will not open.
- `time.Now()` is the parameter `now`. The date formatting in `List` and the tabwriter output of `List` and `Doctor` are not modelled; rows and checks are returned as data.
- `utils.CommandExists` is the function parameter `lookPath` of `Doctor`.
- `ToLower` is modelled on ASCII letters only; Go also lower-cases other Unicode letters.
- `filepath.Join` is modelled as the directory, a '/', and the file name, without the path cleaning Go applies.
- Config.KelpConfig.Pop: returns a new list. The model does not capture that Go's `append` on a sub-slice reuses the original backing array.
- Install.GetHighestScore: does not say which key comes out when several share the maximal score, because Go's map order and `sort.Sort` leave that unspecified.
- The trufflehog test (`pkg/install/intstall_test.go:10-28`) is not modelled. Its URLs depend on `runtime.GOOS`.
- `TestGetHighestScore` (`pkg/install/intstall_test.go:30-40`) is not modelled as a separate example. Its statement is an instance of `Install.GetHighestScore`'s postcondition.
- The command-line layers are not part of this model: `cmd/`, `cli.go`, `main.go`, `init.go`, `Install` and `install` orchestration, `Initialize`, `Inspect`, `Browse`, `UpdatePackage` (a network call), `configAdd`, `installAll`, `list`, `inspect` and `browse`.
- The progress and status messages printed throughout are not modelled.
- Platform.Probe.GetCapabilities: an unsupported OS with nothing memoized is a precondition instead of the nil dereference the source performs.
