# version-checker: a verified model

version-checker watches the containers of a Kubernetes cluster, looks up the tags of their images in a
registry, and reports as Prometheus metrics whether each one runs the latest version. This project models
the logic that decides those reports and proves what it guarantees, and exactly where it does not:

- **Tags.** `SemVer.dfy` is the version regular expression as a scanner and `semver.Parse`; `Word.dfy` is
  the metadata tokenizer and the order on word lists; `VersionOrder.dfy` is `LessThan`, and `PrintedTags.dfy` says
  what it comes to on tags written out from numbers.
- **Selection.** `Selection.dfy` is the selection loop over any filter and comparison; `Latest.dfy` is
  `latestSemver`, `latestSHA` and the filters; `OptionsBuilder.dfy` turns pod annotations into options.
- **The verdict.** `ImageRef.dfy` takes image references apart; `Verdict.dfy` is the comparison of a running
  tag with the selected image; `Checker.dfy` is one container's check end to end.
- **Caches.** `Cache.dfy` is the TTL store, `Search.dfy` the two layers over it, `Fallback.dfy` the client
  that remembers which registry client answered for a host; `SearchRuns.dfy` and `CheckRuns.dfy` are whole runs of
  searches and of checks. A `[]ImageTag` is a sequence of addressable
  slots, so the pointer that the search cache shares with the image cache is a real pointer.
- **Concurrency.** `Runs.dfy` is runs of transition systems; `Metrics.dfy` is the metrics store method by method;
  `MetricsRaces.dfy` interleaves its callers, instruction by instruction, with a changing pod reader, and
  `MetricsRefinement.dfy` shows that this refines the sequential store; `WorkerPool.dfy` is a goroutine pool with
  semaphore, mutex and wait group, and `QuayPager.dfy` and `OciManifests.dfy` are the two programs that use one.
- **Round trips.** `TagMap.dfy` groups manifests by tag and resolves digests; `KubeVersion.dfy` normalises
  and compares cluster versions.

Code that updates state step by step is a method with loops over a class or local variables, tied by its
`ensures` to a function or predicate about which the lemmas speak. Errors are constructors of `Error` and
`BuildError`; time, the registry's answer at an instant and the pod reader's answer are parameters.

`dafny verify dfyconfig.toml` checks everything.

## Where the code falls short of a simple law

Each of these has an exact condition, proved in both directions, and a concrete input; the last is a fact about
every call.

- `LessThan` is not asymmetric on tags with metadata: `2-alpha` and `1-beta` are each less than the other
  (`VersionOrder.MutuallyLessIff`, `VersionOrder.AlphaAndBetaClash`). Its comment at
  pkg/version/semver/semver.go:48-51 describes another function; the model follows the code.
- On a digest mismatch the checker writes the digest into the tag through the pointer that the caches share
  (pkg/controller/checker/checker.go:156, 161). A second check of the same outdated image then calls it the
  latest, unless its tag is empty or has metadata that ends in text (`Verdict.SecondCheckIff`,
  `Verdict.SecondCheckFlips`, and through the caches `ContainerChecker.Checker.ContainerTwice`); in those two cases
  it is a container with the registry's own digest that is no longer called the latest
  (`Verdict.CurrentAfterWriteIff`). Other searches over the list lose the image
  (`Verdict.WrittenIsDropped`). The write concerns one URL only, and two timeouts later its effect is gone
  (`Search.Search.SameSlotsSettled`, `Search.Search.SettledAgain`).
- The selected tag can depend on the order in which a map is walked. For every list of every length: it does not
  exactly when the greatest candidates have one tag string, among metadata-free candidates
  (`Latest.OrderIndependentIff`), and exactly when some candidate is unrivalled, in every mode
  (`Latest.OrderIndependentInAnyModeIff`). The tags 1 and v1 show it (`Latest.TiedTagsDependOnOrder`).
- An untagged manifest whose digest is some tag's name overwrites that tag's images
  (`TagGrouping.GroupingConservesIff`, `TagGrouping.UntaggedDigestOverwritesTag`).
- An image reference with a dangling separator, or a bare `host:port`, does not survive the round trip
  (`ImageReference.PrintsBackIff`, `ImageReference.ReadsBackIff` and their examples).
- An image ID without "@" is cut at a colon that could be a tag's, so a bare digest loses its value: sha256:abc is
  read as sha256 (`ImageReference.WholeIDIsReadIff`, `ImageReference.BareDigestIsCut`).
- A version or last-checked series of a removed pod can come back, exactly through an AddImage for the pod that is
  still under way or begins later (`MetricsRaces.GaugesStayAwayIff`, `MetricsRaces.AddImageResurrects`).
- A reference without a digest, when digests are to be resolved, can be compared under another tag: that of the first
  listed image with an empty digest (`ContainerChecker.DigestlessKeepsTagIff`, `ContainerChecker.IndexReplacesTag`).
- `RemoveImage` never deletes a duration or error series, because those have no container type
  (`Metrics.LookupSeriesNeverMatch`).

## Model

| member | source | states |
|---|---|---|
| SemVerScan.ScanIsTheRegexMatch | pkg/version/semver/semver.go:10 | The one-pass scan fails exactly when no way of matching the expression exists, and otherwise returns the one match that leftmost-first search prefers to every other |
| SemVerScan.FillNumbers | pkg/version/semver/semver.go:38-42 | The loop over the capture groups leaves each number as its digit group's value, capped at the largest int64, and an absent group as zero |
| SemVerScan.Parse | pkg/version/semver/semver.go:26-46 | The parsed version of every string: all metadata and zeros without a match, else the scanned rest and the three numbers |
| SemVerScan.ParseLosesNothing | pkg/version/semver/semver.go:26-46 | A matching tag is the concatenation of the optional v, its digit groups and the metadata, and no group could take more |
| SemVerScan.MetadataStartsWithDigitIff | pkg/version/semver/semver.go:32-43 | What is left as metadata starts with a digit exactly for tags that start with a digit and hold a newline |
| SemVerScan.RegistryTagMetadata | pkg/version/semver/semver.go:32-43 | So a tag of the registry grammar never leaves metadata that starts with a digit |
| Text.PrintedIntParses | pkg/controller/options/options.go:109-114 | Parsing a printed number gives it back when it fits an int64 and an error when it does not |
| Text.SignedIntParses | pkg/controller/options/options.go:109-114 | So is one with a sign, down to the least int64 |
| Text.OnlyDigitsParse | pkg/controller/options/options.go:109-114 | Nothing but digits after at most one sign parses |
| Text.DecimalIsPositional | pkg/version/semver/semver.go:40 | Digit strings of one length are worth less than that power of ten and are ordered, and told apart, by value as they are as strings |
| Text.LeadingZero | pkg/version/semver/semver.go:40 | A leading zero adds nothing |
| Text.StringLessIff | pkg/version/semver/word.go:49 | The string order: a proper prefix is less, else the first different byte decides |
| MetadataWords.AddToWords | pkg/version/semver/word.go:105-111 | One round of the tokenizer grows the last word in place or appends a new one, and touches no other |
| MetadataWords.ParseStringToWords | pkg/version/semver/word.go:93-114 | The grown words are exactly the tokenization of the input, in fresh cells |
| MetadataWords.WordsIsTheTokenization | pkg/version/semver/word.go:93-114 | The tokenization is the one list of non-empty, one-kind, strictly alternating words whose concatenation is the input |
| MetadataWords.ComparePreReleaseMetadata | pkg/version/semver/semver.go:85-110 | The index loop up to the longer length computes the order on word lists |
| MetadataWords.WordsLessIff | pkg/version/semver/semver.go:85-110 | Where kinds agree, a list is less exactly when it properly extends the other or is less at the first different word |
| MetadataWords.NumbersDecide | pkg/version/semver/word.go:73-82 | After the same text, of two numbers spelled differently the one of lesser decimal value, leading zeros or not, makes the lesser metadata whatever follows; from the largest int64 on numbers count as equal |
| MetadataWords.PrintedNumbersDecide | pkg/version/semver/word.go:73-82 | After the same text, metadata ending in n is less than metadata ending in m exactly when n is less than m, up to the largest int64 |
| MetadataWords.MetadataKindsAgree | pkg/version/semver/word.go:43-60 | Registry metadata never puts a number opposite a text word, so the branch that calls them equal is never taken |
| MetadataWords.MetadataOrderIsStrictPartial | pkg/version/semver/semver.go:85-110 | On such metadata the comparison is irreflexive, asymmetric and transitive, despite saturating numbers and longer being less |
| MetadataWords.MetadataTiedIff | pkg/version/semver/word.go:73-91 | Two such strings are tied exactly when equal, or when they first differ in the spelling of one number's same value |
| VersionOrder.CompareVersionNumbers | pkg/version/semver/semver.go:76-83 | The index loop is the lexicographic order on the three numbers |
| VersionOrder.SemVerLessThan | pkg/version/semver/semver.go:52-72 | The method over its two looping comparisons computes the order that the lemmas below are about |
| VersionOrder.MetadataFreeLess | pkg/version/semver/semver.go:52-72 | Between metadata-free tags: the empty tag is least, else the numbers decide; tied exactly when both are empty or both are not and the numbers agree |
| VersionOrder.StrictWeakOrder | pkg/version/semver/semver.go:52-72 | On metadata-free tags, the empty one among them, it is a strict weak order: irreflexive, asymmetric, transitive, negatively transitive, with transitive ties |
| VersionOrder.BelowOneBelowGreater | pkg/version/semver/semver.go:52-72 | A running tag of any shape below some metadata-free tag is below every metadata-free tag that one does not exceed |
| VersionOrder.AcrossKinds | pkg/version/semver/semver.go:53-63 | Every tag with metadata is below every non-empty tag without, and the empty tag below every other |
| VersionOrder.LessIrreflexive | pkg/version/semver/semver.go:52-72 | No string at all is less than itself |
| VersionOrder.MutuallyLessIff | pkg/version/semver/semver.go:65-71 | Two registry tags are each less than the other exactly when both carry metadata and number order and metadata order disagree |
| VersionOrder.SameNumbersOrder | pkg/version/semver/semver.go:65-71 | Among metadata tags with the same numbers the order is asymmetric and transitive |
| VersionOrder.PreReleasesClash | pkg/version/semver/semver.go:65-71 | Any two majors with text pre-releases in the opposite order are each less than the other |
| VersionOrder.AlphaAndBetaClash | pkg/version/semver/semver.go:65-71 | The concrete pair 2-alpha and 1-beta |
| PrintedTags.ThreeNumbersParse | pkg/version/semver/semver.go:26-46 | Three numbers with dots between them, an optional v before and metadata after, parse to their decimal values, capped at the largest int64, and that metadata |
| PrintedTags.TwoNumbersParse | pkg/version/semver/semver.go:26-46 | With two numbers the third is zero |
| PrintedTags.OneNumberParses | pkg/version/semver/semver.go:26-46 | With one number the other two are zero |
| PrintedTags.TwentyTwoZeroFour | pkg/version/semver/semver.go:26-46 | The tag 22.04 is the version 22, 4, 0 |
| PrintedTags.FirstDifferenceDecides | pkg/version/semver/semver.go:76-83 | The numbers are less exactly when they are at the first index at which they differ |
| PrintedTags.ReleasesCompare | pkg/version/semver/semver.go:52-83 | One printed release is less than another exactly when its major is, or the majors agree and its minor is, or both agree and its patch is |
| PrintedTags.PreReleasesCompare | pkg/version/semver/semver.go:65-71 | One printed pre-release is less than another exactly when its numbers are, in that order, or its metadata is |
| PrintedTags.PreReleaseIsBelowRelease | pkg/version/semver/semver.go:57-63 | A printed pre-release is less than every printed release and never the other way round |
| PrintedTags.NumberedPreReleases | pkg/version/semver/semver.go:85-110 | Numbered pre-releases of one release, such as rc.9 and rc.10, are ordered by their number |
| PrintedTags.TenIsAfterNine | pkg/version/semver/semver.go:52-110 | 1.2.9 is less than 1.10.0, v1.32.9 than v1.33.0 and 1.0.0-rc.9 than 1.0.0-rc.10, and none the other way round |
| PrintedTags.AlphaIsBeforeBeta | pkg/version/semver/semver.go:65-71 | 1.0.0-alpha is less than 2.0.0-beta and not the other way round |
| Api.MatchesSHA | pkg/api/types.go:20-30 | True exactly when the digest is the image's own or one of its children's |
| Selection.LoopIsExact | pkg/version/helpers.go:19-30 | Under any strict weak order the loop selects k exactly when k is in the greatest class, has the string of the first candidate of that class, and is the first with the latest timestamp among those with that string |
| Selection.AnswerIsUnique | pkg/version/helpers.go:19-30 | That specification has at most one answer |
| Selection.RoundKeepsAnswer | pkg/version/helpers.go:19-30 | Each round on a candidate keeps the exact answer for the tags seen so far |
| Selection.NoLaterCandidateIsBetter | pkg/version/helpers.go:19-30 | Under any comparison whatever, no candidate after the selected one would replace it |
| Selection.PermutedNotGreater | pkg/client/util/util.go:76-82 | The answer on one order of a list does not exceed the answer on another |
| Selection.AnyOrderIff | pkg/version/helpers.go:19-30 | Under any comparison whatever, all orders of a list select one tag string exactly when some candidate is greater than, and not less than, every candidate with another tag |
| Selection.SkippedIsAbsent | pkg/version/helpers.go:19-24 | A tag that does not pass the filter changes nothing: the loop selects what it would select without it |
| Latest.IsBetterSemVer | pkg/version/filters.go:51-68 | A tag replaces the held one exactly when it is greater, or has the same string and a later timestamp |
| Latest.LatestSemver | pkg/version/helpers.go:13-37 | The returned pointer is the selected slot of the given slice; an error exactly when nothing is selected |
| Latest.LatestSemverIsExact | pkg/version/helpers.go:13-37 | Among metadata-free candidates k is selected if and only if k meets the specification, and nothing if and only if every tag is filtered out |
| Latest.NoArtifactIsSelected | pkg/version/filters.go:10-20 | In no mode does the selected tag end in .att, .sig or .sbom |
| Latest.ExpressionDecides | pkg/version/filters.go:22-25 | With a user expression, in both modes: the selected tag satisfies it, and some tag is selected exactly when a listed tag without those suffixes does |
| Latest.MetadataAndPinsDecide | pkg/version/filters.go:27-31 | Without one: the selected tag has no such suffix, no metadata unless asked for, and the pinned numbers; and some tag is selected exactly when a listed tag is like that |
| Latest.EveryTagCanBeNewest | pkg/version/filters.go:34-47 | In digest mode without one: some tag is selected exactly when a listed tag has none of the suffixes |
| Latest.DefaultModeIsPlain | pkg/version/filters.go:27-31 | Without a regular expression and the metadata option every candidate is metadata-free |
| Latest.SelectedIsGreatest | pkg/version/helpers.go:13-37 | No candidate exceeds the selected tag |
| Latest.NoLaterTagIsBetter | pkg/version/helpers.go:13-37 | In every mode the selected tag passes the filter and no later candidate beats it |
| Latest.OrderIndependent | pkg/client/util/util.go:76-82 | Every order of the list gives the same numbers, and the same string and timestamp when distinct candidate strings have distinct numbers |
| Latest.OrderIndependentIff | pkg/version/helpers.go:13-37 | For every list of metadata-free candidates: all orders select the same tag string exactly when the greatest candidates have only one, and then the same timestamp too |
| Latest.OrderIndependentInAnyModeIff | pkg/version/helpers.go:13-37 | For every list in every mode: all orders select one tag string exactly when some candidate is greater than, and not less than, every candidate with another tag |
| Latest.PairOrderIndependentIff | pkg/version/helpers.go:13-37 | What that comes to for two candidates: which one is selected is independent of their order exactly when exactly one is less than the other |
| Latest.TiedTagsDependOnOrder | pkg/version/helpers.go:13-37 | The tags 1 and v1: whichever is listed first is selected |
| Latest.TenIsSelected | pkg/version/helpers.go:13-37 | In default mode, of 1.2.9 and 1.10.0 the latter is selected, in whichever order they are listed |
| Latest.LaterOfOneTag | pkg/version/filters.go:62-65 | Of two images with one tag string the one with the later timestamp is selected, and the first listed of two equally late ones |
| Latest.LatestSHA | pkg/version/helpers.go:40-55 | The returned pointer is the slot of the first tag with the latest timestamp among those that pass the filter; nil exactly when none does |
| Latest.HeldByTime | pkg/version/helpers.go:43-52 | After n rounds the held tag is the first newest of the n that pass the filter |
| Latest.NoneIsNewer | pkg/version/helpers.go:43-52 | No listed tag that the filter lets through is later than the selected one, and none before it is as late |
| Latest.NewestTimestampOrderIndependent | pkg/version/helpers.go:40-55 | The timestamp settled on is the same for every order of the list |
| Verdict.SelectedDecides | pkg/controller/checker/checker.go:139-146 | Comparing the running tag with the selected tag alone decides whether any candidate exceeds it |
| Verdict.VerdictIsExact | pkg/controller/checker/checker.go:133-169 | Latest exactly when no candidate is greater and the selected tag is not the running one under another digest; a negative verdict always has a witness among the candidates |
| Verdict.WritesIff | pkg/controller/checker/checker.go:151-166 | The selected image is left alone exactly when there is no mismatch or no digest to write |
| Verdict.ParsedAppend | pkg/version/semver/semver.go:26-46 | Appending an "@" suffix to a tag appends it to the metadata and leaves the numbers |
| Verdict.LessThanExtension | pkg/version/semver/semver.go:85-110 | Metadata is less than itself with a text suffix exactly when its last word is text |
| Verdict.LessThanWritten | pkg/controller/checker/checker.go:156 | A tag is less than itself with a digest written into it exactly when it is empty or its metadata ends in text |
| Verdict.SecondCheckIff | pkg/controller/checker/checker.go:133-169 | Two checks against one cached image agree unless the first wrote a digest and the running tag is non-empty with no metadata or metadata ending in a digit |
| Verdict.SecondCheckFlips | pkg/controller/checker/checker.go:151-156 | The concrete image 1 under digest old, called outdated once and the latest from then on |
| Verdict.WrittenIsDropped | pkg/version/filters.go:27-28 | Once a digest has been written into a listed tag, a search without a user expression and the metadata option finds what it would find without that image |
| Verdict.CurrentAfterWriteIff | pkg/controller/checker/checker.go:139-166 | A container with the registry's own digest is the latest; after another container's mismatch it stays so exactly when its tag is non-empty with no metadata or metadata ending in a digit |
| ContainerChecker.CompareSemver | pkg/controller/checker/checker.go:133-169 | The verdict and the image as left behind, together, after comparing and writing through the pointer |
| ContainerChecker.CompareSHA | pkg/controller/checker/checker.go:172-206 | The digest-mode result: both versions, URL and verdict |
| ContainerChecker.SHAVerdictIsExact | pkg/controller/checker/checker.go:183-194 | A running digest is the latest exactly when the newest image or one of its children has it |
| ContainerChecker.FinishSemver | pkg/controller/checker/checker.go:103-125 | The version-mode result and the written-back image once the search has answered |
| ContainerChecker.PrintedVersions | pkg/controller/checker/checker.go:110-124 | Both printed versions carry a digest or neither does, and after a mismatch they are one tag with two different digests |
| ContainerChecker.VersionModePrints | pkg/controller/checker/checker.go:110-124 | Without a mismatch: the plain tags, or for a reference with a digest both tags with the registry's and the running digest behind an "@" |
| ContainerChecker.MismatchPrints | pkg/controller/checker/checker.go:151-166 | After a mismatch: outdated, and the selected tag with its image's own digest, else its first child's |
| ContainerChecker.DigestModePrints | pkg/controller/checker/checker.go:90-100 | In digest mode: the running digest if the selected image or a child has it, else the image's own, behind the tag if there is one |
| ContainerChecker.RunningDigestDecides | pkg/controller/checker/checker.go:34-194 | From the status to the report: a container whose image ID carries a digest, in digest mode or on the selected tag, is reported the latest exactly when the selected image or a child has that digest |
| ContainerChecker.PlanOfPrinted | pkg/controller/checker/checker.go:44-88 | For a reference printed from its parts: an override takes the place of its URL, a resolved tag that of its own, the tag "latest" or none forces digest mode, and no other option changes |
| ContainerChecker.PlannedVerdictIsExact | pkg/controller/checker/checker.go:90-206 | The end-to-end verdict over the fetched list, in version mode and in digest mode |
| ContainerChecker.MakePlan | pkg/controller/checker/checker.go:44-88 | The rebound locals and the write of UseSHA, from the reference, the options and a resolved tag |
| ContainerChecker.Checker.FinishInPlace | pkg/controller/checker/checker.go:90-125 | Finishing on a cached slot keeps what the caches hold for every other URL in agreement, and for the slot's own unless it wrote |
| ContainerChecker.Checker.CheckPlanned | pkg/controller/checker/checker.go:68-125 | The result of the plan on exactly what the search comes to, errors included; only the planned URL can stop agreeing, and only if the check wrote |
| ContainerChecker.Checker.Resolve | pkg/controller/checker/checker.go:47-60 | Exactly the tag that the list which can be had now has for the digest, if resolving is asked for and there is one; no request comes to anything else afterwards |
| ContainerChecker.Checker.Container | pkg/controller/checker/checker.go:34-75 | The whole check in every state of the caches: no result exactly without a status digest, else the result of the plan, with the digest resolved as above, on exactly what the search comes to; and what it leaves settled |
| ContainerChecker.Checker.ContainerTwice | pkg/controller/checker/checker.go:34-169 | Two checks of one container, through the caches, while the first answer stays cached: the second sees the image as the first left it, and they disagree exactly in version mode, after a digest mismatch for which the registry gave a digest, when the running tag is non-empty with no metadata or metadata ending in a digit |
| ContainerChecker.DigestlessKeepsTagIff | pkg/controller/checker/checker.go:52-59 | A reference without a digest keeps its own tag exactly when no listed image has an empty digest, or the first that has one is untagged or has that tag |
| ContainerChecker.DigestsKeepTag | pkg/controller/checker/checker.go:52-59 | In particular it does when every listed image and child has a digest |
| ContainerChecker.IndexReplacesTag | pkg/controller/checker/checker.go:52-59 | A reference app:1 that is compared as tag 9, because an image index has no digest of its own |
| ContainerChecker.CheckTwice | pkg/controller/checker/checker.go:103-169 | Two checks on one cached pointer disagree exactly under the condition of SecondCheckIff |
| CheckRuns.CheckAll | pkg/controller/checker/checker.go:34-75 | Any sequence of checks from empty caches, with cleaning in between: each report is that of its plan on what the search brought; and unless a check of the planned URL within two timeouts before wrote to a cached image, that is a direct computation on images that the registry gave for the URL at one of the checks so far, at most two timeouts ago, or the error of a fetch that brings no tags; the plan's tag is resolved on images at most one timeout old, likewise |
| CheckRuns.WriteShows | pkg/controller/checker/checker.go:151-166 | Every write to a cached image shows in the report: in version mode, outdated, one tag printed with two digests |
| CheckRuns.QuietIsUndisturbed | pkg/controller/checker/checker.go:103-169 | So a reader who sees no such report of the URL for so long knows that no check of it wrote in that time |
| CheckRuns.ReportedVerdictIsExact | pkg/controller/checker/checker.go:90-206 | What such a report says without a user expression and the metadata option: its verdict is exact for those images, in both modes |
| ImageReference.UrlTagSHAFromImage | pkg/controller/checker/helpers.go:43-75 | The three parts of every string |
| ImageReference.PrintsBackIff | pkg/controller/checker/helpers.go:43-75 | Printing the parts gives the reference back exactly when no separator is left dangling |
| ImageReference.DanglingSeparatorsAreLost | pkg/controller/checker/helpers.go:43-75 | Three references that do not come back |
| ImageReference.ReadsBackIff | pkg/controller/checker/helpers.go:43-75 | Splitting printed parts recovers them exactly when the URL holds no "@" and, without a tag, its colons cannot be taken for a tag separator |
| ImageReference.PortNamesReadBack | pkg/controller/checker/helpers.go:43-75 | A name whose colons all belong to a port before its first slash always comes back, with or without tag and digest |
| ImageReference.BareHostPortIsLost | pkg/controller/checker/helpers.go:43-75 | A bare host and port is read as a name and a tag |
| ImageReference.FirstNamed | pkg/controller/checker/helpers.go:11-12 | The first status with the name, or proof that there is none |
| ImageReference.ContainerStatusImageSHA | pkg/controller/checker/helpers.go:10-39 | The digest of the first init container status with the name, else of the first main one, else empty |
| ImageReference.PortTagAndDigest | pkg/controller/checker/helpers.go:43-75 | The parts of localhost:5000/app:1.2@sha256:abc |
| ImageReference.DigestIsRead | pkg/controller/checker/helpers.go:10-39 | What follows the first "@" in the image ID of the first status with the name, init containers before the others, is the digest |
| ImageReference.PrintedDigestIsRead | pkg/controller/checker/helpers.go:10-39 | So it is for an ID printed from a name, perhaps a tag, and a digest |
| ImageReference.WholeIDIsReadIff | pkg/controller/checker/helpers.go:15-19 | An ID without "@" is read whole exactly when no colon can be that of a tag |
| ImageReference.TagIsDropped | pkg/controller/checker/helpers.go:15-19 | With a tag and no digest, what stands before the tag is read |
| ImageReference.NoStatusNoDigest | pkg/controller/checker/helpers.go:38 | Without a status of the name there is no digest |
| ImageReference.BareDigestIsCut | pkg/controller/checker/helpers.go:15-19 | The ID sha256:abc is read as sha256 |
| KubeVersion.PrintedParsesBack | pkg/controller/kube_controller.go:107-113 | Printing three numbers in range and parsing them gives the same numbers and no metadata |
| KubeVersion.NormalisedRoundTrip | pkg/controller/kube_controller.go:104-113 | For every input, normalising keeps the saturated numbers, leaves no metadata and is idempotent |
| KubeVersion.FlagIsExact | pkg/controller/kube_controller.go:116 | The flag is true exactly when the current major is greater, or they agree and the minor is, or both agree and the patch is no less |
| KubeVersion.NormalisedText | pkg/controller/kube_controller.go:104-109 | Normalising a printed version leaves its three numbers printed, without the v and whatever follows |
| KubeVersion.BuildSuffixesGo | pkg/controller/kube_controller.go:104-116 | v1.32.9-gke.100 becomes 1.32.9, v1.33 becomes 1.33.0, and the former is behind |
| KubeVersion.Reconcile | pkg/controller/kube_controller.go:104-119 | The three values handed to the metric, for every pair of version strings |
| TagGrouping.TagMap.AddManifest | pkg/client/acr/acr.go:78-99 | One round of the loop takes the grouping of the manifests so far to that with one more |
| TagGrouping.TagMap.AddAll | pkg/client/acr/acr.go:76-99 | The finished map is the grouping of the whole answer |
| TagGrouping.TagMap.ToList | pkg/client/util/util.go:76-82 | The list holds each key's value exactly once, in whatever order the map is walked |
| TagGrouping.AcrTags | pkg/client/acr/acr.go:76-100 | The returned list is such a walk of the grouping |
| TagGrouping.EntryIsGroup | pkg/client/util/util.go:84-93 | A key that is no untagged digest holds the first listed image as root and the rest as children, in order |
| TagGrouping.EntryOfUntagged | pkg/client/acr/acr.go:87-91 | A key that is an untagged digest has that manifest's image as root, with no children unless it is also a tag |
| TagGrouping.ApartIsGrouped | pkg/client/acr/acr.go:76-99 | With digests apart from tags the map is exactly the tags' groups and the untagged images |
| TagGrouping.GroupingConservesIff | pkg/client/acr/acr.go:76-99 | A tag's root and children are all the images listed under it, in order, exactly when no untagged manifest has the tag as its digest |
| TagGrouping.MembersAre | pkg/client/acr/acr.go:78-98 | Field by field: each manifest that lists a tag gives one image with the tag, its own digest, creation time and platform; a tag's entry holds no others |
| TagGrouping.MembersInOrder | pkg/client/util/util.go:84-93 | The images of a tag's entry, root first, stand in the order of their manifests |
| TagGrouping.UntaggedIs | pkg/client/acr/acr.go:87-91 | An untagged manifest is listed without a tag, with its own digest, creation time and platform |
| TagGrouping.UntaggedDigestOverwritesTag | pkg/client/acr/acr.go:87-91 | A listing of two manifests that loses an image |
| TagGrouping.FirstWithDigest | pkg/version/version.go:87-91 | The first image with the digest, or proof that there is none |
| TagGrouping.EntryDigests | pkg/api/types.go:20-30 | A tag's entry has exactly the digests of the manifests that list the tag |
| TagGrouping.ResolvesExactly | pkg/version/version.go:80-94 | On the grouped list, in any order, a digest resolves to a tag of its manifest exactly when that has one, else to the empty string |
| OptionsBuilder.Builder.HandlePinOptions | pkg/controller/options/options.go:106-151 | The three together add no error exactly when every pin parses and none comes without the one before it |
| OptionsBuilder.Builder.Options | pkg/controller/options/options.go:29-67 | Succeeds exactly on acceptable annotations, with exactly the options they mean, and otherwise reports an error |
| OptionsBuilder.BuiltOptionsAreConsistent | pkg/controller/options/options.go:55-60 | Patch pin implies minor pin implies major pin, and digest mode excludes every semver option |
| OptionsBuilder.IndexInjective | pkg/controller/options/options.go:174-176 | The annotation index determines key and container, even for names that hold a slash |
| OptionsBuilder.OtherContainerUnaffected | pkg/controller/options/options.go:29-67 | Setting any annotation for one container changes neither acceptance nor options of another |
| OptionsBuilder.PinsDecideTheTag | pkg/version/filters.go:27-31 | From annotations to selection: the chosen tag agrees with every pin, and three pins fix its numbers |
| OptionsBuilder.AnnotationsMean | pkg/api/annotations.go:10-28 | By the text of its key: which annotation sets which option, and that switches are on only for the text true |
| OptionsBuilder.PinsMean | pkg/api/annotations.go:30-37 | A pin annotation with a printed number pins that number |
| OptionsBuilder.RefusedTogether | pkg/controller/options/options.go:55-60 | What is accepted never has use-sha true beside a semver annotation, a pin without the one before it, or an expression that does not compile |
| OptionsBuilder.AcceptedWithout | pkg/controller/options/options.go:29-67 | Without a semver annotation nothing is refused |
| OptionsBuilder.AcceptedInVersionMode | pkg/controller/options/options.go:29-67 | With use-sha not true, integer pins in order and an expression that compiles are accepted |
| TTLCache.LivesForOneTimeout | pkg/cache/cache.go:62 | An item is found up to and including one timeout after it was set, and for ever without a positive timeout |
| TTLCache.Cache.Lookup | pkg/cache/cache.go:50 | An item is found exactly when present and not expired |
| Search.Version.ListedIsRecent | pkg/cache/cache.go:49-67 | On a settled URL a cached list is, as it was given, a registry answer at most one timeout old |
| Search.Select | pkg/version/version.go:51-74 | The selected slot in digest or version mode, or the error of that mode |
| Search.Version.FetchAndCommit | pkg/cache/cache.go:53-63 | An error exactly when the registry has no tags, with nothing changed; else its answer is stored under the URL, and every URL that agreed still agrees |
| Search.Version.GetTags | pkg/cache/cache.go:49-67 | Exactly the cached list as it stands, or the registry's; an error exactly when there is neither; what each URL would bring now stays the same |
| Search.Version.LatestTagFromImage | pkg/version/version.go:42-77 | In every state the direct computation on exactly that list, its error included, and the slot it selects |
| Search.FindByDigest | pkg/version/version.go:87-93 | The loop returns the tag of the first image with the digest, else the empty string |
| Search.Version.ResolveSHAToTag | pkg/version/version.go:80-94 | In every state the tag that exactly that list has for the digest, or the error of the fetch |
| Search.Search.LatestImage | pkg/controller/search/search.go:58-70 | In every state the cached answer as it stands, or else the inner computation, which is stored under the key for this request and no other; errors store nothing; every URL that agreed still agrees |
| Search.Search.FetchAndCommit | pkg/controller/search/search.go:46-53 | The miss path: exactly the inner computation, recorded for this request |
| Search.Search.SeenIsDirect | pkg/controller/search/search.go:58-70 | For a settled URL and a request with its own key, what LatestImage comes to is the direct computation on a registry answer at most two timeouts old, or the error of a fetch that brings no tags |
| Search.Search.OwnKeysDoNotCollide | pkg/controller/search/search.go:82-94 | If no two requests in use share a key, no request in use collides with a cached answer |
| Search.Search.SameSlotsSettled | pkg/controller/checker/checker.go:156-161 | Agreement for a URL depends only on the slots filled for that URL, so a write to any other leaves it |
| Search.Search.SettledAgain | pkg/cache/cache.go:32 | Whatever was written to, one timeout later every list for a URL is gone, and one more timeout later every answer, so both layers agree again |
| Search.Search.EvictExpired | pkg/cache/cache.go:32-35 | Exactly the expired entries of both layers go, no request is affected, and the agreement stays |
| Search.Search.Shutdown | pkg/cache/cache.go:43-45 | Both layers are empty, and agree |
| SearchRuns.ServeAll | pkg/controller/search/search.go:58-70 | Any sequence of requests from empty caches, with cleaning in between and no shared keys: each answer, hit or miss, is the direct computation on images that the registry gave for the URL at one of the requests so far, at most two timeouts ago, or the error of a fetch that brings no tags |
| Metrics.Vec.DeletePartialMatch | pkg/metrics/metrics.go:146-149 | Exactly the series with every given label and value go, and they are counted |
| Metrics.ContainerMatch | pkg/metrics/helpers.go:41-48 | The container labels match exactly the series of that container key |
| Metrics.PodMatch | pkg/metrics/helpers.go:34-39 | The pod labels match exactly the series of that pod |
| Metrics.LookupSeriesNeverMatch | pkg/metrics/metrics.go:147-149 | The duration and error deletes of RemoveImage select nothing |
| Metrics.Metrics.AddImage | pkg/metrics/metrics.go:112-137 | In terms of the abstract map from containers to records: one key is set and every other is untouched |
| Metrics.Metrics.RemoveImage | pkg/metrics/metrics.go:139-152 | One key is removed; the duration and error series stay |
| Metrics.Metrics.RemovePod | pkg/metrics/metrics.go:154-173 | The map, and the duration and error series, lose exactly what belongs to the pod |
| Metrics.Metrics.Execute | pkg/metrics/metrics.go:112-173 | Any sequence of the three operations on an empty store leaves the map that folding them gives, and the version series of whatever was added last, 1 exactly for the latest |
| Metrics.OneSeriesPerContainer | pkg/metrics/metrics.go:112-137 | Each container has exactly one version series and exactly one last-checked series, with the same image and value 0 or 1 |
| Metrics.MirrorWithKey | pkg/metrics/metrics.go:129-136 | Setting a new container's row keeps a vec the image of the map |
| Metrics.MirrorWithoutKey | pkg/metrics/metrics.go:126-127 | Deleting by container labels removes exactly that key from the map a vec represents |
| Metrics.MirrorWithoutPod | pkg/metrics/metrics.go:159-167 | Deleting by pod labels filters exactly that pod out of the map a vec represents |
| Metrics.RunHoldsLastAdded | pkg/metrics/metrics.go:112-173 | In that map a container has a record exactly when it was added last and not removed since |
| Metrics.SeriesSayLastAdded | pkg/metrics/metrics.go:112-137 | After any run the record added last for a container, and not removed since, has a version series with its image and both versions as labels, 1 exactly for the latest and 0 exactly for an outdated image, and a last-checked series with the time of the check |
| Metrics.NoOtherSeries | pkg/metrics/metrics.go:112-173 | Every version and last-checked series is such a one |
| MetricsRaces.RunIsExclusive | pkg/metrics/metrics.go:154-201 | In every reachable state the thread inside a method is the one that holds the mutex |
| MetricsRaces.SomeThreadCanStep | pkg/metrics/metrics.go:154-201 | In every reachable state with a call in progress some thread can step |
| MetricsRaces.PositiveCheckRecords | pkg/metrics/metrics.go:175-201 | A positive check, possible only for a pod the reader has, is followed by setting the duration under the four labels, or by counting one more error |
| MetricsRaces.PurgedIsStable | pkg/metrics/metrics.go:175-201 | While the reader does not have a pod, no step of any thread brings its duration or error series back |
| MetricsRaces.ReturningPurges | pkg/metrics/metrics.go:154-173 | RemovePod returns only with no series of the pod left in any of the four vecs and no thread past a positive check for it |
| MetricsRaces.NoResurrection | pkg/metrics/metrics.go:154-201 | In every interleaving, after a RemovePod has returned no duration or error series of the pod exists for as long as the reader does not have it |
| MetricsRaces.GaugesStayAwayIff | pkg/metrics/metrics.go:112-173 | In every interleaving, from the return of RemovePod on no version or last-checked series of the pod exists up to any later state exactly when no AddImage for the pod sets one in between |
| MetricsRaces.GaugesStayAway | pkg/metrics/metrics.go:112-173 | For a caller: with no AddImage for the pod under way when RemovePod returns and none made since, no gauge of the pod exists |
| MetricsRaces.AddImageResurrects | pkg/metrics/metrics.go:112-137 | A run from the start in which a removed pod's gauges come back through AddImage, with the pod absent throughout |
| MetricsRefinement.CallRefines | pkg/metrics/metrics.go:112-173 | The instructions of one call take the series of a map to the series of the map after its operation |
| MetricsRefinement.SequentialWhenFree | pkg/metrics/metrics.go:112-201 | In every interleaving, whenever the mutex is free the version and last-checked series and their values are exactly those of the completed calls, one after the other |
| MetricsRefinement.SeriesSayLastAdded | pkg/metrics/metrics.go:112-137 | So in every interleaving, whenever the mutex is free, the record added last for a container has those series, with 1 exactly for the latest |
| MetricsRefinement.NoOtherGauges | pkg/metrics/metrics.go:112-173 | And there are no other version and last-checked series |
| MetricsRefinement.OneSeriesPerContainer | pkg/metrics/metrics.go:112-137 | In every reachable state, also in the middle of a call, each of the two vecs has at most one series per container |
| Runs.RankBounds | pkg/client/quay/pager.go:32-94 | A number that every step lowers bounds the length of a run, which is how both pools are shown to terminate |
| WorkerPool.StepKeepsInv | pkg/client/quay/pager.go:73-91 | Every worker step keeps: slots counted and within capacity, mutex held by the appending worker, wait group counting the unfinished, each finished item recorded once |
| WorkerPool.OneAppender | pkg/client/quay/pager.go:81-89 | At most one worker is between Lock and Unlock |
| WorkerPool.SomeWorkerCanStep | pkg/client/quay/pager.go:73-91 | While a worker is unfinished some worker can step |
| WorkerPool.StepDoesWork | pkg/client/quay/pager.go:73-91 | Every worker step lowers the work left |
| WorkerPool.ZeroMeansDone | pkg/client/quay/pager.go:50 | A wait group at zero means every started worker is done |
| QuayPager.RunKeepsInv | pkg/client/quay/pager.go:32-94 | Every reachable state of paging loop and workers keeps the pool invariant and the pages read so far |
| QuayPager.BoundedAndExclusive | pkg/client/quay/pager.go:70-89 | In every run at most ten workers of a page hold its semaphore and at most one appends |
| QuayPager.NeverStuck | pkg/client/quay/pager.go:32-94 | Any reachable state that is not finished has an enabled step |
| QuayPager.EachItemOnce | pkg/client/quay/pager.go:32-94 | When fetchTags returns nil, each item of the at most 59 pages is in the tags or the errors exactly once, and nothing else is |
| QuayPager.PagesRead | pkg/client/quay/pager.go:38-52 | Those are the pages up to number 59 or the first that promises no other, and each of them came in |
| QuayPager.FailsOnlyOnPageError | pkg/client/quay/pager.go:40-43 | fetchTags returns an error only for a page below 60 that gave one, every page before it having come in and promised another |
| QuayPager.NextLowersRank | pkg/client/quay/pager.go:32-94 | Every step lowers the rank |
| QuayPager.RunsAreBounded | pkg/client/quay/pager.go:32-94 | So every run is no longer than the work its pages hold |
| OciManifests.BoundedWorkers | pkg/client/oci/oci.go:89-101 | In every run at most numWorkers workers are past the semaphore |
| OciManifests.OneWorkerAppends | pkg/client/oci/oci.go:117-170 | In every run at most one worker is between Lock and Unlock |
| OciManifests.NeverStuck | pkg/client/oci/oci.go:88-176 | Until Manifests has returned some step is enabled |
| OciManifests.ResultIsExact | pkg/client/oci/oci.go:88-176 | On return each input position is in the result once if its worker reached the append, and never otherwise |
| OciManifests.ResultNames | pkg/client/oci/oci.go:88-176 | The result's tag names are, occurrence by occurrence, the inputs whose look-up succeeded |
| OciManifests.RunsAreBounded | pkg/client/oci/oci.go:88-176 | Every run takes at most eight steps per tag and two more |
| FallbackClient.FirstSuccess | pkg/client/fallback/fallback.go:50-55 | The first attempt that succeeds, or proof that all fail |
| FallbackClient.Client.Tags | pkg/client/fallback/fallback.go:36-67 | A cached client that answers is the only one asked; in general the first success among the cached client and then the registered ones, an error exactly when all fail, at most one attempt more than there are clients; every cached client stays a registered one that has answered for its host |

## Left out

- HTTP requests, JSON, authentication, TLS, retries and back-off: a registry is a function from URLs to answers, or a fixed answer per attempt or page.
- selfhosted.Tags: it appends one pointer repeatedly (pkg/client/selfhosted/selfhosted.go:221-232), so the grouping law does not describe it. The ECR client's loop is the ACR one with an empty platform.
- User regular expressions: an arbitrary predicate, and compiling one an arbitrary partial function. Only the version expression is modelled as the language it is.
- Hash collisions and the JSON encoding of options: the key function is arbitrary, and the runs suppose that no two requests in use share a key. Options enter it with their compiled matcher.
- Non-ASCII tags: pkg/version/semver/word.go:105 slices bytes, and such tags are outside the tag grammar of the OCI Distribution Specification, section "Pulling manifests".
- ContainerChecker.Checker.Container: requires an override URL when digests are to be resolved, because pkg/controller/checker/checker.go:49 dereferences it unchecked.
- CheckRuns.CheckAll: for two timeouts after a check that wrote to a cached image it ties each report for that URL to what the search brought, and not to what the registry gave; `ContainerChecker.Checker.Container` says exactly what the search then brings.
- ContainerChecker.Checker.ContainerTwice: its statement about verdicts is for tags and digests without a newline, as every registry tag is, and for a digest that resolves alike both times.
- The clock of the caches is a parameter that does not run backwards, and their timeout is positive; the runs suppose both.
- Verdict.SecondCheckIff: for running tags and digests without a newline, as every registry tag is.
- Latest.NoLaterTagIsBetter: no maximality with metadata or a user expression, because the order is not asymmetric there; `Latest.OrderIndependentInAnyModeIff` says exactly when the selection is well determined all the same.
- TagGrouping.ResolvesExactly: for answers with distinct digests, digests apart from tags, and no empty tag string.
- The not-found branch after latestSemver (pkg/version/version.go:68-73) is never taken, since latestSemver already fails with a plain error; the model has no such branch.
- Concurrent use of the two caches and of the host cache: modelled one call at a time.
- MetricsRefinement.SequentialWhenFree: the duration and error series are not part of the map that is refined; `MetricsRaces.NoResurrection` is about those.
- QuayPager.EachItemOnce: page answers and fetch outcomes are fixed ahead of a run, as functions; a cancelled context is a page error.
- The go-cache, client_golang, strconv, fmt and regexp packages are not part of this model beyond the behaviour their documentation gives and the model writes out.
- Child images are values rather than pointers; nothing in the modelled code writes to a child.
- Error and log messages: errors are constructors.
- The kube version gauge, host routing, repository path parsing, platform guessing from tag names, flags and controller set-up: easy members only.
- The one-line setters of the caches, the vecs and the option handlers have contracts and no rows of their own.
- `SemVerScan.FillNumbers`, `MetadataWords.AddToWords`, `OptionsBuilder.Builder.HandlePinOptions`, `Search.Search.Store`, the `Checker` methods other than `Container`, and the methods for one step of a run are parts of one source function each, split out so that each has a contract of its own.
