/** The checker: one container's check end to end, from its image reference to the verdict. */
module ContainerChecker {
  import opened Wrappers
  import opened Text
  import opened SemVerScan
  import opened VersionOrder
  import opened Api
  import opened Latest
  import opened ImageReference
  import opened TagGrouping
  import opened Search
  import opened Verdict

  datatype CheckResult = CheckResult(currentVersion: string, latestVersion: string, imageURL: string, isLatest: bool)

  // ---------- the two verdicts ----------

  /** isLatestSemver after the search: compares, and on a digest mismatch writes through the selected pointer. */
  method CompareSemver(currentImage: ParsedVersion, currentSHA: string, latestImage: Ref<ImageTag>)
    returns (isLatest: bool)
    modifies latestImage
    ensures Outcome(isLatest, latestImage.value) ==
      SemverOutcome(currentImage.original, currentSHA, old(latestImage.value))
  {
    hide Scan;
    var latestImageV: ParsedVersion := Parse(latestImage.value.tag);
    ParsedOriginal(latestImage.value.tag);
    var less := SemVerLessThan(currentImage, latestImageV);
    isLatest := !less;
    assert isLatest == !Less(currentImage.original, latestImage.value.tag);
    var matches := MatchesSHA(latestImage.value, currentSHA);
    if currentImage.Equal(latestImageV) && !matches {
      isLatest := false;
      var image := latestImage.value;
      if image.sha != "" {
        latestImage.value := image.(tag := WithDigest(image.tag, image.sha));
      } else {
        for i := 0 to |image.children|
          invariant i == 0 && latestImage.value == image
        {
          if image.children[i].sha != currentSHA {
            latestImage.value := image.(tag := WithDigest(image.tag, image.children[i].sha));
            break;
          }
        }
      }
    }
  }

  /** What isLatestSHA reports about the selected image. */
  function SHAResult(imageURL: string, currentSHA: string, latest: ImageTag): CheckResult {
    var child := exists i :: 0 <= i < |latest.children| && latest.children[i].sha == currentSHA;
    var version := if child then currentSHA else latest.sha;
    CheckResult(
      currentSHA,
      if latest.tag != "" && version != "" then WithDigest(latest.tag, version) else version,
      imageURL,
      child || (latest.sha != "" && latest.sha == currentSHA))
  }

  method CompareSHA(imageURL: string, currentSHA: string, latest: ImageTag) returns (result: CheckResult)
    ensures result == SHAResult(imageURL, currentSHA, latest)
  {
    var isLatest, latestVersion := false, "";
    if latest.sha != "" {
      isLatest := latest.sha == currentSHA;
      latestVersion := latest.sha;
    }
    for i := 0 to |latest.children|
      invariant forall j :: 0 <= j < i ==> latest.children[j].sha != currentSHA
      invariant isLatest == (latest.sha != "" && latest.sha == currentSHA) && latestVersion == latest.sha
    {
      if latest.children[i].sha == currentSHA {
        isLatest := true;
        latestVersion := latest.children[i].sha;
        break;
      }
    }
    if |latest.tag| > 0 && latestVersion != "" {
      latestVersion := WithDigest(latest.tag, latestVersion);
    }
    result := CheckResult(currentSHA, latestVersion, imageURL, isLatest);
  }

  /** In digest mode a running digest is the latest exactly when the newest image or one of its children has it. */
  lemma SHAVerdictIsExact(imageURL: string, currentSHA: string, latest: ImageTag)
    requires currentSHA != ""
    ensures SHAResult(imageURL, currentSHA, latest).isLatest <==> latest.HasDigest(currentSHA)
  {
  }

  // ---------- the checks against the caches ----------

  /** fmt.Sprintf("%s@%s", ...) applied as handleSemver does, to the image as the comparison left it. */
  function SemverResult(imageURL: string, statusSHA: string, currentTag: string, usingSHA: bool,
                        outcome: Outcome): CheckResult
  {
    var image := outcome.image;
    var latestVersion :=
      if usingSHA && Lacks(image.tag, '@') && image.sha != "" then WithDigest(image.tag, image.sha) else image.tag;
    CheckResult(
      if Lacks(latestVersion, '@') then currentTag else WithDigest(currentTag, statusSHA),
      latestVersion,
      imageURL,
      outcome.isLatest)
  }

  /** How the reference, the options and a resolved tag decide what is compared with what. */
  datatype Plan = Plan(
    url: string, currentTag: string, currentSHA: string, usingSHA: bool, usingTag: bool, opts: Options)

  predicate LatestOrEmpty(tag: string) {
    tag == "" || tag == "latest"
  }

  /** Where a digest is resolved, before the override below. */
  function ResolveURL(image: string, opts: Options): string {
    if opts.overrideURL.Some? && opts.overrideURL.value != "" then opts.overrideURL.value else Split(image).url
  }

  function PlanFor(image: string, opts: Options, resolved: Option<string>): Plan {
    var r := Split(image);
    var tag := if resolved.Some? then resolved.value else r.tag;
    Plan(
      if opts.overrideURL.Some? then opts.overrideURL.value else r.url,
      tag,
      r.sha,
      r.sha != "" && resolved.None?,
      tag != "" && !LatestOrEmpty(tag),
      if LatestOrEmpty(tag) then opts.(useSHA := true) else opts)
  }

  /** The result of a check on the selected image. */
  function PlannedResult(plan: Plan, statusSHA: string, selected: ImageTag): CheckResult {
    if plan.opts.useSHA then
      var r := SHAResult(plan.url, statusSHA, selected);
      if plan.usingTag then r.(currentVersion := WithDigest(plan.currentTag, r.currentVersion)) else r
    else
      SemverResult(plan.url, statusSHA, plan.currentTag, plan.usingSHA,
                   SemverOutcome(plan.currentTag, statusSHA, selected))
  }

  /** The selected image as the check leaves it. */
  function ImageAfter(plan: Plan, statusSHA: string, selected: ImageTag): ImageTag {
    if plan.opts.useSHA then selected else SemverOutcome(plan.currentTag, statusSHA, selected).image
  }

  /** handleSemver once the image is selected. */
  method FinishSemver(plan: Plan, statusSHA: string, latestImage: Ref<ImageTag>) returns (result: CheckResult)
    requires !plan.opts.useSHA
    modifies latestImage
    ensures result == PlannedResult(plan, statusSHA, old(latestImage.value))
    ensures latestImage.value == ImageAfter(plan, statusSHA, old(latestImage.value))
  {
    hide Scan, SemverOutcome;
    var currentImage: ParsedVersion := Parse(plan.currentTag);
    ParsedOriginal(plan.currentTag);
    var isLatest := CompareSemver(currentImage, statusSHA, latestImage);
    var latestVersion := latestImage.value.tag;
    if plan.usingSHA && IndexOf(latestVersion, '@').None? && latestImage.value.sha != "" {
      latestVersion := WithDigest(latestVersion, latestImage.value.sha);
    }
    var currentVersion := plan.currentTag;
    if IndexOf(latestVersion, '@').Some? {
      currentVersion := WithDigest(currentVersion, statusSHA);
    }
    result := CheckResult(currentVersion, latestVersion, plan.url, isLatest);
  }

  /** handleSHA once the image is selected. */
  method FinishSHA(plan: Plan, statusSHA: string, latest: ImageTag) returns (result: CheckResult)
    requires plan.opts.useSHA
    ensures result == PlannedResult(plan, statusSHA, latest)
  {
    result := CompareSHA(plan.url, statusSHA, latest);
    if plan.usingTag {
      result := result.(currentVersion := WithDigest(plan.currentTag, result.currentVersion));
    }
  }

  /** A tag that was found; the empty string stands for none. */
  function NonEmpty(tag: string): Option<string> {
    if tag == "" then None else Some(tag)
  }

  /** The result of the planned check, given what the search brings. */
  function Checked(plan: Plan, statusSHA: string, seen: Result<ImageTag>): Result<CheckResult> {
    match seen
    case Err(e) => Err(e)
    case Ok(image) => Ok(PlannedResult(plan, statusSHA, image))
  }

  /** A result as Container returns it. */
  function Reported(r: Result<CheckResult>): Result<Option<CheckResult>> {
    match r
    case Err(e) => Err(e)
    case Ok(result) => Ok(Some(result))
  }

  /** The check writes to the image that the search brings. */
  predicate Writes(plan: Plan, statusSHA: string, seen: Result<ImageTag>) {
    seen.Ok? && ImageAfter(plan, statusSHA, seen.value) != seen.value
  }

  class Checker {
    const search: Search

    constructor (search: Search)
      ensures this.search == search
    {
      this.search := search;
    }

    /**
     handleSHA or handleSemver on a selected slot: what the caches hold for other URLs agrees as before, and
     so it does for the slot's own URL unless the check wrote to it.
     */
    method FinishInPlace(plan: Plan, statusSHA: string, latestImage: Ref<ImageTag>) returns (result: CheckResult)
      requires search.Valid() && latestImage in search.versionGetter.owner
      modifies latestImage
      ensures search.Valid()
      ensures result == PlannedResult(plan, statusSHA, old(latestImage.value))
      ensures latestImage.value == ImageAfter(plan, statusSHA, old(latestImage.value))
      ensures forall since, v :: old(search.Settled(since, v)) && v != search.versionGetter.owner[latestImage] ==>
        search.Settled(since, v)
      ensures latestImage.value == old(latestImage.value) ==> search.KeepsSettled()
    {
      hide PlannedResult, SemverOutcome;
      if plan.opts.useSHA {
        result := FinishSHA(plan, statusSHA, latestImage.value);
      } else {
        result := FinishSemver(plan, statusSHA, latestImage);
      }
      hide *;
      forall since, v | old(search.Settled(since, v))
                        && (v != search.versionGetter.owner[latestImage] || latestImage.value == old(latestImage.value))
        ensures search.Settled(since, v)
      {
        search.SameSlotsSettled(since, v);
      }
    }

    /** The search, then the check on what it found. */
    method CheckPlanned(now: int, registry: Registry, plan: Plan, statusSHA: string) returns (r: Result<CheckResult>)
      requires search.Valid()
      modifies search, search.searchCache, search.versionGetter, search.versionGetter.imageCache,
               search.versionGetter.owner.Keys
      ensures search.Valid() && search.versionGetter.OwnerGrows() && search.versionGetter.RecordsOnly(now, registry)
      ensures search.AnswersThis(plan.url, plan.opts)
      ensures r == Checked(plan, statusSHA, old(search.Seen(now, plan.url, plan.opts, registry)))
      ensures var seen := old(search.Seen(now, plan.url, plan.opts, registry));
        seen.Ok? ==> search.Serves(now, plan.url, plan.opts, ImageAfter(plan, statusSHA, seen.value))
      ensures old(search.Timely(now)) ==> search.Timely(now)
      ensures old(search.Timely(now)) && !Writes(plan, statusSHA, old(search.Seen(now, plan.url, plan.opts, registry)))
        ==> search.KeepsSettled()
      ensures old(search.Timely(now) && search.NoCollision(plan.url, plan.opts)) ==>
        forall since, v :: old(search.Settled(since, v)) && v != plan.url ==> search.Settled(since, v)
    {
      hide PlannedResult, ImageAfter, Search.Seen, Search.Settled, Search.CachesSlot, Search.Serves;
      var found := search.LatestImage(now, plan.url, plan.opts, registry);
      if found.Err? {
        r := Err(found.error);
        return;
      }
      var result := FinishInPlace(plan, statusSHA, found.value);
      search.CachedSlotServes(now, plan.url, plan.opts, found.value);
      r := Ok(result);
    }

    /** The tag that the container's digest is resolved to, if it is to be, a list can be had and has one. */
    ghost function Resolution(now: int, registry: Registry, image: string, opts: Options): Option<string>
      requires search.Valid()
      reads search, search.searchCache, search.versionGetter, search.versionGetter.imageCache,
            search.versionGetter.owner.Keys
    {
      if opts.resolveSHAToTags && search.versionGetter.Available(now, ResolveURL(image, opts), registry) then
        NonEmpty(ResolvedTag(search.versionGetter.Listed(now, ResolveURL(image, opts), registry), Split(image).sha))
      else None
    }

    /** The resolving part of Container. */
    method Resolve(now: int, registry: Registry, image: string, opts: Options) returns (resolved: Option<string>)
      requires search.Valid()
      requires opts.resolveSHAToTags ==> opts.overrideURL.Some?
      modifies search.versionGetter, search.versionGetter.imageCache
      ensures search.Valid() && search.versionGetter.OwnerGrows() && search.versionGetter.RecordsOnly(now, registry)
      ensures search.SameRequests(now, registry)
      ensures old(search.Timely(now)) ==> search.Timely(now)
      ensures search.KeepsSettled()
      ensures resolved == old(Resolution(now, registry, image, opts))
      ensures !opts.resolveSHAToTags ==> resolved == None
      ensures resolved != Some("")
    {
      hide Version.Settled, Version.Listed, Version.Available, Search.Settled, Search.SameRequests;
      hide ResolvedTag, Split;
      if !opts.resolveSHAToTags {
        search.FetchKeeps();
        search.versionGetter.ListsStay(now, registry);
        search.SameListsSameRequests(now, registry);
        return None;
      }
      var imageURL, _, currentSHA := UrlTagSHAFromImage(image);
      if |opts.overrideURL.value| > 0 {
        imageURL := opts.overrideURL.value;
      }
      var resolvedTag := search.versionGetter.ResolveSHAToTag(now, imageURL, currentSHA, registry);
      search.FetchKeeps();
      search.SameListsSameRequests(now, registry);
      if resolvedTag.Ok? && |resolvedTag.value| > 0 {
        return Some(resolvedTag.value);
      }
      return None;
    }

    /**
     Container. A container without a ready status gives no result. Otherwise the reference, the options and the
     resolved digest decide the plan, whose options the options pointer is left with, and the result is the planned
     one on what the search brings, its errors included. What the caches hold for other URLs agrees as before, and
     what they hold for the planned URL does unless the check wrote to the image.
     */
    method Container(now: int, registry: Registry, init: seq<ContainerStatus>, main: seq<ContainerStatus>,
                     name: string, image: string, opts: Ref<Options>)
      returns (r: Result<Option<CheckResult>>, ghost resolved: Option<string>)
      requires search.Valid()
      requires opts.value.resolveSHAToTags ==> opts.value.overrideURL.Some?
      modifies opts, search, search.searchCache, search.versionGetter, search.versionGetter.imageCache,
               search.versionGetter.owner.Keys
      ensures search.Valid() && search.versionGetter.OwnerGrows() && search.versionGetter.RecordsOnly(now, registry)
      ensures old(search.Timely(now)) ==> search.Timely(now)
      ensures StatusSHA(init, main, name) == "" ==>
        && r == Ok(None) && resolved == None && opts.value == old(opts.value)
        && search.StoresUnchanged() && search.answers == old(search.answers) && search.KeepsSettled()
      ensures StatusSHA(init, main, name) != "" ==>
        var plan := PlanFor(image, old(opts.value), resolved); var sha := StatusSHA(init, main, name);
        var seen := old(search.Seen(now, plan.url, plan.opts, registry));
        && resolved == old(Resolution(now, registry, image, opts.value)) && opts.value == plan.opts
        && (!old(opts.value.resolveSHAToTags) ==> resolved == None) && resolved != Some("")
        && r == Reported(Checked(plan, sha, seen))
        && (seen.Ok? ==> search.Serves(now, plan.url, plan.opts, ImageAfter(plan, sha, seen.value)))
        && search.AnswersThis(plan.url, plan.opts)
        && (old(search.Timely(now)) && !Writes(plan, sha, seen) ==> search.KeepsSettled())
        && (old(search.Timely(now) && search.NoCollision(plan.url, plan.opts)) ==>
              forall since, v :: old(search.Settled(since, v)) && v != plan.url ==> search.Settled(since, v))
    {
      hide Checked, Writes, PlanFor, Split, ResolvedTag, StatusSHA, ResolveURL;
      hide Version.Settled, Version.Available, Version.Listed;
      hide Search.Settled, Search.Timely, Search.Seen, Search.NoCollision, Search.CachedUntil, Search.Valid;
      hide Resolution, ImageAfter;
      resolved := None;
      var statusSHA := ContainerStatusImageSHA(init, main, name);
      if |statusSHA| == 0 {
        search.FetchKeeps();
        r := Ok(None);
        return;
      }
      var resolvedTag := Resolve(now, registry, image, opts.value);
      resolved := resolvedTag;
      var plan := MakePlan(image, opts, resolvedTag);
      var result := CheckPlanned(now, registry, plan, statusSHA);
      r := if result.Err? then Err(result.error) else Ok(Some(result.value));
    }

    /**
     Two checks of one running container while the answer of the first stays cached, with a digest resolved alike.
     Unless the search failed, they disagree about the verdict exactly in version mode, after a digest mismatch for
     which the registry gave a digest, when the running tag is non-empty with no metadata or metadata ending in a digit.
     */
    method ContainerTwice(now: int, registry: Registry, later: int, laterRegistry: Registry,
                          init: seq<ContainerStatus>, main: seq<ContainerStatus>, name: string, image: string,
                          opts: Options)
      returns (first: Result<Option<CheckResult>>, second: Result<Option<CheckResult>>,
               ghost resolved: Option<string>, ghost resolvedAgain: Option<string>)
      requires search.Valid() && StatusSHA(init, main, name) != ""
      requires opts.resolveSHAToTags ==> opts.overrideURL.Some?
      modifies search, search.searchCache, search.versionGetter, search.versionGetter.imageCache,
               search.versionGetter.owner.Keys
      ensures search.Valid()
      ensures !opts.resolveSHAToTags ==> resolved == resolvedAgain
      ensures var plan := PlanFor(image, opts, resolved); var sha := StatusSHA(init, main, name);
        var seen := old(search.Seen(now, plan.url, plan.opts, registry));
        resolved == resolvedAgain && seen.Ok?
        && old(search.CachedUntil(now, later, search.hash(plan.url, plan.opts))) ==>
          && first == Ok(Some(PlannedResult(plan, sha, seen.value)))
          && second == Ok(Some(PlannedResult(plan, sha, ImageAfter(plan, sha, seen.value))))
          && (OnOneLine(plan, seen.value) ==>
                (first.value.value.isLatest != second.value.value.isLatest <==> Flips(plan, sha, seen.value)))
    {
      hide PlannedResult, ImageAfter, PlanFor, StatusSHA, Flips, OnOneLine, ResolvedTag, ResolveURL, Split, Writes;
      hide Search.Settled, Search.Seen, Search.Timely, Search.NoCollision, Search.CachedUntil, Search.AnswersThis;
      hide Version.Available, Version.Listed, Version.RecordsOnly;
      ghost var plan := PlanFor(image, opts, Resolution(now, registry, image, opts));
      ghost var sha, seen := StatusSHA(init, main, name), search.Seen(now, plan.url, plan.opts, registry);
      if seen.Ok? && OnOneLine(plan, seen.value) { FlipsIff(plan, sha, seen.value); }
      var firstOpts := new Ref(opts);
      first, resolved := Container(now, registry, init, main, name, image, firstOpts);
      var secondOpts := new Ref(opts);
      second, resolvedAgain := Container(later, laterRegistry, init, main, name, image, secondOpts);
    }
  }

  /** The locals Container rebinds before it dispatches, and its write to the options. */
  method MakePlan(image: string, opts: Ref<Options>, resolved: Option<string>) returns (plan: Plan)
    modifies opts
    ensures plan == PlanFor(image, old(opts.value), resolved) && opts.value == plan.opts
  {
    var imageURL, currentTag, currentSHA := UrlTagSHAFromImage(image);
    var usingSHA, usingTag := |currentSHA| > 0, |currentTag| > 0;
    if resolved.Some? {
      currentTag := resolved.value;
      usingSHA := false;
      usingTag := true;
    }
    if currentTag == "" || currentTag == "latest" {
      opts.value := opts.value.(useSHA := true);
      usingTag := false;
    }
    if opts.value.overrideURL.Some? && opts.value.overrideURL.value != imageURL {
      imageURL := opts.value.overrideURL.value;
    }
    plan := Plan(imageURL, currentTag, currentSHA, usingSHA, usingTag, opts.value);
  }

  // ---------- what a planned result says ----------

  /**
   The end-to-end verdict. In version mode, over metadata-free candidates: latest exactly when no candidate
   exceeds the running tag and the selected tag is not the running one under another digest. In digest mode:
   latest exactly when the newest image, or one of its children, has the running digest.
   */
  lemma PlannedVerdictIsExact(plan: Plan, statusSHA: string, images: seq<ImageTag>, k: nat)
    requires statusSHA != "" && SelectedIndex(plan.opts, images) == Some(k)
    requires !plan.opts.useSHA ==> PlainCandidates(plan.opts, images)
    ensures k < |images|
    ensures !plan.opts.useSHA ==>
      (PlannedResult(plan, statusSHA, images[k]).isLatest <==>
        NothingGreater(plan.opts, images, plan.currentTag) && !Mismatch(plan.currentTag, statusSHA, images[k]))
    ensures plan.opts.useSHA ==>
      && IsNewest(plan.opts, images, |images|, k)
      && (PlannedResult(plan, statusSHA, images[k]).isLatest <==> images[k].HasDigest(statusSHA))
  {
    hide Candidate, Less, NothingGreater, PlainCandidates, SemverOutcome;
    if plan.opts.useSHA {
      SHAVerdictIsExact(plan.url, statusSHA, images[k]);
    } else {
      VerdictIsExact(plan.opts, images, plan.currentTag, statusSHA, k);
    }
  }

  lemma DigestShows(tag: string, digest: string)
    ensures !Lacks(WithDigest(tag, digest), '@')
  {
    assert WithDigest(tag, digest)[|tag|] == '@';
  }

  lemma SameTagDigests(tag: string, d: string, e: string)
    ensures WithDigest(tag, d) == WithDigest(tag, e) <==> d == e
  {
    if WithDigest(tag, d) == WithDigest(tag, e) {
      assert WithDigest(tag, d)[|tag| + 1..] == d && WithDigest(tag, e)[|tag| + 1..] == e;
    }
  }

  /**
   What version mode prints: the two versions carry a digest together or not at all, and after a digest
   mismatch they are the same tag with two different digests whenever the registry gave one to show.
   */
  lemma PrintedVersions(plan: Plan, statusSHA: string, selected: ImageTag)
    requires !plan.opts.useSHA && Lacks(plan.currentTag, '@')
    ensures var r := PlannedResult(plan, statusSHA, selected);
      Lacks(r.currentVersion, '@') <==> Lacks(r.latestVersion, '@')
    ensures var r := PlannedResult(plan, statusSHA, selected);
      Mismatch(plan.currentTag, statusSHA, selected) && WrittenDigest(selected).Some? ==>
        && !r.isLatest
        && r.currentVersion == WithDigest(plan.currentTag, statusSHA)
        && r.latestVersion == WithDigest(plan.currentTag, WrittenDigest(selected).value)
        && r.currentVersion != r.latestVersion
  {
    hide Less;
    DigestShows(plan.currentTag, statusSHA);
    if Mismatch(plan.currentTag, statusSHA, selected) && WrittenDigest(selected).Some? {
      DigestShows(plan.currentTag, WrittenDigest(selected).value);
      SameTagDigests(plan.currentTag, statusSHA, WrittenDigest(selected).value);
      assert selected.sha == "" ==> selected.children[0].sha != statusSHA;
    }
  }

  /** A tag with a digest is the tag up to its '@' and the digest after it. */
  lemma DigestReadsBack(tag: string, digest: string)
    requires Lacks(tag, '@')
    ensures WithDigest(tag, digest) == tag + "@" + digest
    ensures Split(WithDigest(tag, digest)).sha == digest
  {
    SplitAtDigest(tag, digest);
    assert tag + ("@" + digest) == tag + "@" + digest;
  }

  /** What version mode prints of a selected image that has the running digest, or another tag. */
  lemma VersionModePrints(plan: Plan, statusSHA: string, selected: ImageTag)
    requires !plan.opts.useSHA && Lacks(selected.tag, '@')
    requires selected.tag != plan.currentTag || selected.HasDigest(statusSHA)
    ensures var r := PlannedResult(plan, statusSHA, selected);
      && r.imageURL == plan.url
      && (!plan.usingSHA || selected.sha == "" ==>
            r.latestVersion == selected.tag && r.currentVersion == plan.currentTag)
      && (plan.usingSHA && selected.sha != "" ==>
            && r.latestVersion == selected.tag + "@" + selected.sha
            && r.currentVersion == plan.currentTag + "@" + statusSHA)
  {
    hide Less;
    DigestShows(selected.tag, selected.sha);
    assert WithDigest(selected.tag, selected.sha) == selected.tag + "@" + selected.sha;
    assert WithDigest(plan.currentTag, statusSHA) == plan.currentTag + "@" + statusSHA;
  }

  /** What it prints of the running tag under another digest: the image's own digest, or else its first child's. */
  lemma MismatchPrints(plan: Plan, statusSHA: string, selected: ImageTag)
    requires !plan.opts.useSHA && plan.currentTag == selected.tag && !selected.HasDigest(statusSHA)
    ensures var r := PlannedResult(plan, statusSHA, selected);
      && !r.isLatest && r.imageURL == plan.url
      && (selected.sha != "" ==>
            && r.latestVersion == selected.tag + "@" + selected.sha
            && r.currentVersion == plan.currentTag + "@" + statusSHA)
      && (selected.sha == "" && selected.children != [] ==>
            && r.latestVersion == selected.tag + "@" + selected.children[0].sha
            && r.currentVersion == plan.currentTag + "@" + statusSHA)
      && (selected.sha == "" && selected.children == [] ==> r.latestVersion == selected.tag)
  {
    hide Less;
    assert WithDigest(plan.currentTag, statusSHA) == plan.currentTag + "@" + statusSHA;
    DigestShows(selected.tag, selected.sha);
    assert WithDigest(selected.tag, selected.sha) == selected.tag + "@" + selected.sha;
    if selected.children != [] {
      DigestShows(selected.tag, selected.children[0].sha);
      assert WithDigest(selected.tag, selected.children[0].sha) == selected.tag + "@" + selected.children[0].sha;
    }
  }

  /** What digest mode prints: the running digest if a child has it, else the image's own, after the tag if any. */
  lemma DigestModePrints(plan: Plan, statusSHA: string, selected: ImageTag)
    requires plan.opts.useSHA
    ensures var r := PlannedResult(plan, statusSHA, selected);
      && r.imageURL == plan.url
      && (plan.usingTag ==> r.currentVersion == plan.currentTag + "@" + statusSHA)
      && (!plan.usingTag ==> r.currentVersion == statusSHA)
      && (statusSHA != "" && selected.HasDigest(statusSHA) ==>
            r.latestVersion == if selected.tag == "" then statusSHA else selected.tag + "@" + statusSHA)
      && (selected.sha != "" && !selected.HasDigest(statusSHA) ==>
            r.latestVersion == if selected.tag == "" then selected.sha else selected.tag + "@" + selected.sha)
      && (selected.sha == "" && !selected.HasDigest(statusSHA) ==> r.latestVersion == "")
  {
    assert WithDigest(plan.currentTag, statusSHA) == plan.currentTag + "@" + statusSHA;
    assert WithDigest(selected.tag, statusSHA) == selected.tag + "@" + statusSHA;
    assert WithDigest(selected.tag, selected.sha) == selected.tag + "@" + selected.sha;
  }

  /**
   From the status to the report. A container whose image ID carries a digest, checked in digest mode or on the
   selected tag, is reported the latest exactly when the selected image or one of its children has that digest.
   */
  lemma RunningDigestDecides(plan: Plan, init: seq<ContainerStatus>, main: seq<ContainerStatus>, name: string, i: nat,
                             head: string, digest: string, selected: ImageTag)
    requires IsFirstNamed(init + main, name, i) && (init + main)[i].imageID == head + ("@" + digest)
    requires Lacks(head, '@') && digest != ""
    requires plan.opts.useSHA || plan.currentTag == selected.tag
    ensures var r := Reported(Checked(plan, StatusSHA(init, main, name), Ok(selected)));
      && r.Ok? && r.value.Some?
      && (r.value.value.isLatest <==>
            selected.sha == digest || exists j :: 0 <= j < |selected.children| && selected.children[j].sha == digest)
  {
    hide StatusSHA, Less;
    DigestIsRead(init, main, name, i, head, digest);
    LessIrreflexive(selected.tag);
  }

  // ---------- what the plan is ----------

  /**
   The plan for a reference printed from a name, a tag and a digest. A resolved tag takes the place of the
   reference's own, an override that of its URL, and the tag "latest" or none forces digest mode.
   */
  lemma PlanOfPrinted(url: string, tag: string, sha: string, opts: Options, resolved: Option<string>)
    requires PlainTag(tag) && Lacks(url, '@') && ColonsBeforeFirstSlash(url)
    ensures var image := Print(ImageRef(url, tag, sha));
      var plan := PlanFor(image, opts, resolved);
      && plan.url == (if opts.overrideURL == None then url else opts.overrideURL.value)
      && (opts.overrideURL in {None, Some("")} ==> ResolveURL(image, opts) == url)
      && (forall u :: opts.overrideURL == Some(u) && u != "" ==> ResolveURL(image, opts) == u)
      && plan.currentSHA == sha
      && (resolved == None ==> plan.currentTag == tag && (plan.usingSHA <==> sha != ""))
      && (forall t :: resolved == Some(t) ==> plan.currentTag == t && !plan.usingSHA)
      && (plan.usingTag <==> plan.currentTag !in {"", "latest"})
      && (plan.opts.useSHA <==> opts.useSHA || plan.currentTag in {"", "latest"})
      && plan.opts.(useSHA := opts.useSHA) == opts
  {
    hide Split, Print, PlainTag, ColonsBeforeFirstSlash;
    PortNamesReadBack(url, tag, sha);
  }

  // ---------- when a second check comes to the other verdict ----------

  /** Neither the running tag nor the digest that may be written holds a newline, as none of a registry does. */
  predicate OnOneLine(plan: Plan, image: ImageTag) {
    '\n' !in plan.currentTag && (WrittenDigest(image).Some? ==> '\n' !in WrittenDigest(image).value)
  }

  /** A second check of the image, as the first one left it, comes to the other verdict. */
  predicate Flips(plan: Plan, statusSHA: string, image: ImageTag) {
    var m := Parsed(plan.currentTag).metadata;
    && !plan.opts.useSHA
    && Mismatch(plan.currentTag, statusSHA, image) && WrittenDigest(image).Some?
    && plan.currentTag != "" && (m == "" || IsDigit(m[|m| - 1]))
  }

  lemma FlipsIff(plan: Plan, statusSHA: string, image: ImageTag)
    requires OnOneLine(plan, image)
    ensures PlannedResult(plan, statusSHA, image).isLatest
            != PlannedResult(plan, statusSHA, ImageAfter(plan, statusSHA, image)).isLatest
      <==> Flips(plan, statusSHA, image)
  {
    hide SemverOutcome, Mismatch, Parsed;
    if !plan.opts.useSHA { SecondCheckIff(plan.currentTag, statusSHA, image); }
  }

  // ---------- references without a digest ----------

  /**
   A reference without a digest asks for the tag of the empty digest. It keeps its own tag exactly when no listed image
   has an empty digest, or the first that has one is untagged or has that very tag.
   */
  lemma DigestlessKeepsTagIff(image: string, opts: Options, images: seq<ImageTag>)
    requires Split(image).sha == ""
    ensures var resolved := NonEmpty(ResolvedTag(images, Split(image).sha));
      PlanFor(image, opts, resolved).currentTag == Split(image).tag <==>
        match FirstWithDigest(images, "")
        case None => true
        case Some(k) => images[k].tag == "" || images[k].tag == Split(image).tag
  {
  }

  /** With no empty digest on the list it does. */
  lemma DigestsKeepTag(image: string, opts: Options, images: seq<ImageTag>)
    requires Split(image).sha == "" && forall i :: 0 <= i < |images| ==> !images[i].HasDigest("")
    ensures PlanFor(image, opts, NonEmpty(ResolvedTag(images, Split(image).sha))).currentTag == Split(image).tag
  {
    DigestlessKeepsTagIff(image, opts, images);
  }

  lemma AppOneSplits()
    ensures Split("app:1") == ImageRef("app", "1", "")
  {
    hide IndexOf, LastIndexOf;
    TaggedReadsBack("app", "1", "");
    TaggedLacks("app", "1", '@');
    assert "app" + (":" + "1") == "app:1";
  }

  lemma FirstTagResolves(images: seq<ImageTag>, digest: string)
    requires images != [] && images[0].HasDigest(digest)
    ensures ResolvedTag(images, digest) == images[0].tag
  {
  }

  /** One that does not: app:1 is compared as 9, the tag of an image index, which has no digest of its own. */
  lemma IndexReplacesTag(opts: Options)
    ensures var images := [ImageTag("9", "", 0, "", "", [ImageTag("9", "d", 0, "", "", [])])];
      PlanFor("app:1", opts, NonEmpty(ResolvedTag(images, Split("app:1").sha))).currentTag == "9"
  {
    hide Split, ResolvedTag;
    AppOneSplits();
    FirstTagResolves([ImageTag("9", "", 0, "", "", [ImageTag("9", "d", 0, "", "", [])])], "");
  }

  // ---------- the same image checked twice ----------

  /**
   Two checks of the same running image while one selected tag stays cached. A first check that wrote a
   digest into the cached tag makes the second one call the outdated image the latest, exactly when the
   running tag is non-empty and its metadata, if any, ends in a digit.
   */
  method CheckTwice(plan: Plan, statusSHA: string, latestImage: Ref<ImageTag>)
    returns (first: CheckResult, second: CheckResult)
    requires !plan.opts.useSHA && '\n' !in plan.currentTag
    requires WrittenDigest(latestImage.value).Some? ==> '\n' !in WrittenDigest(latestImage.value).value
    modifies latestImage
    ensures var m := Parsed(plan.currentTag).metadata;
      second.isLatest != first.isLatest <==>
        && old(Mismatch(plan.currentTag, statusSHA, latestImage.value) && WrittenDigest(latestImage.value).Some?)
        && plan.currentTag != "" && (m == "" || IsDigit(m[|m| - 1]))
  {
    hide Scan, SemverOutcome, Mismatch;
    SecondCheckIff(plan.currentTag, statusSHA, latestImage.value);
    first := FinishSemver(plan, statusSHA, latestImage);
    second := FinishSemver(plan, statusSHA, latestImage);
  }
}
