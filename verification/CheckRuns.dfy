/** Whole runs of checks: what the result of any check in a sequence of checks is, digest mismatches included. */
module CheckRuns {
  import opened Wrappers
  import opened Text
  import opened Api
  import opened Latest
  import opened ImageReference
  import opened TagGrouping
  import opened Search
  import opened SearchRuns
  import opened Verdict
  import opened ContainerChecker

  /** A container to check: its pod's statuses, its name and image, and the options built for it. */
  datatype Check = Check(init: seq<ContainerStatus>, main: seq<ContainerStatus>, name: string, image: string,
                         opts: Options)
  {
    function SHA(): string {
      StatusSHA(init, main, name)
    }

    /** The URL that is searched, whatever a digest resolves to. */
    function URL(): string {
      PlanFor(image, opts, None).url
    }

    predicate Valid() {
      opts.resolveSHAToTags ==> opts.overrideURL.Some?
    }
  }

  type Report = Result<Option<CheckResult>>

  /** What a check resolved the digest to, and what its search brought. */
  datatype Sight = Sight(resolved: Option<string>, seen: Result<ImageTag>)

  function PlanOf(c: Check, sight: Sight): Plan {
    PlanFor(c.image, c.opts, sight.resolved)
  }

  /** The check found a digest mismatch and wrote to the cached image. */
  predicate Wrote(c: Check, sight: Sight) {
    c.SHA() != "" && Writes(PlanOf(c, sight), c.SHA(), sight.seen)
  }

  /** No check of this URL before check n, at most age before it, wrote to an image. */
  predicate Undisturbed(at: seq<Instant>, checks: seq<Check>, sights: seq<Sight>, n: nat, url: string, age: int)
    requires |checks| == |at| && n < |at| && n <= |sights|
  {
    forall j :: 0 <= j < n && checks[j].URL() == url && Wrote(checks[j], sights[j]) ==> at[n].now > at[j].now + age
  }

  /** The tag a digest resolves to, on images that the registry gave up to instant n; none when it has no tags. */
  ghost predicate ResolutionExplained(at: seq<Instant>, n: nat, c: Check, resolved: Option<string>, maxAge: int)
    requires n < |at|
  {
    var url := ResolveURL(c.image, c.opts);
    if !c.opts.resolveSHAToTags then resolved == None
    else
      || (resolved == None && !HasTags(at[n].registry, url))
      || exists images ::
           GivenBy(at, n, url, images, maxAge) && resolved == NonEmpty(ResolvedTag(images, Split(c.image).sha))
  }

  /**
   The report of check n. Without a status digest there is none. Otherwise it is that of the plan on what the search
   brought; and if no check of the planned URL within two timeouts before wrote to an image, that is a direct
   computation on images that the registry gave for the URL at most two timeouts ago, or the error of a fetch that
   brings no tags. The plan's tag is resolved on images given at most one timeout ago, if no check of the resolving
   URL within one timeout before wrote to an image.
   */
  ghost predicate Justified(at: seq<Instant>, checks: seq<Check>, sights: seq<Sight>, n: nat, report: Report,
                            timeout: int)
    requires |checks| == |at| && n < |at| && n < |sights|
  {
    var c, sight, plan := checks[n], sights[n], PlanOf(checks[n], sights[n]);
    if c.SHA() == "" then report == Ok(None)
    else
      && report == Reported(Checked(plan, c.SHA(), sight.seen))
      && (!c.opts.resolveSHAToTags ==> sight.resolved == None)
      && (Undisturbed(at, checks, sights, n, ResolveURL(c.image, c.opts), timeout) ==>
            ResolutionExplained(at, n, c, sight.resolved, timeout))
      && (Undisturbed(at, checks, sights, n, c.URL(), 2 * timeout) ==>
            Explained(at, n, c.URL(), plan.opts, sight.seen, 2 * timeout))
  }

  /** What the caches hold for a URL is settled from one timeout after the last check that wrote on. */
  ghost predicate SettledSince(search: Search, at: seq<Instant>, checks: seq<Check>, sights: seq<Sight>, n: nat)
    requires |checks| == |at| && n <= |at| && n <= |sights|
    reads search, search.searchCache, search.versionGetter, search.versionGetter.imageCache,
          search.versionGetter.owner.Keys
  {
    forall since, v :: LastWriteBefore(at, checks, sights, n, v, since - search.searchCache.timeout) ==>
      search.Settled(since, v)
  }

  /** Every check of the URL before check n that wrote to an image was before this time. */
  predicate LastWriteBefore(at: seq<Instant>, checks: seq<Check>, sights: seq<Sight>, n: nat, v: string, time: int)
    requires |checks| == |at| && n <= |at| && n <= |sights|
  {
    forall j :: 0 <= j < n && checks[j].URL() == v && Wrote(checks[j], sights[j]) ==> at[j].now < time
  }

  /** The requests that checking the container can make. */
  ghost predicate Covers(requests: Requests, c: Check) {
    forall resolved :: requests(c.URL(), PlanFor(c.image, c.opts, resolved).opts)
  }

  lemma SameURL(c: Check, resolved: Option<string>)
    ensures PlanFor(c.image, c.opts, resolved).url == c.URL()
  {
  }

  /** What holds before check n. */
  ghost predicate Ready(search: Search, at: seq<Instant>, checks: seq<Check>, sights: seq<Sight>, n: nat,
                        requests: Requests)
    requires |checks| == |at| && n <= |at| && n <= |sights|
    reads search, search.searchCache, search.versionGetter, search.versionGetter.imageCache,
          search.versionGetter.owner.Keys
  {
    && search.Valid() && search.AnswersOnly(requests)
    && (n < |at| ==> search.Timely(at[n].now))
    && AllGiven(at, n, search.versionGetter.snapshots)
    && SettledSince(search, at, checks, sights, n)
  }

  lemma ResolutionIsExplained(checker: Checker, at: seq<Instant>, n: nat, c: Check)
    requires n < |at| && c.Valid() && AllGiven(at, n, checker.search.versionGetter.snapshots)
    requires checker.search.Valid() && checker.search.Timely(at[n].now)
    requires checker.search.versionGetter.Settled(at[n].now, ResolveURL(c.image, c.opts))
    ensures ResolutionExplained(at, n, c, checker.Resolution(at[n].now, at[n].registry, c.image, c.opts),
                                checker.search.searchCache.timeout)
  {
    hide ResolvedTag, Split, ResolveURL, Version.Settled;
    var getter, url := checker.search.versionGetter, ResolveURL(c.image, c.opts);
    var now, registry, timeout := at[n].now, at[n].registry, checker.search.searchCache.timeout;
    if c.opts.resolveSHAToTags && getter.Available(now, url, registry) {
      var images := getter.Listed(now, url, registry);
      if getter.imageCache.Hit(now, url) {
        getter.ListedIsRecent(now, url, registry);
        RecentWasGiven(at, n, getter.snapshots, getter.current[url], url, timeout);
      } else {
        assert GivenAt(at, n, now, url, images, timeout);
      }
      assert GivenBy(at, n, url, images, timeout);
    }
  }

  /** What a check sees in the middle of a run justifies its report. */
  lemma ReportIsJustified(checker: Checker, at: seq<Instant>, checks: seq<Check>, sights: seq<Sight>, n: nat,
                          requests: Requests, sight: Sight, report: Report)
    requires |checks| == |at| && n < |at| && n == |sights| && checks[n].Valid()
    requires Ready(checker.search, at, checks, sights, n, requests)
    requires var c := checks[n]; var plan := PlanOf(c, sight);
      && checker.search.NoCollision(c.URL(), plan.opts)
      && (c.SHA() == "" ==> report == Ok(None))
      && (c.SHA() != "" ==>
            && sight.resolved == checker.Resolution(at[n].now, at[n].registry, c.image, c.opts)
            && sight.seen == checker.search.Seen(at[n].now, c.URL(), plan.opts, at[n].registry)
            && report == Reported(Checked(plan, c.SHA(), sight.seen)))
    ensures Justified(at, checks, sights + [sight], n, report, checker.search.searchCache.timeout)
  {
    hide Search.Settled, Search.Seen, Explained, AllGiven, ResolutionExplained, Checked, PlanOf, StatusSHA, ResolveURL;
    hide Wrote;
    var c, search, more := checks[n], checker.search, sights + [sight];
    var now, timeout := at[n].now, search.searchCache.timeout;
    if c.SHA() != "" {
      var url := ResolveURL(c.image, c.opts);
      if Undisturbed(at, checks, more, n, url, timeout) {
        UndisturbedIsBefore(at, checks, sights, sight, n, url, timeout, now - timeout);
        assert search.Settled(now, url);
        SettledLists(search, now, url);
        ResolutionIsExplained(checker, at, n, c);
      }
      if Undisturbed(at, checks, more, n, c.URL(), 2 * timeout) {
        UndisturbedIsBefore(at, checks, sights, sight, n, c.URL(), 2 * timeout, now - timeout - timeout);
        assert search.Settled(now - timeout, c.URL());
        SeenIsExplained(at, n, search, c.URL(), PlanOf(c, sight).opts);
      }
    }
  }

  lemma UndisturbedIsBefore(at: seq<Instant>, checks: seq<Check>, sights: seq<Sight>, sight: Sight, n: nat,
                            url: string, age: int, time: int)
    requires |checks| == |at| && n < |at| && n == |sights| && time == at[n].now - age
    requires Undisturbed(at, checks, sights + [sight], n, url, age)
    ensures LastWriteBefore(at, checks, sights, n, url, time)
  {
    hide Wrote;
    var more := sights + [sight];
    assert forall j :: 0 <= j < n ==> more[j] == sights[j];
  }

  lemma SettledLists(search: Search, since: int, url: string)
    requires search.Settled(since, url)
    ensures search.versionGetter.Settled(since, url)
  {
  }

  /** One more check keeps what is settled: it unsettles only its own URL, and only with a write. */
  twostate lemma StillSettledSince(search: Search, new at: seq<Instant>, new checks: seq<Check>,
                                   new sights: seq<Sight>, new n: nat, new sight: Sight)
    requires |checks| == |at| && n < |at| && n == |sights|
    requires forall since, v :: LastWriteBefore(at, checks, sights, n, v, since - search.searchCache.timeout) ==>
      old(search.Settled(since, v))
    requires search.Timely(at[n].now) && search.Valid()
    requires forall since, v :: old(search.Settled(since, v)) && v != checks[n].URL() ==> search.Settled(since, v)
    requires !Wrote(checks[n], sight) ==> search.KeepsSettled()
    ensures SettledSince(search, at, checks, sights + [sight], n + 1)
  {
    hide Search.Settled, Wrote;
    var more := sights + [sight];
    forall since, v | LastWriteBefore(at, checks, more, n + 1, v, since - search.searchCache.timeout)
      ensures search.Settled(since, v)
    {
      forall j | 0 <= j < n && checks[j].URL() == v && Wrote(checks[j], sights[j])
        ensures at[j].now < since - search.searchCache.timeout
      {
        assert more[j] == sights[j];
      }
      assert old(search.Settled(since, v));
      if v == checks[n].URL() && Wrote(checks[n], sight) {
        assert more[n] == sight;
        search.SettledAgain(at[n].now, since, v);
      }
    }
  }

  /** A cleaning, at any time. */
  method Clean(search: Search, at: seq<Instant>, checks: seq<Check>, ghost sights: seq<Sight>, n: nat,
               ghost requests: Requests)
    requires |checks| == |at| && n < |at| && n == |sights|
    requires Ready(search, at, checks, sights, n, requests)
    modifies search.searchCache, search.versionGetter.imageCache
    ensures Ready(search, at, checks, sights, n, requests)
  {
    hide Search.Settled, LastWriteBefore, AllGiven;
    var moment: int := *;
    search.EvictExpired(moment);
  }

  /** One check. */
  method CheckNext(checker: Checker, at: seq<Instant>, checks: seq<Check>, ghost sights: seq<Sight>, n: nat,
                   ghost requests: Requests)
    returns (report: Report, ghost sight: Sight)
    requires |checks| == |at| && n < |at| && n == |sights| && Ordered(at)
    requires checks[n].Valid() && Covers(requests, checks[n]) && checker.search.DistinctKeys(requests)
    requires Ready(checker.search, at, checks, sights, n, requests)
    modifies checker.search, checker.search.searchCache, checker.search.versionGetter,
             checker.search.versionGetter.imageCache, checker.search.versionGetter.owner.Keys
    ensures Ready(checker.search, at, checks, sights + [sight], n + 1, requests)
    ensures checker.search.versionGetter.OwnerGrows()
    ensures Justified(at, checks, sights + [sight], n, report, checker.search.searchCache.timeout)
  {
    hide Search.Settled, Search.Seen, Search.NoCollision, Explained, AllGiven, Justified, Writes;
    hide Checked, PlanFor, StatusSHA, Checker.Resolution;
    var c, search := checks[n], checker.search;
    var now, registry := at[n].now, at[n].registry;
    ghost var resolved := if c.SHA() == "" then None else checker.Resolution(now, registry, c.image, c.opts);
    ghost var plan := PlanFor(c.image, c.opts, resolved);
    SameURL(c, resolved);
    search.OwnKeysDoNotCollide(requests, c.URL(), plan.opts);
    sight := Sight(resolved, search.Seen(now, c.URL(), plan.opts, registry));
    ghost var due: Report := if c.SHA() == "" then Ok(None) else Reported(Checked(plan, c.SHA(), sight.seen));
    ReportIsJustified(checker, at, checks, sights, n, requests, sight, due);
    ghost var snapshots := search.versionGetter.snapshots;
    var opts := new Ref(c.opts);
    ghost var found: Option<string>;
    label before:
    report, found := checker.Container(now, registry, c.init, c.main, c.name, c.image, opts);
    assert report == due;
    StillSettledSince@before(search, at, checks, sights, n, sight);
    MoreGiven(at, n, snapshots, search.versionGetter.snapshots);
    if c.SHA() != "" { search.StillAnswersOnly@before(requests, c.URL(), plan.opts); }
    if n + 1 < |at| { search.TimelyLater(now, at[n + 1].now); }
  }

  /**
   Any sequence of checks from empty stores, at instants that do not run backwards, with cleaning at any moment and no
   key shared among the requests in use: every report is justified.
   */
  method CheckAll(checker: Checker, at: seq<Instant>, checks: seq<Check>, ghost requests: Requests)
    returns (reports: seq<Report>, ghost sights: seq<Sight>)
    requires checker.search.Valid() && checker.search.searchCache.timeout > 0
    requires checker.search.searchCache.store == map[] && checker.search.versionGetter.imageCache.store == map[]
    requires checker.search.versionGetter.snapshots == []
    requires |checks| == |at| && Ordered(at) && checker.search.DistinctKeys(requests)
    requires forall c :: c in checks ==> c.Valid() && Covers(requests, c)
    modifies checker.search, checker.search.searchCache, checker.search.versionGetter,
             checker.search.versionGetter.imageCache, checker.search.versionGetter.owner.Keys
    ensures |reports| == |checks| && |sights| == |checks|
    ensures forall i :: 0 <= i < |checks| ==>
      Justified(at, checks, sights, i, reports[i], checker.search.searchCache.timeout)
  {
    hide Search.Settled, Justified, AllGiven, Covers;
    var search := checker.search;
    reports, sights := [], [];
    NothingGiven(at);
    forall since, v ensures search.Settled(since, v) { search.EmptySettled(since, v); }
    for n := 0 to |checks|
      invariant |reports| == n && |sights| == n
      invariant Ready(search, at, checks, sights, n, requests)
      invariant forall r :: r in search.versionGetter.owner ==> r in old(search.versionGetter.owner) || fresh(r)
      invariant forall i :: 0 <= i < n ==>
        Justified(at, checks, sights, i, reports[i], search.searchCache.timeout)
    {
      if * {
        Clean(search, at, checks, sights, n, requests);
      }
      ghost var before := sights;
      ghost var sight: Sight;
      var report: Report;
      report, sight := CheckNext(checker, at, checks, sights, n, requests);
      reports, sights := reports + [report], sights + [sight];
      forall i | 0 <= i <= n
        ensures Justified(at, checks, sights, i, reports[i], search.searchCache.timeout)
      {
        if i < n { LaterSights(at, checks, before, sights, i, reports[i], search.searchCache.timeout); }
      }
    }
  }

  /** Whether a report is justified depends on it and the checks before it only. */
  lemma LaterSights(at: seq<Instant>, checks: seq<Check>, sights: seq<Sight>, more: seq<Sight>, n: nat,
                    report: Report, timeout: int)
    requires |checks| == |at| && n < |at| && n < |sights| && sights <= more
    requires Justified(at, checks, sights, n, report, timeout)
    ensures Justified(at, checks, more, n, report, timeout)
  {
    hide ResolutionExplained, Explained, Checked, PlanOf, Wrote;
    assert forall j :: 0 <= j <= n ==> more[j] == sights[j];
  }

  // ---------- what a reader of the reports can tell ----------

  /** The two printed versions are one tag with a digest each. */
  predicate SameTagPrinted(a: string, b: string) {
    exists i :: 0 <= i < |a| && i < |b| && a[i] == '@' && a[..i] == b[..i] && b[i] == '@'
  }

  /** The report of a container in version mode calls it outdated, and prints one tag with two digests. */
  predicate ShowsMismatch(c: Check, r: Report) {
    && !c.opts.useSHA && r.Ok? && r.value.Some? && !r.value.value.isLatest
    && SameTagPrinted(r.value.value.currentVersion, r.value.value.latestVersion)
  }

  /** Every write shows in the report. */
  lemma WriteShows(c: Check, sight: Sight)
    requires Wrote(c, sight)
    ensures ShowsMismatch(c, Reported(Checked(PlanOf(c, sight), c.SHA(), sight.seen)))
  {
    hide StatusSHA;
    var plan, image := PlanOf(c, sight), sight.seen.value;
    var digest := WrittenDigest(image).value;
    DigestShows(image.tag, digest);
    var a, b := WithDigest(plan.currentTag, c.SHA()), WithDigest(image.tag, digest);
    var i := |image.tag|;
    assert a[i] == '@' && b[i] == '@' && a[..i] == image.tag && b[..i] == image.tag;
  }

  /** For a reader of the reports: where none of a URL shows a mismatch for so long, the URL is undisturbed. */
  lemma QuietIsUndisturbed(at: seq<Instant>, checks: seq<Check>, sights: seq<Sight>, reports: seq<Report>, n: nat,
                           url: string, age: int, timeout: int)
    requires |checks| == |at| && n < |at| && n <= |sights| && n <= |reports|
    requires forall j :: 0 <= j < n ==> Justified(at, checks, sights, j, reports[j], timeout)
    requires forall j :: 0 <= j < n && checks[j].URL() == url && ShowsMismatch(checks[j], reports[j]) ==>
      at[n].now > at[j].now + age
    ensures Undisturbed(at, checks, sights, n, url, age)
  {
    hide ShowsMismatch, Wrote, ResolutionExplained, Explained, Checked, PlanOf;
    forall j | 0 <= j < n && checks[j].URL() == url && Wrote(checks[j], sights[j])
      ensures at[n].now > at[j].now + age
    {
      WroteHasSHA(checks[j], sights[j]);
      WriteShows(checks[j], sights[j]);
    }
  }

  lemma WroteHasSHA(c: Check, sight: Sight)
    requires Wrote(c, sight)
    ensures c.SHA() != ""
  {
  }

  /** The verdict on images is exact, in either mode. */
  ghost predicate ExactVerdict(plan: Plan, statusSHA: string, images: seq<ImageTag>, isLatest: bool) {
    match SelectedIndex(plan.opts, images)
    case None => false
    case Some(k) =>
      if plan.opts.useSHA then
        IsNewest(plan.opts, images, |images|, k) && (isLatest <==> images[k].HasDigest(statusSHA))
      else
        isLatest <==>
          NothingGreater(plan.opts, images, plan.currentTag) && !Mismatch(plan.currentTag, statusSHA, images[k])
  }

  /**
   What a justified report says without a user expression and the metadata option: its verdict is exact for images
   that the registry gave up to then, at most maxAge before. In version mode the image is called the latest exactly
   when no candidate among them exceeds the running tag and the selected tag is not the running one under another
   digest; in digest mode exactly when the newest of them has the running digest.
   */
  lemma ReportedVerdictIsExact(at: seq<Instant>, n: nat, url: string, plan: Plan, statusSHA: string,
                               seen: Result<ImageTag>, maxAge: int)
    requires n < |at| && statusSHA != "" && seen.Ok? && Explained(at, n, url, plan.opts, seen, maxAge)
    requires plan.opts.regexMatcher.None? && !plan.opts.useMetaData
    ensures var isLatest := PlannedResult(plan, statusSHA, seen.value).isLatest;
      exists images :: GivenBy(at, n, url, images, maxAge) && ExactVerdict(plan, statusSHA, images, isLatest)
  {
    hide GivenBy, PlannedResult, NothingGreater, Mismatch;
    var images :| GivenBy(at, n, url, images, maxAge) && seen == DirectResult(plan.opts, images);
    var k := SelectedIndex(plan.opts, images).value;
    DefaultModeIsPlain(plan.opts, images);
    PlannedVerdictIsExact(plan, statusSHA, images, k);
    assert ExactVerdict(plan, statusSHA, images, PlannedResult(plan, statusSHA, seen.value).isLatest);
  }
}
