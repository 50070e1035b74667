/** Whole runs of the two cache layers: what any sequence of requests is answered. */
module SearchRuns {
  import opened Wrappers
  import opened Api
  import opened Search

  /** When something is asked, and what the registry says then. */
  datatype Instant = Instant(now: int, registry: Registry)

  datatype Ask = Ask(url: string, opts: Options)

  /** Time does not run backwards. */
  predicate Ordered(at: seq<Instant>) {
    forall i, j :: 0 <= i <= j < |at| ==> at[i].now <= at[j].now
  }

  /** The registry gave these images, and not none, for the URL at instant j, at most maxAge before the given time. */
  predicate GivenAt(at: seq<Instant>, j: nat, now: int, url: string, images: seq<ImageTag>, maxAge: int) {
    && j < |at| && now - maxAge <= at[j].now <= now
    && at[j].registry(url) == Ok(images) && images != []
  }

  /** The registry gave them at some instant up to the n-th, at most maxAge before it. */
  ghost predicate GivenBy(at: seq<Instant>, n: nat, url: string, images: seq<ImageTag>, maxAge: int)
    requires n < |at|
  {
    exists j: nat :: j <= n && GivenAt(at, j, at[n].now, url, images, maxAge)
  }

  /**
   What is seen at instant n is the direct computation on images that the registry gave up to then, or the error
   of a fetch that brings no tags.
   */
  ghost predicate Explained(at: seq<Instant>, n: nat, url: string, opts: Options, seen: Result<ImageTag>, maxAge: int)
    requires n < |at|
  {
    || (seen == Err(FetchError(at[n].registry, url)) && !HasTags(at[n].registry, url))
    || exists images :: GivenBy(at, n, url, images, maxAge) && seen == DirectResult(opts, images)
  }

  /** Everything recorded as a registry answer was one, at an instant before n. */
  ghost predicate AllGiven(at: seq<Instant>, n: nat, snapshots: seq<Snapshot>) {
    forall s :: s in snapshots ==> exists j: nat :: j < n && GivenAt(at, j, s.time, s.url, s.images, 0)
  }

  lemma NothingGiven(at: seq<Instant>)
    ensures AllGiven(at, 0, [])
  {
  }

  lemma MoreGiven(at: seq<Instant>, n: nat, before: seq<Snapshot>, after: seq<Snapshot>)
    requires n < |at| && AllGiven(at, n, before) && before <= after
    requires forall i :: |before| <= i < |after| ==>
      after[i].time == at[n].now && at[n].registry(after[i].url) == Ok(after[i].images) && after[i].images != []
    ensures AllGiven(at, n + 1, after)
  {
    forall s | s in after ensures exists j: nat :: j < n + 1 && GivenAt(at, j, s.time, s.url, s.images, 0) {
      var i :| 0 <= i < |after| && after[i] == s;
      if i < |before| {
        assert before[i] == s;
        var j: nat :| j < n && GivenAt(at, j, s.time, s.url, s.images, 0);
      } else {
        assert GivenAt(at, n, s.time, s.url, s.images, 0);
      }
    }
  }

  /** What the getter knows of a URL was given. */
  lemma RecentWasGiven(at: seq<Instant>, n: nat, snapshots: seq<Snapshot>, s: Snapshot, url: string, maxAge: int)
    requires n < |at| && AllGiven(at, n, snapshots) && s in snapshots && Recent(s, url, at[n].now, maxAge)
    ensures GivenBy(at, n, url, s.images, maxAge)
  {
    var j: nat :| j < n && GivenAt(at, j, s.time, s.url, s.images, 0);
    assert GivenAt(at, j, at[n].now, url, s.images, maxAge);
  }

  /** What the search comes to in the middle of a run. */
  lemma SeenIsExplained(at: seq<Instant>, n: nat, search: Search, url: string, opts: Options)
    requires n < |at| && AllGiven(at, n, search.versionGetter.snapshots)
    requires search.Valid() && search.Timely(at[n].now) && search.NoCollision(url, opts)
    requires search.Settled(at[n].now - search.searchCache.timeout, url)
    ensures Explained(at, n, url, opts, search.Seen(at[n].now, url, opts, at[n].registry),
                      2 * search.searchCache.timeout)
  {
    hide Search.Seen, Search.Settled, DirectResult;
    var now, registry, maxAge := at[n].now, at[n].registry, 2 * search.searchCache.timeout;
    var images := search.SeenIsDirect(now, url, opts, registry);
    if search.Answerable(now, url, opts, registry) {
      if s :| s in search.versionGetter.snapshots && Recent(s, url, now, maxAge) && s.images == images {
        RecentWasGiven(at, n, search.versionGetter.snapshots, s, url, maxAge);
      } else {
        assert !search.Known(now, url, images, maxAge);
        assert GivenAt(at, n, now, url, images, maxAge);
      }
      assert GivenBy(at, n, url, images, maxAge);
    }
  }

  /** What holds before request n. */
  ghost predicate Ready(search: Search, at: seq<Instant>, n: nat, requests: Requests)
    reads search, search.searchCache, search.versionGetter, search.versionGetter.imageCache,
          search.versionGetter.owner.Keys
  {
    && search.Valid() && search.AnswersOnly(requests)
    && (n < |at| ==> search.Timely(at[n].now))
    && AllGiven(at, n, search.versionGetter.snapshots)
    && forall since, v :: search.Settled(since, v)
  }

  /** One request, perhaps after a cleaning. */
  method ServeNext(search: Search, at: seq<Instant>, n: nat, url: string, opts: Options, ghost requests: Requests)
    returns (answer: Result<ImageTag>)
    requires n < |at| && Ordered(at) && requests(url, opts) && search.DistinctKeys(requests)
    requires Ready(search, at, n, requests)
    modifies search, search.searchCache, search.versionGetter, search.versionGetter.imageCache
    ensures Ready(search, at, n + 1, requests)
    ensures Explained(at, n, url, opts, answer, 2 * search.searchCache.timeout)
  {
    hide Search.Settled, Search.Seen, Explained, AllGiven;
    if * {
      var moment: int := *;
      search.EvictExpired(moment);
    }
    var now, registry := at[n].now, at[n].registry;
    search.OwnKeysDoNotCollide(requests, url, opts);
    SeenIsExplained(at, n, search, url, opts);
    ghost var snapshots := search.versionGetter.snapshots;
    label before:
    var r := search.LatestImage(now, url, opts, registry);
    search.StillAnswersOnly@before(requests, url, opts);
    MoreGiven(at, n, snapshots, search.versionGetter.snapshots);
    if n + 1 < |at| { search.TimelyLater(now, at[n + 1].now); }
    answer := if r.Err? then Err(r.error) else Ok(r.value.value);
  }

  /**
   Any sequence of requests from empty stores, at instants that do not run backwards, with cleaning at any moment and
   no key shared among the requests in use: every answer is the direct computation on images that the registry gave
   for the URL at one of the instants so far, at most two timeouts ago, or the error of a fetch that brings no tags.
   */
  method ServeAll(search: Search, at: seq<Instant>, asks: seq<Ask>, ghost requests: Requests)
    returns (answers: seq<Result<ImageTag>>)
    requires search.Valid() && search.searchCache.timeout > 0
    requires search.searchCache.store == map[] && search.versionGetter.imageCache.store == map[]
    requires search.versionGetter.snapshots == []
    requires |asks| == |at| && Ordered(at) && search.DistinctKeys(requests)
    requires forall a :: a in asks ==> requests(a.url, a.opts)
    modifies search, search.searchCache, search.versionGetter, search.versionGetter.imageCache
    ensures |answers| == |asks|
    ensures forall i :: 0 <= i < |asks| ==>
      Explained(at, i, asks[i].url, asks[i].opts, answers[i], 2 * search.searchCache.timeout)
  {
    hide Search.Settled, Explained, AllGiven;
    answers := [];
    NothingGiven(at);
    forall since, v ensures search.Settled(since, v) { search.EmptySettled(since, v); }
    for n := 0 to |asks|
      invariant Ready(search, at, n, requests) && |answers| == n
      invariant forall i :: 0 <= i < n ==>
        Explained(at, i, asks[i].url, asks[i].opts, answers[i], 2 * search.searchCache.timeout)
    {
      var answer := ServeNext(search, at, n, asks[n].url, asks[n].opts, requests);
      answers := answers + [answer];
    }
  }
}
