/**
 The two cache layers between a check and the registry: tag lists by image URL, and selected
 tags by a hash of the URL and the options. The registry at an instant is a function from URLs
 to answers; time is passed in.
 */
module Search {
  import opened Wrappers
  import opened Api
  import opened Latest
  import opened TTLCache
  import opened TagGrouping

  type Registry = string -> Result<seq<ImageTag>>

  /** One registry answer: when and for which URL, the slots it was stored in, and its content. */
  datatype Snapshot = Snapshot(time: int, url: string, slots: Slice, images: seq<ImageTag>)

  /** The index that a direct computation selects on a tag list. */
  function SelectedIndex(opts: Options, images: seq<ImageTag>): (r: Option<nat>)
    ensures r.Some? ==> r.value < |images|
  {
    if opts.useSHA then LatestSHAIndex(opts, images) else LatestSemverIndex(opts, images)
  }

  /** The error for a list on which nothing is selected. */
  function NotFound(opts: Options): Error {
    if opts.useSHA then NoVersionFound else NoSuitableVersion
  }

  /** The registry has tags for the URL. */
  predicate HasTags(registry: Registry, url: string) {
    registry(url).Ok? && registry(url).value != []
  }

  /** The error of a fetch that brings no tags. */
  function FetchError(registry: Registry, url: string): Error {
    if registry(url).Err? then FetchFailed else NoVersionFound
  }

  /** What LatestTagFromImage does with a tag list. */
  method Select(opts: Options, tags: Slice, ghost images: seq<ImageTag>) returns (r: Result<Ref<ImageTag>>)
    requires Holds(tags, images)
    ensures match SelectedIndex(opts, images)
      case None => r == Err(if opts.useSHA then NoVersionFound else NoSuitableVersion)
      case Some(k) => k < |tags| && r == Ok(tags[k])
  {
    if opts.useSHA {
      var tag := LatestSHA(opts, tags, images);
      r := if tag.None? then Err(NoVersionFound) else Ok(tag.value);
    } else {
      r := LatestSemver(opts, tags, images);
    }
  }

  /** The direct computation on a tag list. */
  function DirectResult(opts: Options, images: seq<ImageTag>): Result<ImageTag> {
    match SelectedIndex(opts, images)
    case None => Err(NotFound(opts))
    case Some(k) => Ok(images[k])
  }

  /** The image that a returned pointer points to now. */
  ghost function ValueOf(r: Result<Ref<ImageTag>>): Result<ImageTag>
    reads if r.Ok? then {r.value} else {}
  {
    match r
    case Err(e) => Err(e)
    case Ok(slot) => Ok(slot.value)
  }

  /** The content of the slots now. */
  ghost function CurrentImages(slots: Slice): (images: seq<ImageTag>)
    reads slots
    ensures Holds(slots, images)
  {
    seq(|slots|, i requires 0 <= i < |slots| reads slots => slots[i].value)
  }

  /** s is an answer for the URL that is at most maxAge old. */
  predicate Recent(s: Snapshot, url: string, now: int, maxAge: int) {
    s.url == url && now - maxAge <= s.time <= now
  }

  /** Allocates one addressable slot per image. */
  method NewSlice(images: seq<ImageTag>) returns (slots: Slice)
    ensures Holds(slots, images)
    ensures forall r :: r in slots ==> fresh(r)
  {
    slots := [];
    for i := 0 to |images|
      invariant Holds(slots, images[..i])
      invariant forall r :: r in slots ==> fresh(r)
    {
      var slot := new Ref(images[i]);
      slots := slots + [slot];
    }
    assert images[..|images|] == images;
  }

  // ---------- the inner cache ----------

  class Version {
    const imageCache: Cache<Slice>
    /** Every registry answer so far, the one behind each cached list, and the URL each slot was filled for. */
    ghost var snapshots: seq<Snapshot>
    ghost var current: map<string, Snapshot>
    ghost var owner: map<Ref<ImageTag>, string>

    constructor (cacheTimeout: int)
      ensures fresh(imageCache) && imageCache.timeout == cacheTimeout
      ensures snapshots == [] && imageCache.store == map[] && owner == map[]
    {
      imageCache := new Cache(cacheTimeout);
      snapshots, current, owner := [], map[], map[];
    }

    /** The slots were filled for the URL. */
    ghost predicate Owns(url: string, slots: Slice)
      reads this
    {
      forall r :: r in slots ==> r in owner && owner[r] == url
    }

    /** Every cached slot was filled for the URL it is cached under. */
    ghost predicate Owned()
      reads this, imageCache
    {
      forall url :: url in imageCache.store ==> Owns(url, imageCache.store[url].value)
    }

    /** Slots keep their URL, and those that come are new. */
    twostate predicate OwnerGrows()
      reads this
    {
      && (forall r :: r in old(owner) ==> r in owner && owner[r] == old(owner)[r])
      && (forall r :: r in owner && r !in old(owner) ==> fresh(r))
    }

    /** The slots still hold what the registry answered. */
    ghost predicate Unwritten(s: Snapshot)
      reads this, owner.Keys
    {
      Owns(s.url, s.slots) && Holds(s.slots, s.images)
    }

    /** The cached list is a registry answer for its URL, and expires one timeout after it was given. */
    ghost predicate CachedFrom(url: string)
      reads this, imageCache
      requires url in imageCache.store
    {
      && url in current && current[url] in snapshots && current[url].url == url
      && imageCache.store[url] == Item(current[url].slots, Some(current[url].time + imageCache.timeout))
    }

    /** The list for the URL, if it has not expired by the given time, is an unwritten registry answer. */
    ghost predicate Settled(since: int, url: string)
      reads this, imageCache, owner.Keys
    {
      imageCache.timeout > 0 && (imageCache.Hit(since, url) ==> CachedFrom(url) && Unwritten(current[url]))
    }

    twostate predicate KeepsSettled()
      reads this, imageCache, owner.Keys
    {
      forall since, v :: old(Settled(since, v)) ==> Settled(since, v)
    }

    /** The answers are only added to, and only by what the registry says now. */
    twostate predicate RecordsOnly(now: int, registry: Registry)
      reads this
    {
      && old(snapshots) <= snapshots
      && (forall s :: s in old(snapshots) ==> s in snapshots)
      && forall i :: |old(snapshots)| <= i < |snapshots| ==>
           && snapshots[i].time == now
           && registry(snapshots[i].url) == Ok(snapshots[i].images) && snapshots[i].images != []
    }

    twostate predicate StoreUnchanged()
      reads this, imageCache
    {
      imageCache.store == old(imageCache.store) && snapshots == old(snapshots)
    }

    /** A list for the URL can be had now: it is cached, or the registry has one. */
    ghost predicate Available(now: int, url: string, registry: Registry)
      reads this, imageCache
    {
      imageCache.Hit(now, url) || HasTags(registry, url)
    }

    /** Fetch: an empty tag list is an error, so that a bad URL is asked again. */
    method Fetch(now: int, url: string, registry: Registry) returns (r: Result<Slice>, ghost s: Snapshot)
      modifies this
      ensures r.Ok? <==> HasTags(registry, url)
      ensures r.Err? ==> r.error == FetchError(registry, url)
      ensures OwnerGrows() && RecordsOnly(now, registry)
      ensures r.Err? ==> snapshots == old(snapshots) && current == old(current) && owner == old(owner)
      ensures r.Ok? ==>
        && s == Snapshot(now, url, r.value, registry(url).value)
        && snapshots == old(snapshots) + [s] && current == old(current)[url := s]
        && owner == old(owner) + (map x | x in r.value :: url)
        && Holds(s.slots, s.images) && (forall x :: x in r.value ==> fresh(x))
    {
      var answer := registry(url);
      if answer.Err? {
        return Err(FetchFailed), Snapshot(now, url, [], []);
      }
      if |answer.value| == 0 {
        return Err(NoVersionFound), Snapshot(now, url, [], []);
      }
      var tags := NewSlice(answer.value);
      s := Snapshot(now, url, tags, answer.value);
      snapshots, current := snapshots + [s], current[url := s];
      owner := owner + (map x | x in tags :: url);
      r := Ok(tags);
    }

    /** A list just committed agrees with the registry. */
    lemma FreshlySettled(since: int, url: string, s: Snapshot)
      requires imageCache.timeout > 0 && url in imageCache.store && url in current
      requires current[url] == s && s in snapshots && s.url == url && Owns(url, s.slots) && Holds(s.slots, s.images)
      requires imageCache.store[url] == Item(s.slots, Some(s.time + imageCache.timeout))
      ensures Settled(since, url)
    {
    }

    /** What is cached for v is as before. */
    twostate predicate SameFor(new v: string)
      reads this, imageCache
    {
      && (v in imageCache.store <==> v in old(imageCache.store))
      && (v in imageCache.store ==> imageCache.store[v] == old(imageCache.store)[v])
      && (v in old(current) ==> v in current && current[v] == old(current)[v])
    }

    twostate predicate SlotsUnwritten()
      reads this, owner.Keys
    {
      forall r :: r in old(owner) && r in owner ==> r.value == old(r.value)
    }

    twostate lemma StillUnwritten(s: Snapshot)
      requires old(Unwritten(s)) && OwnerGrows() && SlotsUnwritten()
      ensures Unwritten(s)
    {
    }

    twostate lemma StillSettled(new since: int, new v: string)
      requires old(Settled(since, v)) && SameFor(v) && OwnerGrows() && SlotsUnwritten()
      requires forall s :: s in old(snapshots) ==> s in snapshots
      ensures Settled(since, v)
    {
      hide Unwritten;
      if imageCache.Hit(since, v) { StillUnwritten(old(current[v])); }
    }

    /** Storing a fetched list keeps the agreement for every URL. */
    twostate lemma CommitKeeps(new url: string, new s: Snapshot)
      requires url in imageCache.store && url in current && current[url] == s && s in snapshots && s.url == url
      requires Owns(url, s.slots) && Holds(s.slots, s.images)
      requires imageCache.timeout > 0 ==> imageCache.store[url] == Item(s.slots, Some(s.time + imageCache.timeout))
      requires forall v :: v != url ==> SameFor(v)
      requires OwnerGrows() && SlotsUnwritten() && forall s :: s in old(snapshots) ==> s in snapshots
      ensures KeepsSettled()
    {
      hide Unwritten, SameFor;
      forall since, v | old(Settled(since, v)) ensures Settled(since, v) {
        if v == url { FreshlySettled(since, url, s); } else { StillSettled(since, v); }
      }
    }

    twostate lemma NothingChanged()
      requires imageCache.store == old(imageCache.store) && snapshots == old(snapshots)
      requires current == old(current) && owner == old(owner) && SlotsUnwritten()
      ensures KeepsSettled()
    {
      forall since, v | old(Settled(since, v)) ensures Settled(since, v) { StillSettled(since, v); }
    }

    /** The miss path of the inner Get: a failed fetch commits nothing. */
    method FetchAndCommit(now: int, url: string, registry: Registry) returns (r: Result<Slice>)
      requires Owned()
      modifies this, imageCache
      ensures Owned() && OwnerGrows() && RecordsOnly(now, registry) && KeepsSettled()
      ensures r.Ok? <==> HasTags(registry, url)
      ensures r.Err? ==> r.error == FetchError(registry, url) && StoreUnchanged()
      ensures r.Ok? ==>
        && Owns(url, r.value) && Holds(r.value, registry(url).value)
        && imageCache.store == old(imageCache.store)[url := Item(r.value, Expiry(imageCache.timeout, now))]
    {
      hide Unwritten, Settled, KeepsSettled, OwnerGrows;
      ghost var s: Snapshot;
      r, s := Fetch(now, url, registry);
      if r.Err? {
        NothingChanged();
        return;
      }
      imageCache.Commit(now, url, r.value);
      CommitKeeps(url, s);
    }

    /** The list a Get for the URL would bring now: the cached one as it stands, or else the registry's. */
    ghost function Listed(now: int, url: string, registry: Registry): seq<ImageTag>
      requires Owned()
      reads this, imageCache, owner.Keys
    {
      if imageCache.Hit(now, url) then CurrentImages(imageCache.store[url].value)
      else if HasTags(registry, url) then registry(url).value
      else []
    }

    /** Which lists can be had now, and what is on them, is as before. */
    twostate predicate SameLists(now: int, registry: Registry)
      requires old(Owned()) && Owned()
      reads this, imageCache, owner.Keys
    {
      forall v ::
        && Available(now, v, registry) == old(Available(now, v, registry))
        && Listed(now, v, registry) == old(Listed(now, v, registry))
    }

    twostate lemma ListsStay(new now: int, new registry: Registry)
      requires old(Owned()) && unchanged(this, imageCache) && SlotsUnwritten()
      ensures SameLists(now, registry)
    {
    }

    /** On a settled URL a cached list is a registry answer at most one timeout old, as it was given. */
    lemma ListedIsRecent(now: int, url: string, registry: Registry)
      requires Owned() && Settled(now, url) && imageCache.Timely(now) && imageCache.Hit(now, url)
      ensures url in current && current[url] in snapshots && Recent(current[url], url, now, imageCache.timeout)
      ensures Listed(now, url, registry) == current[url].images
    {
    }

    /** imageCache.Get: a live entry is returned as it is, a missing or expired one fetched and committed. */
    method GetTags(now: int, url: string, registry: Registry) returns (r: Result<Slice>)
      requires Owned()
      modifies this, imageCache
      ensures Owned() && OwnerGrows() && RecordsOnly(now, registry) && KeepsSettled() && SameLists(now, registry)
      ensures old(imageCache.Timely(now)) ==> imageCache.Timely(now)
      ensures r.Ok? <==> old(Available(now, url, registry))
      ensures r.Err? ==> StoreUnchanged() && r.error == if registry(url).Err? then FetchFailed else NoVersionFound
      ensures r.Ok? ==>
        && Owns(url, r.value) && Holds(r.value, old(Listed(now, url, registry)))
        && imageCache.Hit(now, url) && imageCache.store[url].value == r.value
      ensures old(imageCache.Hit(now, url)) ==> StoreUnchanged()
      ensures !old(imageCache.Hit(now, url)) && r.Ok? ==>
        imageCache.store == old(imageCache.store)[url := Item(r.value, Expiry(imageCache.timeout, now))]
    {
      var item := imageCache.Lookup(now, url);
      if item.None? {
        r := FetchAndCommit(now, url, registry);
        return;
      }
      r := Ok(item.value);
      NothingChanged();
    }

    /** What LatestTagFromImage comes to now. */
    ghost function LatestNow(now: int, url: string, opts: Options, registry: Registry): Result<ImageTag>
      requires Owned()
      reads this, imageCache, owner.Keys
    {
      if Available(now, url, registry) then DirectResult(opts, Listed(now, url, registry))
      else Err(FetchError(registry, url))
    }

    /** The pointer is the slot that a direct computation selects on the list cached for the URL. */
    ghost predicate Selected(r: Ref<ImageTag>, k: nat, url: string, opts: Options)
      requires Owned()
      reads this, imageCache, owner.Keys
    {
      && url in imageCache.store && k < |imageCache.store[url].value| && r == imageCache.store[url].value[k]
      && SelectedIndex(opts, CurrentImages(imageCache.store[url].value)) == Some(k)
    }

    /** LatestTagFromImage: a direct computation on the cached or fetched list. */
    method LatestTagFromImage(now: int, url: string, opts: Options, registry: Registry)
      returns (r: Result<Ref<ImageTag>>, ghost k: nat)
      requires Owned()
      modifies this, imageCache
      ensures Owned() && OwnerGrows() && RecordsOnly(now, registry) && KeepsSettled() && SameLists(now, registry)
      ensures old(imageCache.Timely(now)) ==> imageCache.Timely(now)
      ensures ValueOf(r) == old(LatestNow(now, url, opts, registry))
      ensures r.Ok? ==>
        r.value in owner && owner[r.value] == url && imageCache.Hit(now, url) && Selected(r.value, k, url, opts)
      ensures old(imageCache.Hit(now, url)) || !HasTags(registry, url) ==> StoreUnchanged()
    {
      hide SelectedIndex, KeepsSettled, RecordsOnly, SameLists;
      k := 0;
      ghost var listed := Listed(now, url, registry);
      var tags := GetTags(now, url, registry);
      if tags.Err? {
        r := Err(tags.error);
        return;
      }
      ghost var images := CurrentImages(tags.value);
      assert images == listed;
      r := Select(opts, tags.value, images);
      if r.Ok? {
        k := SelectedIndex(opts, images).value;
      }
    }

    /** ResolveSHAToTag: the tag of the first listed image with the digest, else the empty string. */
    method ResolveSHAToTag(now: int, url: string, imageSHA: string, registry: Registry) returns (r: Result<string>)
      requires Owned()
      modifies this, imageCache
      ensures Owned() && OwnerGrows() && RecordsOnly(now, registry) && KeepsSettled() && SameLists(now, registry)
      ensures old(imageCache.Timely(now)) ==> imageCache.Timely(now)
      ensures r == if old(Available(now, url, registry)) then Ok(ResolvedTag(old(Listed(now, url, registry)), imageSHA))
                   else Err(FetchError(registry, url))
    {
      hide KeepsSettled, RecordsOnly, SameLists;
      var tags := GetTags(now, url, registry);
      if tags.Err? {
        r := Err(tags.error);
        return;
      }
      ghost var images := CurrentImages(tags.value);
      var tag := FindByDigest(tags.value, imageSHA, images);
      r := Ok(tag);
    }
  }

  /** The search loop of ResolveSHAToTag. */
  method FindByDigest(tags: Slice, imageSHA: string, ghost images: seq<ImageTag>) returns (tag: string)
    requires Holds(tags, images)
    ensures tag == ResolvedTag(images, imageSHA)
  {
    for i := 0 to |tags|
      invariant forall j :: 0 <= j < i ==> !images[j].HasDigest(imageSHA)
    {
      var matches := MatchesSHA(tags[i].value, imageSHA);
      if matches {
        FirstIs(images, imageSHA, i);
        return tags[i].value.tag;
      }
    }
    NoneHas(images, imageSHA);
    return "";
  }

  lemma FirstIs(images: seq<ImageTag>, digest: string, k: nat)
    requires k < |images| && images[k].HasDigest(digest)
    requires forall j :: 0 <= j < k ==> !images[j].HasDigest(digest)
    ensures ResolvedTag(images, digest) == images[k].tag
  {
    assert FirstWithDigest(images, digest) == Some(k);
  }

  lemma NoneHas(images: seq<ImageTag>, digest: string)
    requires forall j :: 0 <= j < |images| ==> !images[j].HasDigest(digest)
    ensures ResolvedTag(images, digest) == ""
  {
    assert FirstWithDigest(images, digest) == None;
  }

  // ---------- the outer cache ----------

  /** What a cached answer was computed from. */
  datatype Answer = Answer(url: string, opts: Options, snapshot: Snapshot, index: nat)

  /** The pointer is the slot that a direct computation selects on the snapshot. */
  predicate Selects(r: Ref<ImageTag>, s: Snapshot, k: nat, opts: Options) {
    SelectedIndex(opts, s.images) == Some(k) && k < |s.slots| && r == s.slots[k]
  }

  /** Some requests: those for which it is true. */
  type Requests = (string, Options) -> bool

  class Search {
    const versionGetter: Version
    const searchCache: Cache<Ref<ImageTag>>
    /** calculateHashIndex. */
    const hash: (string, Options) -> string
    /** What each cached answer was computed from. */
    ghost var answers: map<string, Answer>

    constructor (cacheTimeout: int, versionGetter: Version, hash: (string, Options) -> string)
      requires cacheTimeout == versionGetter.imageCache.timeout && versionGetter.Owned()
      ensures fresh(searchCache) && this.versionGetter == versionGetter && this.hash == hash
      ensures Valid() && searchCache.store == map[] && answers == map[]
    {
      this.versionGetter := versionGetter;
      this.hash := hash;
      searchCache := new Cache(cacheTimeout);
      answers := map[];
    }

    /**
     Both layers use one timeout, the objects are distinct, and every answer is recorded for a request with its
     key and points to a slot of that request's URL.
     */
    ghost predicate Valid()
      reads this, searchCache, versionGetter, versionGetter.imageCache
    {
      && searchCache.timeout == versionGetter.imageCache.timeout
      && (searchCache as object) != versionGetter.imageCache
      && versionGetter.Owned()
      && forall key :: key in searchCache.store ==>
           && key in answers && hash(answers[key].url, answers[key].opts) == key
           && searchCache.store[key].value in versionGetter.owner
           && versionGetter.owner[searchCache.store[key].value] == answers[key].url
    }

    /** Both timeouts are positive, and nothing was stored later than now. */
    ghost predicate Timely(now: int)
      reads searchCache, versionGetter, versionGetter.imageCache
    {
      searchCache.Timely(now) && versionGetter.imageCache.Timely(now)
    }

    /**
     The cached answer is the direct computation for its request, on an unwritten list at most one timeout
     older than itself.
     */
    ghost predicate Justified(key: string)
      reads this, searchCache, versionGetter, versionGetter.owner.Keys
      requires key in searchCache.store && key in answers
    {
      var a, item, timeout := answers[key], searchCache.store[key], searchCache.timeout;
      && a.snapshot in versionGetter.snapshots && a.snapshot.url == a.url
      && Selects(item.value, a.snapshot, a.index, a.opts) && versionGetter.Unwritten(a.snapshot)
      && item.expires.Some? && item.expires.value - 2 * timeout <= a.snapshot.time <= item.expires.value - timeout
    }

    /**
     What the layers hold for the URL agrees with the registry's answers, except for lists that expire before
     the given time, and answers that expire within a timeout of it.
     */
    ghost predicate Settled(since: int, url: string)
      reads this, searchCache, versionGetter, versionGetter.imageCache, versionGetter.owner.Keys
    {
      && versionGetter.Settled(since, url)
      && forall key :: key in answers && answers[key].url == url && searchCache.Hit(since + searchCache.timeout, key)
           ==> Justified(key)
    }

    twostate predicate KeepsSettled()
      reads this, searchCache, versionGetter, versionGetter.imageCache, versionGetter.owner.Keys
    {
      forall since, v :: old(Settled(since, v)) ==> Settled(since, v)
    }

    /** Agreement for a URL reads only the slots that were filled for it. */
    twostate lemma SameSlotsSettled(new since: int, new url: string)
      requires old(Settled(since, url))
      requires unchanged(this, searchCache, versionGetter, versionGetter.imageCache)
      requires forall r :: r in old(versionGetter.owner) && old(versionGetter.owner)[r] == url ==>
        r.value == old(r.value)
      ensures Settled(since, url)
    {
      hide Selects;
      forall key | key in answers && answers[key].url == url && searchCache.Hit(since + searchCache.timeout, key)
        ensures Justified(key)
      {
        assert old(Justified(key));
      }
    }

    /** Whatever was written to, one timeout later every list is gone, and one more timeout later every answer. */
    lemma SettledAgain(now: int, since: int, url: string)
      requires Timely(now) && searchCache.timeout == versionGetter.imageCache.timeout
      requires since > now + searchCache.timeout
      ensures Settled(since, url)
    {
    }

    /** What was stored by an instant was stored by any later one. */
    lemma TimelyLater(now: int, later: int)
      requires Timely(now) && now <= later
      ensures Timely(later)
    {
    }

    /** Layers that hold nothing agree with everything. */
    lemma EmptySettled(since: int, url: string)
      requires searchCache.store == map[] && versionGetter.imageCache.store == map[]
      requires versionGetter.imageCache.timeout > 0
      ensures Settled(since, url)
    {
    }

    /** An operation that changes the answers by one for a request in use leaves only answers for requests in use. */
    twostate lemma StillAnswersOnly(new requests: Requests, new url: string, new opts: Options)
      requires old(Valid()) && Valid() && old(AnswersOnly(requests)) && requests(url, opts) && AnswersThis(url, opts)
      ensures AnswersOnly(requests)
    {
    }

    /** No cached answer for another request has this request's key. */
    ghost predicate NoCollision(url: string, opts: Options)
      reads this, searchCache
    {
      var key := hash(url, opts);
      key in searchCache.store && key in answers ==> answers[key].url == url && answers[key].opts == opts
    }

    /** No two of these requests share a key. */
    ghost predicate DistinctKeys(requests: Requests) {
      forall u, o, v, p :: requests(u, o) && requests(v, p) && hash(u, o) == hash(v, p) ==> u == v && o == p
    }

    /** Every cached answer is for one of these requests. */
    ghost predicate AnswersOnly(requests: Requests)
      reads this, searchCache
    {
      forall key :: key in searchCache.store ==> key in answers && requests(answers[key].url, answers[key].opts)
    }

    /** The answers have changed, if at all, by one for this request. */
    twostate predicate AnswersThis(url: string, opts: Options)
      reads this, searchCache
    {
      forall key :: key in searchCache.store && key in answers ==>
        || (answers[key].url == url && answers[key].opts == opts)
        || (key in old(searchCache.store) && key in old(answers) && answers[key] == old(answers)[key])
    }

    /** While all requests in use have keys of their own, none collides with a cached answer. */
    lemma OwnKeysDoNotCollide(requests: Requests, url: string, opts: Options)
      requires Valid() && DistinctKeys(requests) && AnswersOnly(requests) && requests(url, opts)
      ensures NoCollision(url, opts)
    {
    }

    /** The request can be answered now: it is cached, or a list for its URL can be had. */
    ghost predicate Answerable(now: int, url: string, opts: Options, registry: Registry)
      reads this, searchCache, versionGetter, versionGetter.imageCache
    {
      searchCache.Hit(now, hash(url, opts)) || versionGetter.Available(now, url, registry)
    }

    /** An answer that LatestImage gives now under this key is still cached later, if nothing else is done. */
    ghost predicate CachedUntil(now: int, later: int, key: string)
      reads searchCache
    {
      if searchCache.Hit(now, key) then searchCache.Hit(later, key)
      else searchCache.timeout > 0 ==> later <= now + searchCache.timeout
    }

    /** What LatestImage comes to now: the cached answer as it stands, or else the inner computation. */
    ghost function Seen(now: int, url: string, opts: Options, registry: Registry): Result<ImageTag>
      requires Valid()
      reads this, searchCache, versionGetter, versionGetter.imageCache, versionGetter.owner.Keys
    {
      if searchCache.Hit(now, hash(url, opts)) then Ok(searchCache.store[hash(url, opts)].value.value)
      else versionGetter.LatestNow(now, url, opts, registry)
    }

    /** What LatestImage comes to for any request, and which requests share a key, is as before. */
    twostate predicate SameRequests(now: int, registry: Registry)
      requires old(Valid()) && Valid()
      reads this, searchCache, versionGetter, versionGetter.imageCache, versionGetter.owner.Keys
    {
      && (forall url, opts :: Seen(now, url, opts, registry) == old(Seen(now, url, opts, registry)))
      && (forall url, opts :: NoCollision(url, opts) == old(NoCollision(url, opts)))
    }

    /** For as long as the answer given now is cached, the request comes to this image, whatever the registry says. */
    twostate predicate Serves(now: int, url: string, opts: Options, image: ImageTag)
      requires Valid()
      reads this, searchCache, versionGetter, versionGetter.imageCache, versionGetter.owner.Keys
    {
      forall later, registry :: old(CachedUntil(now, later, hash(url, opts))) ==>
        Seen(later, url, opts, registry) == Ok(image)
    }

    /** The slot is what is cached under the request's key, for as long as an answer given now is. */
    twostate predicate CachesSlot(now: int, url: string, opts: Options, new slot: Ref<ImageTag>)
      reads this, searchCache
    {
      var key := hash(url, opts);
      && key in searchCache.store && searchCache.store[key].value == slot
      && forall later :: old(CachedUntil(now, later, key)) ==> searchCache.Hit(later, key)
    }

    twostate lemma CachedSlotServes(new now: int, new url: string, new opts: Options, new slot: Ref<ImageTag>)
      requires Valid() && CachesSlot(now, url, opts, slot)
      ensures Serves(now, url, opts, slot.value)
    {
    }

    /** Where the lists are the same, so are the requests. */
    twostate lemma SameListsSameRequests(new now: int, new registry: Registry)
      requires old(Valid()) && Valid() && unchanged(this, searchCache)
      requires versionGetter.OwnerGrows() && versionGetter.SlotsUnwritten() && versionGetter.SameLists(now, registry)
      ensures SameRequests(now, registry)
    {
      hide Version.Listed, Version.Available, DirectResult;
    }

    /**
     Agreement. For a settled URL and a request with its own key, what LatestImage comes to is the direct computation
     on a registry answer for the URL: one at most two timeouts old, or the present one. Only when nothing is cached
     and the registry has no tags is it the error of the fetch.
     */
    lemma SeenIsDirect(now: int, url: string, opts: Options, registry: Registry) returns (images: seq<ImageTag>)
      requires Valid() && Timely(now) && Settled(now - searchCache.timeout, url) && NoCollision(url, opts)
      ensures Answerable(now, url, opts, registry) ==>
        && Seen(now, url, opts, registry) == DirectResult(opts, images)
        && (Known(now, url, images, 2 * searchCache.timeout) || (registry(url) == Ok(images) && images != []))
      ensures !Answerable(now, url, opts, registry) ==>
        Seen(now, url, opts, registry) == Err(FetchError(registry, url)) && !HasTags(registry, url)
    {
      var key := hash(url, opts);
      images := [];
      if searchCache.Hit(now, key) {
        assert Justified(key);
        images := answers[key].snapshot.images;
        assert Recent(answers[key].snapshot, url, now, 2 * searchCache.timeout);
      } else if versionGetter.imageCache.Hit(now, url) {
        versionGetter.ListedIsRecent(now, url, registry);
        images := versionGetter.current[url].images;
        assert Recent(versionGetter.current[url], url, now, 2 * searchCache.timeout);
      } else if HasTags(registry, url) {
        images := registry(url).value;
      }
    }

    /** The registry has answered with these images for the URL, at most maxAge ago. */
    ghost predicate Known(now: int, url: string, images: seq<ImageTag>, maxAge: int)
      reads versionGetter
    {
      exists s :: s in versionGetter.snapshots && Recent(s, url, now, maxAge) && s.images == images
    }

    twostate predicate StoresUnchanged()
      reads searchCache, versionGetter, versionGetter.imageCache
    {
      searchCache.store == old(searchCache.store) && versionGetter.StoreUnchanged()
    }

    twostate lemma StillJustified(new key: string)
      requires old(key in searchCache.store && key in answers && Justified(key))
      requires key in searchCache.store && searchCache.store[key] == old(searchCache.store)[key]
      requires key in answers && answers[key] == old(answers)[key]
      requires forall s :: s in old(versionGetter.snapshots) ==> s in versionGetter.snapshots
      requires versionGetter.OwnerGrows() && versionGetter.SlotsUnwritten()
      ensures Justified(key)
    {
      hide Selects, Version.Unwritten;
      versionGetter.StillUnwritten(old(answers[key].snapshot));
    }

    /** Fetching a list without storing an answer keeps it too. */
    twostate lemma FetchKeeps()
      requires versionGetter.OwnerGrows() && versionGetter.SlotsUnwritten() && versionGetter.KeepsSettled()
      requires forall s :: s in old(versionGetter.snapshots) ==> s in versionGetter.snapshots
      requires searchCache.store == old(searchCache.store) && answers == old(answers)
      ensures KeepsSettled()
    {
      hide Justified, Version.Settled;
      forall since, v | old(Settled(since, v)) ensures Settled(since, v) {
        assert old(versionGetter.Settled(since, v));
        forall other | other in answers && answers[other].url == v
                       && searchCache.Hit(since + searchCache.timeout, other)
          ensures Justified(other)
        {
          StillJustified(other);
        }
      }
    }

    /** One more justified answer keeps the agreement for every URL. */
    twostate lemma StoreKeeps(new key: string)
      requires unchanged(versionGetter, versionGetter.imageCache) && versionGetter.SlotsUnwritten()
      requires key in searchCache.store && key in answers
      requires searchCache.store == old(searchCache.store)[key := searchCache.store[key]]
      requires answers == old(answers)[key := answers[key]]
      requires forall since ::
        versionGetter.Settled(since, answers[key].url) && searchCache.Hit(since + searchCache.timeout, key) ==>
          Justified(key)
      ensures KeepsSettled()
    {
      hide Justified, Version.Settled;
      forall since, v | old(Settled(since, v)) ensures Settled(since, v) {
        assert old(versionGetter.Settled(since, v));
        versionGetter.StillSettled(since, v);
        forall other | other in answers && answers[other].url == v
                       && searchCache.Hit(since + searchCache.timeout, other)
          ensures Justified(other)
        {
          if other != key { StillJustified(other); }
        }
      }
    }

    /** An answer just computed from a list that agrees is justified. */
    lemma NewIsJustified(now: int, since: int, key: string, k: nat, url: string, opts: Options)
      requires Timely(now) && searchCache.timeout == versionGetter.imageCache.timeout && versionGetter.Owned()
      requires key in searchCache.store && key in answers
      requires versionGetter.imageCache.Hit(now, url)
      requires versionGetter.Selected(searchCache.store[key].value, k, url, opts)
      requires searchCache.store[key].expires == Some(now + searchCache.timeout)
      requires url in versionGetter.current ==> answers[key] == Answer(url, opts, versionGetter.current[url], k)
      requires versionGetter.Settled(since, url) && searchCache.Hit(since + searchCache.timeout, key)
      ensures Justified(key)
    {
      hide SelectedIndex;
      var s := versionGetter.current[url];
      assert CurrentImages(versionGetter.imageCache.store[url].value) == s.images;
    }

    /** The commit of the miss path. */
    method Store(now: int, url: string, opts: Options, r: Ref<ImageTag>, ghost k: nat)
      requires Valid() && r in versionGetter.owner && versionGetter.owner[r] == url
      requires versionGetter.imageCache.Hit(now, url) && versionGetter.Selected(r, k, url, opts)
      modifies this, searchCache
      ensures Valid() && AnswersThis(url, opts)
      ensures searchCache.store == old(searchCache.store)[hash(url, opts) := Item(r, Expiry(searchCache.timeout, now))]
      ensures old(Timely(now)) ==> Timely(now) && KeepsSettled()
    {
      hide SelectedIndex, Justified, Settled, KeepsSettled, Version.Selected, Version.Settled;
      var key := hash(url, opts);
      ghost var timely := Timely(now);
      ghost var s := if url in versionGetter.current then versionGetter.current[url] else Snapshot(now, url, [], []);
      searchCache.Commit(now, key, r);
      answers := answers[key := Answer(url, opts, s, k)];
      if timely {
        forall since | versionGetter.Settled(since, url) && searchCache.Hit(since + searchCache.timeout, key)
          ensures Justified(key)
        {
          NewIsJustified(now, since, key, k, url, opts);
        }
        StoreKeeps(key);
      }
    }

    /** The miss path of the outer Get: Fetch, then commit under the key. */
    method FetchAndCommit(now: int, url: string, opts: Options, registry: Registry) returns (r: Result<Ref<ImageTag>>)
      requires Valid()
      modifies this, searchCache, versionGetter, versionGetter.imageCache
      ensures Valid() && versionGetter.OwnerGrows() && versionGetter.RecordsOnly(now, registry)
      ensures AnswersThis(url, opts)
      ensures old(Timely(now)) ==> Timely(now) && KeepsSettled()
      ensures r.Ok? ==> r.value in versionGetter.owner && versionGetter.owner[r.value] == url
      ensures ValueOf(r) == old(versionGetter.LatestNow(now, url, opts, registry))
      ensures searchCache.store == if r.Err? then old(searchCache.store)
        else old(searchCache.store)[hash(url, opts) := Item(r.value, Expiry(searchCache.timeout, now))]
      ensures !old(versionGetter.Available(now, url, registry)) ==> StoresUnchanged()
    {
      hide SelectedIndex, Settled, Justified;
      hide Version.Unwritten, Version.Settled, Version.KeepsSettled, Version.SameLists, Version.LatestNow;
      ghost var k: nat;
      r, k := versionGetter.LatestTagFromImage(now, url, opts, registry);
      FetchKeeps();
      if r.Err? {
        return;
      }
      Store(now, url, opts, r.value, k);
    }

    /**
     LatestImage: a live cached answer is returned as it is, a missing or expired one computed from the tag list
     and stored under the key. An error stores nothing, and one without an available list changes no store.
     */
    method LatestImage(now: int, url: string, opts: Options, registry: Registry) returns (r: Result<Ref<ImageTag>>)
      requires Valid()
      modifies this, searchCache, versionGetter, versionGetter.imageCache
      ensures Valid() && versionGetter.OwnerGrows() && versionGetter.RecordsOnly(now, registry)
      ensures AnswersThis(url, opts)
      ensures old(Timely(now)) ==> Timely(now) && KeepsSettled()
      ensures ValueOf(r) == old(Seen(now, url, opts, registry))
      ensures r.Ok? ==> r.value in versionGetter.owner
      ensures r.Ok? && old(NoCollision(url, opts)) ==> versionGetter.owner[r.value] == url
      ensures old(searchCache.Hit(now, hash(url, opts))) ==>
        r == Ok(old(searchCache.store)[hash(url, opts)].value) && StoresUnchanged()
      ensures !old(searchCache.Hit(now, hash(url, opts))) ==>
        searchCache.store == if r.Err? then old(searchCache.store)
          else old(searchCache.store)[hash(url, opts) := Item(r.value, Expiry(searchCache.timeout, now))]
      ensures r.Ok? ==> CachesSlot(now, url, opts, r.value)
      ensures !old(Answerable(now, url, opts, registry)) ==> StoresUnchanged()
    {
      hide SelectedIndex, Version.Unwritten, Version.Settled, Version.LatestNow;
      var key := hash(url, opts);
      var item := searchCache.Lookup(now, key);
      if item.None? {
        r := FetchAndCommit(now, url, opts, registry);
        return;
      }
      r := Ok(item.value);
    }

    /** Fewer entries agree no less. */
    twostate lemma FewerSettled()
      requires unchanged(this, versionGetter) && versionGetter.SlotsUnwritten()
      requires forall k :: k in searchCache.store ==>
        k in old(searchCache.store) && searchCache.store[k] == old(searchCache.store)[k]
      requires forall v :: v in versionGetter.imageCache.store ==>
        v in old(versionGetter.imageCache.store)
        && versionGetter.imageCache.store[v] == old(versionGetter.imageCache.store)[v]
      ensures KeepsSettled()
    {
      hide Version.Unwritten, Selects;
      forall since, v | old(Settled(since, v)) ensures Settled(since, v) {
        if versionGetter.imageCache.Hit(since, v) {
          versionGetter.StillUnwritten(versionGetter.current[v]);
        }
        forall key | key in answers && answers[key].url == v && searchCache.Hit(since + searchCache.timeout, key)
          ensures Justified(key)
        {
          StillJustified(key);
        }
      }
    }

    /** The cleaner goroutines of both stores, which drop exactly the expired items. */
    method EvictExpired(now: int)
      requires Valid()
      modifies searchCache, versionGetter.imageCache
      ensures Valid() && KeepsSettled()
      ensures searchCache.store == LiveItems(old(searchCache.store), now)
      ensures versionGetter.imageCache.store == LiveItems(old(versionGetter.imageCache.store), now)
      ensures forall key :: searchCache.Hit(now, key) == old(searchCache.Hit(now, key))
      ensures forall url :: versionGetter.imageCache.Hit(now, url) == old(versionGetter.imageCache.Hit(now, url))
    {
      searchCache.DeleteExpired(now);
      versionGetter.imageCache.DeleteExpired(now);
      FewerSettled();
    }

    /** Shutdown of both stores. */
    method Shutdown()
      requires Valid()
      modifies searchCache, versionGetter.imageCache
      ensures Valid() && KeepsSettled()
      ensures searchCache.store == map[] && versionGetter.imageCache.store == map[]
    {
      searchCache.Shutdown();
      versionGetter.imageCache.Shutdown();
      FewerSettled();
    }
  }
}
