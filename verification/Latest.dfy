/** Choosing the latest tag of a list: the filters, the two selection loops and what they select. */
module Latest {
  import opened Wrappers
  import opened Text
  import opened SemVerScan
  import opened VersionOrder
  import opened PrintedTags
  import opened Api
  import opened Selection

  // ---------- filters ----------

  predicate IsSBOMAttestationOrSig(tag: string) {
    HasSuffix(tag, ".att") || HasSuffix(tag, ".sig") || HasSuffix(tag, ".sbom")
  }

  predicate ShouldSkipTag(opts: Options, v: SemVer) {
    if IsSBOMAttestationOrSig(v.original) then true
    else if opts.regexMatcher.Some? then !opts.regexMatcher.value(v.original)
    else
      || (!opts.useMetaData && v.HasMetaData())
      || (opts.pinMajor.Some? && opts.pinMajor.value != v.Major())
      || (opts.pinMinor.Some? && opts.pinMinor.value != v.Minor())
      || (opts.pinPatch.Some? && opts.pinPatch.value != v.Patch())
  }

  predicate ShouldSkipSHA(opts: Options, tag: string) {
    if IsSBOMAttestationOrSig(tag) then true
    else if opts.regexMatcher.Some? then !opts.regexMatcher.value(tag)
    else false
  }

  predicate Candidate(opts: Options, image: ImageTag) {
    !ShouldSkipTag(opts, Parsed(image.tag))
  }

  // ---------- latestSemver ----------

  function Passing(opts: Options): Filter {
    image => Candidate(opts, image)
  }

  /** The index latestSemver settles on. */
  function LatestSemverIndex(opts: Options, tags: seq<ImageTag>): (r: Option<nat>)
    ensures r.Some? ==> r.value < |tags| && Candidate(opts, tags[r.value])
    ensures r.None? <==> forall i :: 0 <= i < |tags| ==> !Candidate(opts, tags[i])
  {
    var r := HeldAfter(Passing(opts), Less, tags, |tags|);
    assert forall i :: 0 <= i < |tags| ==> Passing(opts)(tags[i]) == Candidate(opts, tags[i]);
    r
  }

  /** isBetterSemVer on parsed versions, once some tag is already held. */
  method IsBetterSemVer(latestV: ParsedVersion, v: ParsedVersion, latest: ImageTag, current: ImageTag)
    returns (better: bool)
    requires latestV.original == latest.tag && v.original == current.tag
    ensures better == Better(Less, latest, current)
  {
    ParsedOriginal(latest.tag);
    ParsedOriginal(current.tag);
    var greater := SemVerLessThan(latestV, v);
    if greater {
      return true;
    }
    if latestV.Equal(v) && current.timestamp > latest.timestamp {
      return true;
    }
    return false;
  }

  method ParseAndFilter(opts: Options, image: ImageTag) returns (v: ParsedVersion, skip: bool)
    ensures v.original == image.tag
    ensures skip == !Passing(opts)(image)
  {
    v := Parse(image.tag);
    skip := ShouldSkipTag(opts, v);
  }

  /** latestSemver: returns a pointer into the slice it was given. */
  method LatestSemver(opts: Options, tags: Slice, ghost images: seq<ImageTag>) returns (r: Result<Ref<ImageTag>>)
    requires Holds(tags, images)
    ensures match LatestSemverIndex(opts, images)
      case None => r == Err(NoSuitableVersion)
      case Some(k) => k < |tags| && r == Ok(tags[k])
  {
    hide Candidate, Less, Scan;
    var latestImageTag: Ref?<ImageTag> := null;
    var latestV: ParsedVersion := Parsed("");
    ghost var held: Option<nat> := None;
    for i := 0 to |tags|
      invariant held == HeldAfter(Passing(opts), Less, images, i)
      invariant held.None? <==> latestImageTag == null
      invariant held.Some? ==> latestImageTag == tags[held.value]
      invariant latestImageTag != null ==> latestV.original == latestImageTag.value.tag
    {
      var v, skip := ParseAndFilter(opts, tags[i].value);
      if skip {
        continue;
      }
      var better := true;
      if latestImageTag != null {
        better := IsBetterSemVer(latestV, v, latestImageTag.value, tags[i].value);
      }
      if better {
        latestV := v;
        latestImageTag := tags[i];
        held := Some(i);
      }
    }
    if latestImageTag == null {
      return Err(NoSuitableVersion);
    }
    r := Ok(latestImageTag);
  }

  /** In every mode: the result passes the filter and no candidate after it would replace it. */
  lemma NoLaterTagIsBetter(opts: Options, tags: seq<ImageTag>, k: nat)
    requires LatestSemverIndex(opts, tags) == Some(k)
    ensures k < |tags| && Candidate(opts, tags[k])
    ensures forall j :: k < j < |tags| && Candidate(opts, tags[j]) ==> !Better(Less, tags[k], tags[j])
  {
    NoLaterCandidateIsBetter(Passing(opts), Less, tags, |tags|);
    assert forall j :: k < j < |tags| && Candidate(opts, tags[j]) ==> Passing(opts)(tags[j]);
  }

  // ---------- what the filters accept ----------

  /** No signature, attestation or SBOM is ever selected. */
  lemma NoArtifactIsSelected(opts: Options, tags: seq<ImageTag>, k: nat)
    requires LatestSemverIndex(opts, tags) == Some(k) || LatestSHAIndex(opts, tags) == Some(k)
    ensures k < |tags| && forall p :: tags[k].tag !in {p + ".att", p + ".sig", p + ".sbom"}
  {
    forall p ensures tags[k].tag !in {p + ".att", p + ".sig", p + ".sbom"} {
      HasSuffixIff(tags[k].tag, ".att");
      HasSuffixIff(tags[k].tag, ".sig");
      HasSuffixIff(tags[k].tag, ".sbom");
    }
  }

  predicate IsNoArtifact(tag: string) {
    !HasSuffix(tag, ".att") && !HasSuffix(tag, ".sig") && !HasSuffix(tag, ".sbom")
  }

  lemma CandidateIsWanted(opts: Options, image: ImageTag)
    requires opts.regexMatcher.None?
    ensures Candidate(opts, image) <==> IsWanted(opts, image.tag)
  {
    hide Parsed, HasSuffix;
    ParsedKeepsTag(image.tag);
  }

  lemma ParsedKeepsTag(tag: string)
    ensures Parsed(tag).original == tag
  {
  }

  /**
   With a user expression it alone decides, beside the three suffixes: a tag is selected exactly when a listed tag
   satisfies the expression, and the selected one does, whatever its metadata and the pins.
   */
  lemma ExpressionDecides(opts: Options, tags: seq<ImageTag>)
    requires opts.regexMatcher.Some?
    ensures LatestSemverIndex(opts, tags).Some? <==>
      exists image :: image in tags && opts.regexMatcher.value(image.tag) && IsNoArtifact(image.tag)
    ensures LatestSemverIndex(opts, tags).Some? ==>
      opts.regexMatcher.value(tags[LatestSemverIndex(opts, tags).value].tag)
    ensures LatestSemverIndex(opts, tags).Some? <==> LatestSHAIndex(opts, tags).Some?
    ensures LatestSHAIndex(opts, tags).Some? ==>
      opts.regexMatcher.value(tags[LatestSHAIndex(opts, tags).value].tag)
  {
    hide Candidate, ShouldSkipSHA, IsNoArtifact;
    forall image
      ensures Candidate(opts, image) <==> opts.regexMatcher.value(image.tag) && IsNoArtifact(image.tag)
      ensures Candidate(opts, image) <==> !ShouldSkipSHA(opts, image.tag)
    {
      CandidateByExpression(opts, image);
    }
    var r, s := LatestSemverIndex(opts, tags), LatestSHAIndex(opts, tags);
    if r.Some? { assert tags[r.value] in tags; }
    if s.Some? { assert tags[s.value] in tags; }
  }

  lemma CandidateByExpression(opts: Options, image: ImageTag)
    requires opts.regexMatcher.Some?
    ensures Candidate(opts, image) <==> opts.regexMatcher.value(image.tag) && IsNoArtifact(image.tag)
    ensures Candidate(opts, image) <==> !ShouldSkipSHA(opts, image.tag)
  {
    hide Parsed, HasSuffix;
    ParsedKeepsTag(image.tag);
  }

  /** Without one, metadata has to be asked for and the numbers have to be those that are pinned. */
  lemma MetadataAndPinsDecide(opts: Options, tags: seq<ImageTag>)
    requires opts.regexMatcher.None?
    ensures LatestSemverIndex(opts, tags).Some? <==> exists image :: image in tags && IsWanted(opts, image.tag)
    ensures LatestSemverIndex(opts, tags).Some? ==> IsWanted(opts, tags[LatestSemverIndex(opts, tags).value].tag)
  {
    hide Candidate, IsWanted;
    forall image ensures Candidate(opts, image) <==> IsWanted(opts, image.tag) {
      CandidateIsWanted(opts, image);
    }
    var r := LatestSemverIndex(opts, tags);
    if r.Some? { assert tags[r.value] in tags; }
  }

  /** The tag is no artifact, its metadata is allowed, and every pinned number is its own. */
  predicate IsWanted(opts: Options, tag: string) {
    && IsNoArtifact(tag)
    && (Parsed(tag).metadata == "" || opts.useMetaData)
    && (opts.pinMajor == None || opts.pinMajor == Some(Parsed(tag).version[0]))
    && (opts.pinMinor == None || opts.pinMinor == Some(Parsed(tag).version[1]))
    && (opts.pinPatch == None || opts.pinPatch == Some(Parsed(tag).version[2]))
  }

  /** In digest mode without an expression every tag but an artifact can be the newest. */
  lemma EveryTagCanBeNewest(opts: Options, tags: seq<ImageTag>)
    requires opts.regexMatcher.None?
    ensures LatestSHAIndex(opts, tags).Some? <==> exists image :: image in tags && IsNoArtifact(image.tag)
  {
    hide HasSuffix;
    var r := LatestSHAIndex(opts, tags);
    if r.Some? { assert tags[r.value] in tags; }
  }

  // ---------- what latestSemver selects among metadata-free candidates ----------

  /** Every tag that passes the filter parses without metadata. */
  predicate PlainCandidates(opts: Options, tags: seq<ImageTag>) {
    forall image :: image in tags && Candidate(opts, image) ==> MetadataFree(image.tag)
  }

  lemma DefaultModeIsPlain(opts: Options, tags: seq<ImageTag>)
    requires opts.regexMatcher.None? && !opts.useMetaData
    ensures PlainCandidates(opts, tags)
  {
  }

  lemma PlainIsWeaklyOrdered(opts: Options, tags: seq<ImageTag>)
    requires PlainCandidates(opts, tags)
    ensures WeaklyOrdered(Passing(opts), Less, tags)
  {
    forall x, y, z | x in tags && y in tags && z in tags && Passing(opts)(x) && Passing(opts)(y) && Passing(opts)(z)
      ensures OrderLaws(Less, x.tag, y.tag, z.tag)
    {
      StrictWeakOrder(x.tag, y.tag, z.tag);
    }
  }

  /**
   Among metadata-free candidates latestSemver computes exactly the specified answer: it selects
   k if and only if k is the answer, and fails if and only if every tag is filtered out.
   */
  lemma LatestSemverIsExact(opts: Options, tags: seq<ImageTag>, k: nat)
    requires PlainCandidates(opts, tags)
    ensures LatestSemverIndex(opts, tags) == Some(k) <==> IsAnswer(Passing(opts), Less, tags, |tags|, k)
    ensures LatestSemverIndex(opts, tags).None? <==> forall image :: image in tags ==> !Candidate(opts, image)
  {
    PlainIsWeaklyOrdered(opts, tags);
    LoopIsExact(Passing(opts), Less, tags, k);
  }

  /** The selected tag is metadata-free and no candidate exceeds it. */
  lemma SelectedIsGreatest(opts: Options, tags: seq<ImageTag>, k: nat)
    requires PlainCandidates(opts, tags) && LatestSemverIndex(opts, tags) == Some(k)
    ensures k < |tags| && MetadataFree(tags[k].tag)
    ensures forall image :: image in tags && Candidate(opts, image) ==> !Less(tags[k].tag, image.tag)
  {
    LatestSemverIsExact(opts, tags, k);
    forall image | image in tags && Candidate(opts, image)
      ensures !Less(tags[k].tag, image.tag)
    {
      var j :| 0 <= j < |tags| && tags[j] == image;
      assert Passing(opts)(tags[j]);
    }
  }

  /** Candidate strings with the same numbers are the same string. */
  predicate DistinctNumbers(opts: Options, tags: seq<ImageTag>) {
    forall x, y :: x in tags && y in tags && Candidate(opts, x) && Candidate(opts, y) && SameClass(x.tag, y.tag) ==>
      x.tag == y.tag
  }

  predicate SameClass(a: string, b: string) {
    (a == "" <==> b == "") && Parsed(a).version == Parsed(b).version
  }

  /**
   Listing the tags in any other order gives an answer with the same numbers, and the same tag
   string and timestamp too when distinct candidate strings have distinct numbers.
   */
  lemma OrderIndependent(opts: Options, tags: seq<ImageTag>, shuffled: seq<ImageTag>)
    requires PlainCandidates(opts, tags) && multiset(tags) == multiset(shuffled)
    ensures LatestSemverIndex(opts, tags).None? <==> LatestSemverIndex(opts, shuffled).None?
    ensures LatestSemverIndex(opts, tags).Some? ==>
      var a, b := tags[LatestSemverIndex(opts, tags).value], shuffled[LatestSemverIndex(opts, shuffled).value];
      && Parsed(a.tag).version == Parsed(b.tag).version
      && (DistinctNumbers(opts, tags) ==> a.tag == b.tag && a.timestamp == b.timestamp)
  {
    PlainIsWeaklyOrdered(opts, tags);
    PermutedOrder(Passing(opts), Less, tags, shuffled);
    if LatestSemverIndex(opts, tags).Some? {
      PermutedNotGreater(Passing(opts), Less, tags, shuffled);
      PermutedNotGreater(Passing(opts), Less, shuffled, tags);
      var a := tags[LatestSemverIndex(opts, tags).value];
      var k := LatestSemverIndex(opts, shuffled).value;
      var j := PermutedElement(shuffled, tags, k);
      assert Passing(opts)(a) && Passing(opts)(tags[j]);
      MetadataFreeLess(a.tag, tags[j].tag);
    } else if LatestSemverIndex(opts, shuffled).Some? {
      PermutedNotGreater(Passing(opts), Less, shuffled, tags);
    }
  }

  /** Both lists have a selected tag, and its string is the same. */
  predicate SelectsTag(opts: Options, tags: seq<ImageTag>, shuffled: seq<ImageTag>) {
    var a, b := LatestSemverIndex(opts, tags), LatestSemverIndex(opts, shuffled);
    a.Some? && b.Some? && tags[a.value].tag == shuffled[b.value].tag
  }

  /** Both lists have a selected tag, and its timestamp is the same. */
  predicate SelectsTimestamp(opts: Options, tags: seq<ImageTag>, shuffled: seq<ImageTag>) {
    var a, b := LatestSemverIndex(opts, tags), LatestSemverIndex(opts, shuffled);
    a.Some? && b.Some? && tags[a.value].timestamp == shuffled[b.value].timestamp
  }

  /** x is a candidate that no candidate exceeds. */
  predicate IsGreatest(opts: Options, tags: seq<ImageTag>, x: ImageTag) {
    x in tags && Candidate(opts, x) && forall y :: y in tags && Candidate(opts, y) ==> !Less(x.tag, y.tag)
  }

  lemma GreatestIsTop(opts: Options, tags: seq<ImageTag>, x: ImageTag)
    ensures IsGreatest(opts, tags, x) <==> IsTop(Passing(opts), Less, tags, x)
  {
    hide Candidate, Less;
    assert forall y :: Passing(opts)(y) == Candidate(opts, y);
  }

  /** The greatest candidates all have one tag string. */
  ghost predicate OneGreatestTag(opts: Options, tags: seq<ImageTag>) {
    forall x, y :: IsGreatest(opts, tags, x) && IsGreatest(opts, tags, y) ==> x.tag == y.tag
  }

  /**
   For every list of metadata-free candidates: all orders of the list select the same tag string exactly
   when the greatest candidates have only one, and then they select the same timestamp too.
   */
  lemma OrderIndependentIff(opts: Options, tags: seq<ImageTag>)
    requires PlainCandidates(opts, tags) && LatestSemverIndex(opts, tags).Some?
    ensures (forall shuffled :: multiset(tags) == multiset(shuffled) ==> SelectsTag(opts, tags, shuffled))
      <==> OneGreatestTag(opts, tags)
    ensures OneGreatestTag(opts, tags) ==>
      forall shuffled :: multiset(tags) == multiset(shuffled) ==> SelectsTimestamp(opts, tags, shuffled)
  {
    hide IsGreatest, IsTop, Candidate, Less, PlainCandidates, WeaklyOrdered, HeldAfter;
    PlainIsWeaklyOrdered(opts, tags);
    Selection.OrderIndependentIff(Passing(opts), Less, tags);
    assert forall shuffled ::
      && SelectsTag(opts, tags, shuffled) == SameTag(Passing(opts), Less, tags, shuffled)
      && SelectsTimestamp(opts, tags, shuffled) == SameTimestamp(Passing(opts), Less, tags, shuffled);
    forall x ensures IsGreatest(opts, tags, x) <==> IsTop(Passing(opts), Less, tags, x) {
      GreatestIsTop(opts, tags, x);
    }
  }

  // ---------- outside metadata-free candidates ----------

  /** x is a candidate that is greater than, and not less than, every candidate with another tag. */
  predicate IsUnrivalled(opts: Options, tags: seq<ImageTag>, x: ImageTag) {
    && x in tags && Candidate(opts, x)
    && forall y :: y in tags && Candidate(opts, y) && y.tag != x.tag ==> Less(y.tag, x.tag) && !Less(x.tag, y.tag)
  }

  /** Every order of the list selects this tag string. */
  ghost predicate AlwaysSelected(opts: Options, tags: seq<ImageTag>, tag: string) {
    forall shuffled :: multiset(tags) == multiset(shuffled) ==> IsSelected(opts, shuffled, tag)
  }

  predicate IsSelected(opts: Options, tags: seq<ImageTag>, tag: string) {
    var r := LatestSemverIndex(opts, tags);
    r.Some? && tags[r.value].tag == tag
  }

  lemma UnrivalledIsChampion(opts: Options, tags: seq<ImageTag>, x: ImageTag)
    ensures IsUnrivalled(opts, tags, x) <==> IsChampion(Passing(opts), Less, tags, x)
  {
    hide Candidate, Less;
    assert forall y :: Passing(opts)(y) == Candidate(opts, y);
  }

  /**
   In every mode, with metadata or a regular expression too: all orders of a list select one tag string exactly
   when some candidate is greater than, and not less than, every candidate with another tag.
   */
  lemma OrderIndependentInAnyModeIff(opts: Options, tags: seq<ImageTag>)
    ensures (exists tag :: AlwaysSelected(opts, tags, tag)) <==> (exists x :: IsUnrivalled(opts, tags, x))
  {
    hide IsUnrivalled, IsChampion, Candidate, Less, HeldAfter;
    AnyOrderIff(Passing(opts), Less, tags);
    forall tag ensures AlwaysSelected(opts, tags, tag) == AlwaysSelects(Passing(opts), Less, tags, tag) {
      assert forall shuffled :: IsSelected(opts, shuffled, tag) == Selects(Passing(opts), Less, shuffled, tag);
    }
    forall x ensures IsUnrivalled(opts, tags, x) <==> IsChampion(Passing(opts), Less, tags, x) {
      UnrivalledIsChampion(opts, tags, x);
    }
  }

  lemma HeldOfPair(opts: Options, a: ImageTag, b: ImageTag)
    requires Candidate(opts, a) && Candidate(opts, b)
    ensures LatestSemverIndex(opts, [a, b]) == Some(if Better(Less, a, b) then 1 else 0)
  {
    hide Candidate, Less;
    var pass, tags := Passing(opts), [a, b];
    assert pass(a) && pass(b);
    assert HeldAfter(pass, Less, tags, 1) == Some(0) by { assert HeldAfter(pass, Less, tags, 0) == None; }
  }

  /**
   Two candidates with different tags, listed one way and the other: the same one is selected exactly
   when exactly one of them is less than the other. Tags that are each less than the other make the
   later one win, tied tags the earlier one.
   */
  lemma PairOrderIndependentIff(opts: Options, a: ImageTag, b: ImageTag)
    requires Candidate(opts, a) && Candidate(opts, b) && a.tag != b.tag
    ensures var r, s := LatestSemverIndex(opts, [a, b]), LatestSemverIndex(opts, [b, a]);
      && r.Some? && s.Some?
      && ([a, b][r.value] == [b, a][s.value] <==> Less(a.tag, b.tag) != Less(b.tag, a.tag))
  {
    hide Candidate, Less, LatestSemverIndex;
    HeldOfPair(opts, a, b);
    HeldOfPair(opts, b, a);
  }

  /** A pair that does depend on it: the tags 1 and v1 have the same numbers, so the first one listed wins. */
  lemma TiedTagsDependOnOrder()
    ensures var a, b := ImageTag("1", "", 0, "", "", []), ImageTag("v1", "", 0, "", "", []);
      LatestSemverIndex(NO_OPTIONS, [a, b]) == Some(0) && LatestSemverIndex(NO_OPTIONS, [b, a]) == Some(0)
  {
    hide Scan, Parsed, DecimalValue, LatestSemverIndex;
    var a, b := ImageTag("1", "", 0, "", "", []), ImageTag("v1", "", 0, "", "", []);
    assert "" + "1" + "" == "1" && "v" + "1" + "" == "v1";
    OneNumberParses("", "1", "");
    OneNumberParses("v", "1", "");
    assert Parsed(a.tag).version == Parsed(b.tag).version;
    assert Candidate(NO_OPTIONS, a) && Candidate(NO_OPTIONS, b);
    MetadataFreeLess(a.tag, b.tag);
    HeldOfPair(NO_OPTIONS, a, b);
    HeldOfPair(NO_OPTIONS, b, a);
  }

  lemma NineAndTenPass(a: ImageTag, b: ImageTag)
    requires a.tag == "1.2.9" && b.tag == "1.10.0"
    ensures Candidate(NO_OPTIONS, a) && Candidate(NO_OPTIONS, b)
  {
    hide Parsed;
    NineAndTenParse();
  }

  lemma NineAndTenParse()
    ensures Parsed("1.2.9").metadata == "" && Parsed("1.2.9").original == "1.2.9"
    ensures Parsed("1.10.0").metadata == "" && Parsed("1.10.0").original == "1.10.0"
  {
    hide Parsed;
    SmallNumbers();
    assert Printed("", 1, 2, 9, "") == "1.2.9" && Printed("", 1, 10, 0, "") == "1.10.0";
    hide Printed, PrintNat;
    PrintedParses("", 1, 2, 9, "");
    PrintedParses("", 1, 10, 0, "");
  }

  /** In default mode, of 1.2.9 and 1.10.0 the latter is selected, in whichever order they are listed. */
  lemma TenIsSelected()
    ensures var a, b := ImageTag("1.2.9", "", 0, "", "", []), ImageTag("1.10.0", "", 0, "", "", []);
      LatestSemverIndex(NO_OPTIONS, [a, b]) == Some(1) && LatestSemverIndex(NO_OPTIONS, [b, a]) == Some(0)
  {
    hide Less, Parsed, LatestSemverIndex, Candidate;
    var a, b := ImageTag("1.2.9", "", 0, "", "", []), ImageTag("1.10.0", "", 0, "", "", []);
    TenIsAfterNine();
    NineAndTenPass(a, b);
    HeldOfPair(NO_OPTIONS, a, b);
    HeldOfPair(NO_OPTIONS, b, a);
  }

  /** Of two images with one tag the later one is selected, and the first listed of two equally late ones. */
  lemma LaterOfOneTag(opts: Options, a: ImageTag, b: ImageTag)
    requires Candidate(opts, a) && Candidate(opts, b) && a.tag == b.tag
    ensures LatestSemverIndex(opts, [a, b]) == Some(if a.timestamp < b.timestamp then 1 else 0)
  {
    hide Candidate, Less, LatestSemverIndex;
    HeldOfPair(opts, a, b);
    LessIrreflexive(a.tag);
  }

  // ---------- latestSHA ----------

  /** The index held by latestSHA after its first n rounds. */
  function HeldByTime(opts: Options, tags: seq<ImageTag>, n: nat): (r: Option<nat>)
    requires n <= |tags|
    ensures r.None? <==> forall i :: 0 <= i < n ==> ShouldSkipSHA(opts, tags[i].tag)
    ensures r.Some? ==> r.value < n && IsNewest(opts, tags, n, r.value)
  {
    if n == 0 then None
    else
      var held := HeldByTime(opts, tags, n - 1);
      if ShouldSkipSHA(opts, tags[n - 1].tag) then held
      else if held.None? || tags[n - 1].timestamp > tags[held.value].timestamp then Some(n - 1)
      else held
  }

  /** k is the first tag with the latest timestamp among those that pass the filter. */
  predicate IsNewest(opts: Options, tags: seq<ImageTag>, n: nat, k: nat)
    requires n <= |tags|
  {
    && k < n && !ShouldSkipSHA(opts, tags[k].tag)
    && forall j :: 0 <= j < n && !ShouldSkipSHA(opts, tags[j].tag) ==>
         tags[j].timestamp <= tags[k].timestamp && (j < k ==> tags[j].timestamp < tags[k].timestamp)
  }

  function LatestSHAIndex(opts: Options, tags: seq<ImageTag>): Option<nat> {
    HeldByTime(opts, tags, |tags|)
  }

  /** latestSHA: a nil pointer stands for no tag. */
  method LatestSHA(opts: Options, tags: Slice, ghost images: seq<ImageTag>) returns (r: Option<Ref<ImageTag>>)
    requires Holds(tags, images)
    ensures match LatestSHAIndex(opts, images)
      case None => r == None
      case Some(k) => k < |tags| && r == Some(tags[k])
  {
    var latestTag: Ref?<ImageTag> := null;
    ghost var held: Option<nat> := None;
    for i := 0 to |tags|
      invariant held == HeldByTime(opts, images, i)
      invariant held.None? <==> latestTag == null
      invariant held.Some? ==> latestTag == tags[held.value]
    {
      if ShouldSkipSHA(opts, tags[i].value.tag) {
        continue;
      }
      if latestTag == null || tags[i].value.timestamp > latestTag.value.timestamp {
        latestTag := tags[i];
        held := Some(i);
      }
    }
    r := if latestTag == null then None else Some(latestTag);
  }

  /** latestSHA selects a tag that no other one it could have selected is later than, and the first listed of those. */
  lemma NoneIsNewer(opts: Options, tags: seq<ImageTag>, k: nat, j: nat)
    requires LatestSHAIndex(opts, tags) == Some(k)
    requires j < |tags| && IsNoArtifact(tags[j].tag)
    requires opts.regexMatcher.Some? ==> opts.regexMatcher.value(tags[j].tag)
    ensures k < |tags| && tags[j].timestamp <= tags[k].timestamp
    ensures j < k ==> tags[j].timestamp < tags[k].timestamp
  {
    assert !ShouldSkipSHA(opts, tags[j].tag);
  }

  /** The timestamp latestSHA settles on does not depend on the order of the list. */
  lemma NewestTimestampOrderIndependent(opts: Options, tags: seq<ImageTag>, shuffled: seq<ImageTag>)
    requires multiset(tags) == multiset(shuffled)
    ensures LatestSHAIndex(opts, tags).None? <==> LatestSHAIndex(opts, shuffled).None?
    ensures LatestSHAIndex(opts, tags).Some? ==>
      tags[LatestSHAIndex(opts, tags).value].timestamp == shuffled[LatestSHAIndex(opts, shuffled).value].timestamp
  {
    if LatestSHAIndex(opts, tags).Some? {
      var j := PermutedElement(tags, shuffled, LatestSHAIndex(opts, tags).value);
    }
    if LatestSHAIndex(opts, shuffled).Some? {
      var j := PermutedElement(shuffled, tags, LatestSHAIndex(opts, shuffled).value);
    }
  }
}
