/**
 Grouping registry manifests by tag: what the grouped list holds, and resolving a digest
 back to a tag on it.
 */
module TagGrouping {
  import opened Wrappers
  import opened Api

  /** One manifest of a registry answer, as ACR and ECR list them. */
  datatype Manifest = Manifest(digest: string, created: int, os: string, architecture: string, tags: seq<string>)

  function Base(m: Manifest): ImageTag {
    ImageTag("", m.digest, m.created, m.os, m.architecture, [])
  }

  /** The copy of the base that one tag gets. */
  function Tagged(m: Manifest, tag: string): ImageTag {
    Base(m).(tag := tag)
  }

  // ---------- what belongs under a tag ----------

  /** One image per occurrence of the tag among the first n tags of the manifest. */
  function OccurrencesIn(m: Manifest, tag: string, n: nat): seq<ImageTag>
    requires n <= |m.tags|
  {
    if n == 0 then []
    else OccurrencesIn(m, tag, n - 1) + (if m.tags[n - 1] == tag then [Tagged(m, tag)] else [])
  }

  /** Every image listed under the tag, in listing order. */
  function Occurrences(manifests: seq<Manifest>, tag: string): seq<ImageTag> {
    if manifests == [] then []
    else
      var last := manifests[|manifests| - 1];
      Occurrences(manifests[..|manifests| - 1], tag) + OccurrencesIn(last, tag, |last.tags|)
  }

  /** The first image as root, the rest as its children in order. */
  function Group(images: seq<ImageTag>): ImageTag
    requires images != []
  {
    images[0].(children := images[1..])
  }

  /** The images an entry stands for: the root without its children, then the children. */
  function Members(entry: ImageTag): seq<ImageTag> {
    [entry.(children := [])] + entry.children
  }

  /** Some manifest without tags is keyed by this digest. */
  predicate UntaggedKey(manifests: seq<Manifest>, key: string) {
    exists m :: m in manifests && m.tags == [] && m.digest == key
  }

  /** No untagged manifest's digest is used as a tag. */
  predicate KeysApart(manifests: seq<Manifest>) {
    forall m, n :: m in manifests && n in manifests && m.tags == [] ==> m.digest !in n.tags
  }

  predicate DistinctDigests(manifests: seq<Manifest>) {
    forall i, j :: 0 <= i < j < |manifests| ==> manifests[i].digest != manifests[j].digest
  }

  /** What one entry of the grouped map must be, given the images listed under its key. */
  predicate EntryFor(entries: map<string, ImageTag>, manifests: seq<Manifest>, images: seq<ImageTag>, key: string) {
    && (key in entries <==> images != [] || UntaggedKey(manifests, key))
    && (images != [] ==> key in entries && entries[key] == Group(images))
    && (images == [] && key in entries ==>
          exists m :: m in manifests && m.tags == [] && m.digest == key && entries[key] == Base(m))
  }

  /** Each tag maps to the group of its images, each untagged digest to its own image, and nothing else is a key. */
  ghost predicate Grouped(entries: map<string, ImageTag>, manifests: seq<Manifest>) {
    forall key :: EntryFor(entries, manifests, Occurrences(manifests, key), key)
  }

  // ---------- building the map ----------

  function Lookup(entries: map<string, ImageTag>, key: string): Option<ImageTag> {
    if key in entries then Some(entries[key]) else None
  }

  /** An entry after further images under its key: the first of all becomes the root, the others children. */
  function AddImages(entry: Option<ImageTag>, images: seq<ImageTag>): Option<ImageTag> {
    if images == [] then entry
    else if entry.None? then Some(Group(images))
    else Some(entry.value.(children := entry.value.children + images))
  }

  /** What the map holds under a key: an untagged manifest with that digest overwrites whatever was there. */
  function Entry(manifests: seq<Manifest>, key: string): Option<ImageTag> {
    if manifests == [] then None
    else
      var before, last := manifests[..|manifests| - 1], manifests[|manifests| - 1];
      if last.tags == [] then (if last.digest == key then Some(Base(last)) else Entry(before, key))
      else AddImages(Entry(before, key), OccurrencesIn(last, key, |last.tags|))
  }

  /** The map is the grouping of the manifests. */
  ghost predicate Groups(entries: map<string, ImageTag>, manifests: seq<Manifest>) {
    forall key :: Lookup(entries, key) == Entry(manifests, key)
  }

  /** The map after the first n tags of m, on top of the manifests before it. */
  ghost predicate PartlyGroups(entries: map<string, ImageTag>, before: seq<Manifest>, m: Manifest, n: nat) {
    && n <= |m.tags|
    && forall key :: Lookup(entries, key) == AddImages(Entry(before, key), OccurrencesIn(m, key, n))
  }

  class TagMap {
    var entries: map<string, ImageTag>

    constructor ()
      ensures entries == map[]
    {
      entries := map[];
    }

    /** util.BuildTags: the first image under a tag becomes its root, each later one a child. */
    method BuildTags(tag: string, current: ImageTag)
      modifies this
      ensures tag in entries && entries == old(entries)[tag := entries[tag]]
      ensures entries[tag] ==
        if tag in old(entries) then old(entries)[tag].(children := old(entries)[tag].children + [current]) else current
    {
      if tag in entries {
        var parent := entries[tag];
        parent := parent.(children := parent.children + [current]);
        entries := entries[tag := parent];
      } else {
        entries := entries[tag := current];
      }
    }

    /** The loop of the registry clients over one manifest: its tags, or its digest when it has none. */
    method AddManifest(m: Manifest, ghost before: seq<Manifest>)
      requires Groups(entries, before)
      modifies this
      ensures Groups(entries, before + [m])
    {
      hide Entry, OccurrencesIn, AddImages, Base, Tagged;
      if |m.tags| == 0 {
        entries := entries[m.digest := Base(m)];
        forall key ensures Lookup(entries, key) == Entry(before + [m], key) {
          EntryOfSnoc(before, m, key);
        }
        return;
      }
      NoTagsYet(entries, before, m);
      for i := 0 to |m.tags|
        invariant PartlyGroups(entries, before, m, i)
      {
        ghost var earlier := entries;
        BuildTags(m.tags[i], Tagged(m, m.tags[i]));
        TagStep(earlier, entries, before, m, i);
      }
      forall key ensures Lookup(entries, key) == Entry(before + [m], key) {
        EntryOfSnoc(before, m, key);
      }
    }

    /** Tags of the ACR client after the response is decoded: groups the whole answer. */
    method AddAll(manifests: seq<Manifest>)
      requires entries == map[]
      modifies this
      ensures Groups(entries, manifests)
    {
      for i := 0 to |manifests|
        invariant Groups(entries, manifests[..i])
      {
        assert manifests[..i] + [manifests[i]] == manifests[..i + 1];
        AddManifest(manifests[i], manifests[..i]);
      }
      assert manifests[..|manifests|] == manifests;
    }

    /** util.TagMaptoList: the values in whatever order the map is walked. */
    method ToList() returns (list: seq<ImageTag>)
      ensures ListsValues(list, entries)
    {
      list := [];
      ghost var order: seq<string> := [];
      var rest := entries.Keys;
      while rest != {}
        invariant rest <= entries.Keys
        invariant |list| == |order|
        invariant forall i :: 0 <= i < |order| ==> order[i] in entries && order[i] !in rest
        invariant forall i :: 0 <= i < |order| ==> list[i] == entries[order[i]]
        invariant forall i, j :: 0 <= i < j < |order| ==> order[i] != order[j]
        invariant forall k :: k in entries && k !in rest ==> k in order
        decreases rest
      {
        var k :| k in rest;
        list, order := list + [entries[k]], order + [k];
        rest := rest - {k};
      }
      assert Lists(list, order, entries);
    }
  }

  lemma EntryOfSnoc(before: seq<Manifest>, m: Manifest, key: string)
    ensures Entry(before + [m], key) ==
      if m.tags == [] then (if m.digest == key then Some(Base(m)) else Entry(before, key))
      else AddImages(Entry(before, key), OccurrencesIn(m, key, |m.tags|))
  {
    var all := before + [m];
    assert all[..|all| - 1] == before && all[|all| - 1] == m;
  }

  lemma NoTagsYet(entries: map<string, ImageTag>, before: seq<Manifest>, m: Manifest)
    requires Groups(entries, before)
    ensures PartlyGroups(entries, before, m, 0)
  {
  }

  lemma SingleImage(image: ImageTag)
    requires image.children == []
    ensures AddImages(None, [image]) == Some(image)
  {
    assert [image][1..] == [];
  }

  lemma TagStep(entries: map<string, ImageTag>, after: map<string, ImageTag>,
                before: seq<Manifest>, m: Manifest, n: nat)
    requires n < |m.tags| && PartlyGroups(entries, before, m, n)
    requires var tag, image := m.tags[n], Tagged(m, m.tags[n]);
      && tag in after && after == entries[tag := after[tag]]
      && after[tag] == if tag in entries then entries[tag].(children := entries[tag].children + [image]) else image
    ensures PartlyGroups(after, before, m, n + 1)
  {
    forall key
      ensures Lookup(after, key) == AddImages(Entry(before, key), OccurrencesIn(m, key, n + 1))
    {
      var e, images := Entry(before, key), OccurrencesIn(m, key, n);
      assert Lookup(entries, key) == AddImages(e, images);
      if key == m.tags[n] {
        SingleImage(Tagged(m, key));
        AddImagesTwice(e, images, [Tagged(m, key)]);
      } else {
        assert OccurrencesIn(m, key, n + 1) == images;
        assert Lookup(after, key) == Lookup(entries, key);
      }
    }
  }

  lemma AddImagesTwice(entry: Option<ImageTag>, first: seq<ImageTag>, second: seq<ImageTag>)
    ensures AddImages(AddImages(entry, first), second) == AddImages(entry, first + second)
  {
    if first == [] {
      assert first + second == second;
    } else if second == [] {
      assert first + second == first;
    } else if entry.None? {
      assert (first + second)[1..] == first[1..] + second;
    } else {
      assert entry.value.children + (first + second) == entry.value.children + first + second;
    }
  }

  /** A key that is no untagged digest holds the group of the images listed under it. */
  lemma {:induction false} EntryIsGroup(manifests: seq<Manifest>, key: string)
    requires !UntaggedKey(manifests, key)
    ensures Entry(manifests, key) == AddImages(None, Occurrences(manifests, key))
  {
    if manifests != [] {
      var before, last := manifests[..|manifests| - 1], manifests[|manifests| - 1];
      assert last in manifests && forall x :: x in before ==> x in manifests;
      EntryIsGroup(before, key);
      AddImagesTwice(None, Occurrences(before, key), OccurrencesIn(last, key, |last.tags|));
    }
  }

  /** A key that is an untagged digest holds that manifest's image as its root. */
  lemma {:induction false} EntryOfUntagged(manifests: seq<Manifest>, key: string)
    requires UntaggedKey(manifests, key)
    ensures Entry(manifests, key).Some?
    ensures exists m ::
      m in manifests && m.tags == [] && m.digest == key && Entry(manifests, key).value.(children := []) == Base(m)
    ensures Occurrences(manifests, key) == [] ==> Entry(manifests, key).value.children == []
  {
    var before, last := manifests[..|manifests| - 1], manifests[|manifests| - 1];
    assert manifests == before + [last];
    if !(last.tags == [] && last.digest == key) {
      EntryOfUntagged(before, key);
      var m :| m in before && m.tags == [] && m.digest == key && Entry(before, key).value.(children := []) == Base(m);
      assert m in manifests;
    } else {
      assert last in manifests;
    }
  }

  /** The ACR client's Tags on a decoded response. */
  method AcrTags(manifests: seq<Manifest>) returns (list: seq<ImageTag>)
    ensures exists entries :: Groups(entries, manifests) && ListsValues(list, entries)
  {
    var tags := new TagMap();
    tags.AddAll(manifests);
    list := tags.ToList();
  }

  /** The list holds the value of every key exactly once, in some order of the keys. */
  ghost predicate ListsValues(list: seq<ImageTag>, entries: map<string, ImageTag>) {
    exists order :: Lists(list, order, entries)
  }

  /** Walking the keys in this order gives the list. */
  ghost predicate Lists(list: seq<ImageTag>, order: seq<string>, entries: map<string, ImageTag>) {
    && |list| == |order|
    && (forall i :: 0 <= i < |order| ==> order[i] in entries && list[i] == entries[order[i]])
    && (forall i, j :: 0 <= i < j < |order| ==> order[i] != order[j])
    && (forall k :: k in entries ==> k in order)
  }

  lemma {:induction false} OccurrencesInTag(m: Manifest, tag: string, n: nat)
    requires n <= |m.tags|
    ensures OccurrencesIn(m, tag, n) != [] <==> exists i :: 0 <= i < n && m.tags[i] == tag
    ensures forall x :: x in OccurrencesIn(m, tag, n) ==> x == Tagged(m, tag)
  {
    if n > 0 { OccurrencesInTag(m, tag, n - 1); }
  }

  lemma {:induction false} OccurrencesOfTag(manifests: seq<Manifest>, tag: string)
    ensures forall x :: x in Occurrences(manifests, tag) ==>
      exists m :: m in manifests && tag in m.tags && x == Tagged(m, tag)
    ensures forall m :: m in manifests && tag in m.tags ==> Tagged(m, tag) in Occurrences(manifests, tag)
  {
    if manifests != [] {
      var before, last := manifests[..|manifests| - 1], manifests[|manifests| - 1];
      OccurrencesOfTag(before, tag);
      OccurrencesInTag(last, tag, |last.tags|);
      assert manifests == before + [last];
      forall m | m in manifests && tag in m.tags
        ensures Tagged(m, tag) in Occurrences(manifests, tag)
      {
        if m !in before {
          var images := OccurrencesIn(last, tag, |last.tags|);
          assert images[0] in images;
        }
      }
    }
  }

  /** With digests kept apart from tags, each key's entry is one group or one untagged image. */
  lemma ApartIsGrouped(entries: map<string, ImageTag>, manifests: seq<Manifest>)
    requires Groups(entries, manifests) && KeysApart(manifests)
    ensures Grouped(entries, manifests)
  {
    forall key ensures EntryFor(entries, manifests, Occurrences(manifests, key), key) {
      assert Lookup(entries, key) == Entry(manifests, key);
      if UntaggedKey(manifests, key) {
        EntryOfUntagged(manifests, key);
        OccurrencesOfTag(manifests, key);
        assert Occurrences(manifests, key) == [] by {
          if Occurrences(manifests, key) != [] {
            assert Occurrences(manifests, key)[0] in Occurrences(manifests, key);
            assert false;
          }
        }
      } else {
        EntryIsGroup(manifests, key);
      }
    }
  }

  lemma MembersOfGroup(manifests: seq<Manifest>, tag: string)
    requires Occurrences(manifests, tag) != []
    ensures Members(Group(Occurrences(manifests, tag))) == Occurrences(manifests, tag)
  {
    var images := Occurrences(manifests, tag);
    OccurrencesOfTag(manifests, tag);
    assert images[0] in images;
    assert images == [images[0]] + images[1..];
  }

  /**
   The root and children of a tag's entry are exactly the images listed under it, in order and with
   none lost, unless an untagged manifest has the tag as its digest; then they never are.
   */
  lemma GroupingConservesIff(entries: map<string, ImageTag>, manifests: seq<Manifest>, tag: string)
    requires Groups(entries, manifests) && Occurrences(manifests, tag) != [] && tag != ""
    ensures tag in entries
    ensures Members(entries[tag]) == Occurrences(manifests, tag) <==> !UntaggedKey(manifests, tag)
  {
    assert Lookup(entries, tag) == Entry(manifests, tag);
    if UntaggedKey(manifests, tag) {
      EntryOfUntagged(manifests, tag);
      OccurrencesOfTag(manifests, tag);
      var images := Occurrences(manifests, tag);
      assert images[0] in images && images[0].tag == tag;
      assert Members(entries[tag])[0].tag == "";
    } else {
      EntryIsGroup(manifests, tag);
      MembersOfGroup(manifests, tag);
    }
  }

  /**
   What a tag's entry is made of, field by field: each manifest that lists the tag gives one image with the tag, its
   own digest, creation time and platform, and no children; there are no other images.
   */
  lemma MembersAre(entries: map<string, ImageTag>, manifests: seq<Manifest>, tag: string)
    requires Groups(entries, manifests) && tag in entries && !UntaggedKey(manifests, tag)
    ensures forall m :: m in manifests && tag in m.tags ==>
      ImageTag(tag, m.digest, m.created, m.os, m.architecture, []) in Members(entries[tag])
    ensures forall x :: x in Members(entries[tag]) ==>
      exists m :: m in manifests && tag in m.tags && x == ImageTag(tag, m.digest, m.created, m.os, m.architecture, [])
  {
    assert Lookup(entries, tag) == Entry(manifests, tag);
    EntryIsGroup(manifests, tag);
    MembersOfGroup(manifests, tag);
    OccurrencesOfTag(manifests, tag);
    forall x | x in Members(entries[tag])
      ensures exists m ::
        m in manifests && tag in m.tags && x == ImageTag(tag, m.digest, m.created, m.os, m.architecture, [])
    {
      var m :| m in manifests && tag in m.tags && x == Tagged(m, tag);
    }
    forall m | m in manifests && tag in m.tags
      ensures ImageTag(tag, m.digest, m.created, m.os, m.architecture, []) in Members(entries[tag])
    {
      assert Tagged(m, tag) in Occurrences(manifests, tag);
    }
  }

  /** Images are listed under a tag in the order of their manifests. */
  lemma {:induction false} OccurrencesInOrder(manifests: seq<Manifest>, tag: string, i: nat, j: nat)
    requires i < j < |manifests| && tag in manifests[i].tags && tag in manifests[j].tags
    ensures exists a: nat, b: nat ::
      && a < b < |Occurrences(manifests, tag)|
      && Occurrences(manifests, tag)[a] == Tagged(manifests[i], tag)
      && Occurrences(manifests, tag)[b] == Tagged(manifests[j], tag)
  {
    var before, last := manifests[..|manifests| - 1], manifests[|manifests| - 1];
    var earlier, images := Occurrences(before, tag), OccurrencesIn(last, tag, |last.tags|);
    assert Occurrences(manifests, tag) == earlier + images;
    if j < |before| {
      OccurrencesInOrder(before, tag, i, j);
      var a: nat, b: nat :|
        a < b < |earlier| && earlier[a] == Tagged(manifests[i], tag) && earlier[b] == Tagged(manifests[j], tag);
      assert (earlier + images)[a] == earlier[a] && (earlier + images)[b] == earlier[b];
    } else {
      OccurrencesInTag(last, tag, |last.tags|);
      OccurrencesOfTag(before, tag);
      assert before[i] in before;
      var a :| 0 <= a < |earlier| && earlier[a] == Tagged(manifests[i], tag);
      assert images[0] in images;
      assert (earlier + images)[a] == earlier[a] && (earlier + images)[|earlier|] == images[0];
    }
  }

  /** So the root is of a manifest that no other one with the tag comes before, and the children follow in order. */
  lemma MembersInOrder(entries: map<string, ImageTag>, manifests: seq<Manifest>, tag: string, i: nat, j: nat)
    requires Groups(entries, manifests) && tag in entries && !UntaggedKey(manifests, tag)
    requires i < j < |manifests| && tag in manifests[i].tags && tag in manifests[j].tags
    ensures exists a: nat, b: nat ::
      && a < b < |Members(entries[tag])|
      && Members(entries[tag])[a].sha == manifests[i].digest
      && Members(entries[tag])[b].sha == manifests[j].digest
  {
    assert Lookup(entries, tag) == Entry(manifests, tag);
    EntryIsGroup(manifests, tag);
    MembersOfGroup(manifests, tag);
    OccurrencesInOrder(manifests, tag, i, j);
  }

  /** An untagged manifest is listed without a tag, with its own digest, creation time and platform. */
  lemma UntaggedIs(entries: map<string, ImageTag>, manifests: seq<Manifest>, digest: string)
    requires Groups(entries, manifests) && KeysApart(manifests) && UntaggedKey(manifests, digest)
    ensures digest in entries
    ensures exists m ::
      && m in manifests && m.tags == [] && m.digest == digest
      && entries[digest] == ImageTag("", m.digest, m.created, m.os, m.architecture, [])
  {
    ApartIsGrouped(entries, manifests);
    assert EntryFor(entries, manifests, Occurrences(manifests, digest), digest);
    OccurrencesOfTag(manifests, digest);
    assert EmptyOrHolds(Occurrences(manifests, digest));
  }

  predicate EmptyOrHolds(images: seq<ImageTag>) {
    images == [] || images[0] in images
  }

  /** A listing that loses an image: the second manifest is untagged and its digest is the tag of the first. */
  lemma UntaggedDigestOverwritesTag(entries: map<string, ImageTag>)
    requires var manifests := [Manifest("a", 0, "", "", ["d"]), Manifest("d", 0, "", "", [])];
      Groups(entries, manifests)
    ensures var manifests := [Manifest("a", 0, "", "", ["d"]), Manifest("d", 0, "", "", [])];
      "d" in entries && Members(entries["d"]) != Occurrences(manifests, "d")
  {
    var tagged, untagged := Manifest("a", 0, "", "", ["d"]), Manifest("d", 0, "", "", []);
    OccurrencesOfTag([tagged, untagged], "d");
    assert [tagged, untagged][0] == tagged && [tagged, untagged][1] == untagged && tagged.tags[0] == "d";
    GroupingConservesIff(entries, [tagged, untagged], "d");
  }

  // ---------- resolving a digest ----------

  /** The first image that has the digest. */
  function FirstWithDigest(images: seq<ImageTag>, digest: string): (r: Option<nat>)
    ensures r.None? ==> forall i :: 0 <= i < |images| ==> !images[i].HasDigest(digest)
    ensures r.Some? ==> r.value < |images| && images[r.value].HasDigest(digest)
    ensures r.Some? ==> forall i :: 0 <= i < r.value ==> !images[i].HasDigest(digest)
  {
    if images == [] then None
    else if images[0].HasDigest(digest) then Some(0)
    else match FirstWithDigest(images[1..], digest)
      case None => None
      case Some(k) => Some(k + 1)
  }

  function ResolvedTag(images: seq<ImageTag>, digest: string): string {
    match FirstWithDigest(images, digest)
    case None => ""
    case Some(k) => images[k].tag
  }

  /** Which digests the entry of a key has. */
  lemma EntryDigests(entries: map<string, ImageTag>, manifests: seq<Manifest>, key: string, digest: string)
    requires Grouped(entries, manifests) && key in entries
    ensures Occurrences(manifests, key) != [] ==>
      && entries[key].tag == key
      && (entries[key].HasDigest(digest) <==> exists m :: m in manifests && key in m.tags && m.digest == digest)
    ensures Occurrences(manifests, key) == [] ==>
      && entries[key].tag == ""
      && (entries[key].HasDigest(digest) ==> exists m :: m in manifests && m.tags == [] && m.digest == digest)
  {
    assert EntryFor(entries, manifests, Occurrences(manifests, key), key);
    var images := Occurrences(manifests, key);
    OccurrencesOfTag(manifests, key);
    if images != [] {
      MembersOfGroup(manifests, key);
      var e := entries[key];
      assert images[0] in images;
      if e.HasDigest(digest) {
        var x := if e.sha == digest then images[0] else
          var i :| 0 <= i < |e.children| && e.children[i].sha == digest; images[i + 1];
        assert x in images && x.sha == digest;
      }
      if exists m :: m in manifests && key in m.tags && m.digest == digest {
        var m :| m in manifests && key in m.tags && m.digest == digest;
        var i :| 0 <= i < |images| && images[i] == Tagged(m, key);
        assert i > 0 ==> e.children[i - 1] == images[i];
      }
    }
  }

  /** The image is named by one of the manifest's tags, or unnamed when it has none. */
  predicate NamedBy(image: ImageTag, m: Manifest) {
    if m.tags == [] then image.tag == "" else image.tag in m.tags
  }

  /** A listed image with the digest belongs to a manifest with that digest: one of its tags, or it is untagged. */
  lemma HasDigestMeans(manifests: seq<Manifest>, entries: map<string, ImageTag>, list: seq<ImageTag>,
                       order: seq<string>, i: nat, digest: string)
    requires Grouped(entries, manifests) && Lists(list, order, entries)
    requires i < |list| && list[i].HasDigest(digest)
    ensures exists m :: m in manifests && m.digest == digest && NamedBy(list[i], m)
  {
    EntryDigests(entries, manifests, order[i], digest);
    OccurrencesOfTag(manifests, order[i]);
  }

  /** A tagged manifest's digest is on some listed image. */
  lemma TaggedIsListed(manifests: seq<Manifest>, entries: map<string, ImageTag>, list: seq<ImageTag>,
                       order: seq<string>, m: Manifest)
    requires Grouped(entries, manifests) && Lists(list, order, entries)
    requires m in manifests && m.tags != []
    ensures exists i :: 0 <= i < |list| && list[i].HasDigest(m.digest)
  {
    var tag := m.tags[0];
    OccurrencesOfTag(manifests, tag);
    assert EntryFor(entries, manifests, Occurrences(manifests, tag), tag);
    EntryDigests(entries, manifests, tag, m.digest);
    var i :| 0 <= i < |order| && order[i] == tag;
    assert list[i].HasDigest(m.digest);
  }

  lemma OneManifest(manifests: seq<Manifest>, m: Manifest, n: Manifest)
    requires DistinctDigests(manifests) && m in manifests && n in manifests && m.digest == n.digest
    ensures m == n
  {
    var i :| 0 <= i < |manifests| && manifests[i] == m;
    var j :| 0 <= j < |manifests| && manifests[j] == n;
  }

  /**
   On the grouped list, walked in any order, a digest resolves to a tag of the manifest with that
   digest exactly when that manifest has one, and to the empty string otherwise.
   */
  lemma ResolvesExactly(manifests: seq<Manifest>, entries: map<string, ImageTag>, list: seq<ImageTag>, digest: string)
    requires KeysApart(manifests) && DistinctDigests(manifests)
    requires forall m :: m in manifests ==> "" !in m.tags
    requires Groups(entries, manifests) && ListsValues(list, entries)
    ensures ResolvedTag(list, digest) != "" <==> exists m :: m in manifests && m.digest == digest && m.tags != []
    ensures ResolvedTag(list, digest) != "" ==>
      exists m :: m in manifests && m.digest == digest && ResolvedTag(list, digest) in m.tags
  {
    hide Groups, Grouped, Lists, DistinctDigests, KeysApart;
    ApartIsGrouped(entries, manifests);
    var order :| Lists(list, order, entries);
    var r := FirstWithDigest(list, digest);
    if r.Some? {
      HasDigestMeans(manifests, entries, list, order, r.value, digest);
      var n :| n in manifests && n.digest == digest && NamedBy(list[r.value], n);
      if m :| m in manifests && m.digest == digest && m.tags != [] {
        OneManifest(manifests, m, n);
      }
    } else if m :| m in manifests && m.digest == digest && m.tags != [] {
      TaggedIsListed(manifests, entries, list, order, m);
    }
  }
}
