/** Image tags and the options that restrict the search for the latest one. */
module Api {
  import opened Wrappers

  /** An image tag; Timestamp is an instant, compared only by After. */
  datatype ImageTag = ImageTag(
    tag: string,
    sha: string,
    timestamp: int,
    os: string,
    architecture: string,
    children: seq<ImageTag>)
  {
    /** The digest is the image's own or one of its children's. */
    predicate HasDigest(digest: string) {
      sha == digest || exists i :: 0 <= i < |children| && children[i].sha == digest
    }
  }

  /** (*ImageTag).MatchesSHA: own digest first, then a search through the children. */
  method MatchesSHA(image: ImageTag, sha: string) returns (found: bool)
    ensures found == image.HasDigest(sha)
  {
    if sha == image.sha {
      return true;
    }
    for i := 0 to |image.children|
      invariant forall j :: 0 <= j < i ==> image.children[j].sha != sha
    {
      if image.children[i].sha == sha {
        return true;
      }
    }
    return false;
  }

  /** Pointers become options; a compiled regular expression is the predicate it decides. */
  datatype Options = Options(
    overrideURL: Option<string>,
    matchRegex: Option<string>,
    pinMajor: Option<int>,
    pinMinor: Option<int>,
    pinPatch: Option<int>,
    regexMatcher: Option<string -> bool>,
    useSHA: bool,
    resolveSHAToTags: bool,
    useMetaData: bool)

  const NO_OPTIONS := Options(None, None, None, None, None, None, false, false, false)

  /** A []ImageTag: its elements are addressable, so a slice is a sequence of slots. */
  type Slice = seq<Ref<ImageTag>>

  /** The slots currently hold exactly the images. */
  ghost predicate Holds(slots: Slice, images: seq<ImageTag>)
    reads slots
  {
    |slots| == |images| && forall i :: 0 <= i < |slots| ==> slots[i].value == images[i]
  }
}
