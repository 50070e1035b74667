/** Image references: splitting one into URL, tag and digest, and putting it back together. */
module ImageReference {
  import opened Wrappers
  import opened Text

  datatype ImageRef = ImageRef(url: string, tag: string, sha: string)

  function FirstSlash(s: string): (i: nat)
    ensures i <= |s|
  {
    match IndexOf(s, '/')
    case None => 0
    case Some(k) => k
  }

  /** The part before the first '@', and whether a tag separator is recognised in it. */
  predicate TagColonBeforeDigest(head: string) {
    LastIndexOf(head[FirstSlash(head)..], ':').Some?
  }

  predicate TagColonWithoutDigest(image: string) {
    match LastIndexOf(image, ':')
    case None => false
    case Some(colon) =>
      match LastIndexOf(image, '/')
      case None => true
      case Some(slash) => slash <= colon
  }

  /** The text cut at its last colon. */
  function CutTag(s: string, sha: string): ImageRef {
    match LastIndexOf(s, ':')
    case None => ImageRef(s, "", sha)
    case Some(colon) => ImageRef(s[..colon], s[colon + 1..], sha)
  }

  function Split(image: string): ImageRef {
    match IndexOf(image, '@')
    case Some(at) =>
      if TagColonBeforeDigest(image[..at]) then CutTag(image[..at], image[at + 1..])
      else ImageRef(image[..at], "", image[at + 1..])
    case None =>
      if TagColonWithoutDigest(image) then CutTag(image, "") else ImageRef(image, "", "")
  }

  /** urlTagSHAFromImage, over its reassigned named results. */
  method UrlTagSHAFromImage(image: string) returns (url: string, version: string, sha: string)
    ensures ImageRef(url, version, sha) == Split(image)
  {
    url, version, sha := "", "", "";
    var at := IndexOf(image, '@');
    if at.Some? {
      url := image[..at.value];
      sha := image[at.value + 1..];
      var firstSlash := FirstSlash(url);
      if LastIndexOf(url[firstSlash..], ':').Some? {
        var lastColon := LastIndexOf(url, ':');
        SuffixColon(url, firstSlash);
        version := url[lastColon.value + 1..];
        url := url[..lastColon.value];
      }
      return;
    }
    var lastColon := LastIndexOf(image, ':');
    if lastColon.None? {
      return image, "", "";
    }
    var lastSlash := LastIndexOf(image, '/');
    if lastSlash.Some? && lastSlash.value > lastColon.value {
      return image, "", "";
    }
    return image[..lastColon.value], image[lastColon.value + 1..], "";
  }

  lemma SuffixColon(s: string, from: nat)
    requires from <= |s| && LastIndexOf(s[from..], ':').Some?
    ensures LastIndexOf(s, ':').Some?
  {
    var k := LastIndexOf(s[from..], ':').value;
    assert s[from + k] == ':';
  }

  /** The URL and the tag, printed with their separator. */
  function PrintTagged(url: string, tag: string): string {
    if tag == "" then url else url + (":" + tag)
  }

  function Print(r: ImageRef): string {
    if r.sha == "" then PrintTagged(r.url, r.tag) else PrintTagged(r.url, r.tag) + ("@" + r.sha)
  }

  // ---------- printing the parts back ----------

  /** The part of the reference that holds the URL and the tag. */
  function Head(image: string): string {
    match IndexOf(image, '@')
    case None => image
    case Some(at) => image[..at]
  }

  predicate EndsWithColon(s: string) {
    s != "" && s[|s| - 1] == ':'
  }

  lemma CutTagPrints(s: string)
    requires LastIndexOf(s, ':').Some?
    ensures var r := CutTag(s, "");
      && |PrintTagged(r.url, r.tag)| <= |s|
      && (PrintTagged(r.url, r.tag) == s <==> !EndsWithColon(s))
  {
    var k := LastIndexOf(s, ':').value;
    assert s == s[..k] + ([s[k]] + s[k + 1..]);
  }

  lemma TrailingColonIsTagColon(s: string)
    requires EndsWithColon(s)
    ensures TagColonBeforeDigest(s) && TagColonWithoutDigest(s)
  {
    var f := FirstSlash(s);
    assert s[f..][|s| - 1 - f] == ':';
  }

  lemma SameSuffix(a: string, b: string, suffix: string)
    ensures a + suffix == b + suffix <==> a == b
  {
    if a + suffix == b + suffix {
      assert |a| == |b| && (a + suffix)[..|a|] == a && (b + suffix)[..|b|] == b;
    }
  }

  lemma PrintsBackWithoutDigest(image: string)
    requires IndexOf(image, '@').None?
    ensures Print(Split(image)) == image <==> !EndsWithColon(image)
  {
    if EndsWithColon(image) { TrailingColonIsTagColon(image); }
    if TagColonWithoutDigest(image) { CutTagPrints(image); }
  }

  lemma HeadPrintsBack(image: string)
    requires IndexOf(image, '@').Some?
    ensures var h, r := Head(image), Split(image);
      && r.sha == image[|h| + 1..] && image == h + ("@" + r.sha)
      && |PrintTagged(r.url, r.tag)| <= |h|
      && (PrintTagged(r.url, r.tag) == h <==> !EndsWithColon(h))
  {
    hide IndexOf, LastIndexOf;
    var h := Head(image);
    assert image == h + ("@" + image[|h| + 1..]);
    if EndsWithColon(h) { TrailingColonIsTagColon(h); }
    if TagColonBeforeDigest(h) {
      SuffixColon(h, FirstSlash(h));
      CutTagPrints(h);
    }
  }

  lemma PrintsBackWithDigest(image: string)
    requires IndexOf(image, '@').Some?
    ensures Print(Split(image)) == image <==>
      !EndsWithColon(Head(image)) && IndexOf(image, '@').value + 1 < |image|
  {
    HeadPrintsBack(image);
    var r := Split(image);
    SameSuffix(PrintTagged(r.url, r.tag), Head(image), "@" + r.sha);
  }

  /**
   Printing the returned parts gives the reference back exactly when no separator is left dangling:
   the part before the digest does not end in ':', and '@' is followed by something.
   */
  lemma PrintsBackIff(image: string)
    ensures Print(Split(image)) == image <==>
      !EndsWithColon(Head(image)) && (IndexOf(image, '@').Some? ==> IndexOf(image, '@').value + 1 < |image|)
  {
    if IndexOf(image, '@').None? { PrintsBackWithoutDigest(image); } else { PrintsBackWithDigest(image); }
  }

  /** References that do not come back: each leaves a separator with nothing after it. */
  lemma DanglingSeparatorsAreLost()
    ensures Print(Split("app:")) != "app:" && Print(Split("app@")) != "app@" && Print(Split("app:@d")) != "app:@d"
  {
    IndexIs("app:@d", '@', 4);
    IndexIs("app@", '@', 3);
    PrintsBackIff("app:");
    PrintsBackIff("app@");
    PrintsBackIff("app:@d");
  }

  // ---------- reading the printed parts back ----------

  /** Every colon of the URL has a slash somewhere after it. */
  predicate ColonsBeforeLastSlash(url: string) {
    forall i :: 0 <= i < |url| && url[i] == ':' ==> exists j :: i < j < |url| && url[j] == '/'
  }

  /** Every colon of the URL comes before its first slash, as the colon of a port does. */
  predicate ColonsBeforeFirstSlash(url: string) {
    forall i :: 0 <= i < |url| && url[i] == ':' ==>
      !Lacks(url, '/') && forall j :: 0 <= j < i ==> url[j] != '/'
  }

  lemma NoTagColonIff(url: string)
    ensures !TagColonWithoutDigest(url) <==> ColonsBeforeLastSlash(url)
  {
    if LastIndexOf(url, ':').Some? && LastIndexOf(url, '/').Some? {
      assert url[LastIndexOf(url, '/').value] == '/';
    }
  }

  lemma NoTagColonBeforeDigestIff(url: string)
    ensures !TagColonBeforeDigest(url) <==> ColonsBeforeFirstSlash(url)
  {
    var f := FirstSlash(url);
    assert forall i :: f <= i < |url| ==> url[i] == url[f..][i - f];
    if !ColonsBeforeFirstSlash(url) {
      var i :| 0 <= i < |url| && url[i] == ':' && (Lacks(url, '/') || exists j :: 0 <= j < i && url[j] == '/');
      assert url[f..][i - f] == ':';
    }
  }

  predicate PlainTag(tag: string) {
    Lacks(tag, ':') && Lacks(tag, '/') && Lacks(tag, '@')
  }

  lemma LastIndexIs(s: string, c: char, k: nat)
    requires k < |s| && s[k] == c && forall i :: k < i < |s| ==> s[i] != c
    ensures LastIndexOf(s, c) == Some(k)
  {
  }

  lemma IndexIs(s: string, c: char, k: nat)
    requires k < |s| && s[k] == c && forall i :: 0 <= i < k ==> s[i] != c
    ensures IndexOf(s, c) == Some(k)
  {
  }

  /** A printed tag is read back whatever the URL before it. */
  lemma TaggedReadsBack(url: string, tag: string, sha: string)
    requires tag != "" && PlainTag(tag)
    ensures var s := url + (":" + tag);
      && TagColonBeforeDigest(s) && TagColonWithoutDigest(s)
      && CutTag(s, sha) == ImageRef(url, tag, sha)
  {
    hide IndexOf, LastIndexOf;
    var s := url + (":" + tag);
    assert forall i :: |url| < i < |s| ==> s[i] == tag[i - |url| - 1];
    LastIndexIs(s, ':', |url|);
    assert s[..|url|] == url && s[|url| + 1..] == tag;
    var f := FirstSlash(s);
    assert f <= |url|;
    assert s[f..][|url| - f] == ':';
  }

  /** The URL alone, with no tag printed after it, is taken as a URL. */
  predicate UntaggedReadsBack(url: string, sha: string) {
    if sha == "" then ColonsBeforeLastSlash(url) else ColonsBeforeFirstSlash(url)
  }

  lemma TaggedLacks(url: string, tag: string, c: char)
    requires c != ':' && Lacks(tag, c)
    ensures Lacks(PrintTagged(url, tag), c) <==> Lacks(url, c)
  {
    var s := PrintTagged(url, tag);
    assert forall i :: 0 <= i < |url| ==> s[i] == url[i];
    assert forall i :: |url| < i < |s| ==> s[i] == tag[i - |url| - 1];
  }

  lemma ReadsBackWithoutDigest(url: string, tag: string)
    requires PlainTag(tag) && Lacks(url, '@')
    ensures Split(PrintTagged(url, tag)) == ImageRef(url, tag, "") <==> tag != "" || ColonsBeforeLastSlash(url)
  {
    TaggedLacks(url, tag, '@');
    if tag != "" { TaggedReadsBack(url, tag, ""); } else {
      NoTagColonIff(url);
    }
  }

  lemma SplitAtDigest(head: string, sha: string)
    requires Lacks(head, '@')
    ensures Split(head + ("@" + sha)) ==
      if TagColonBeforeDigest(head) then CutTag(head, sha) else ImageRef(head, "", sha)
  {
    var s := head + ("@" + sha);
    IndexIs(s, '@', |head|);
    assert s[..|head|] == head && s[|head| + 1..] == sha;
  }

  lemma ReadsBackWithDigest(url: string, tag: string, sha: string)
    requires PlainTag(tag) && Lacks(url, '@') && sha != ""
    ensures Split(PrintTagged(url, tag) + ("@" + sha)) == ImageRef(url, tag, sha) <==>
      tag != "" || ColonsBeforeFirstSlash(url)
  {
    TaggedLacks(url, tag, '@');
    SplitAtDigest(PrintTagged(url, tag), sha);
    if tag != "" { TaggedReadsBack(url, tag, sha); } else {
      NoTagColonBeforeDigestIff(url);
    }
  }

  lemma AtIsCut(s: string, i: nat)
    requires i < |s| && s[i] == '@'
    ensures |Split(s).url| <= i
  {
    assert IndexOf(s, '@').Some? && IndexOf(s, '@').value <= i;
  }

  /** A URL that holds '@' is cut there, so it never comes back whole. */
  lemma AtInUrlIsCut(url: string, tag: string, sha: string)
    requires !Lacks(url, '@')
    ensures |Split(Print(ImageRef(url, tag, sha))).url| < |url|
  {
    var i :| 0 <= i < |url| && url[i] == '@';
    var tagged := PrintTagged(url, tag);
    assert tagged[i] == url[i];
    AtIsCut(Print(ImageRef(url, tag, sha)), i);
  }

  /**
   Splitting a printed reference recovers its three parts exactly when the URL holds no '@' and,
   if no tag is printed, its colons cannot be taken for a tag separator. A tag is free of ':', '/'
   and '@'; the empty string stands for an absent part.
   */
  lemma ReadsBackIff(url: string, tag: string, sha: string)
    requires PlainTag(tag)
    ensures Split(Print(ImageRef(url, tag, sha))) == ImageRef(url, tag, sha) <==>
      Lacks(url, '@') && (tag == "" ==> UntaggedReadsBack(url, sha))
  {
    if !Lacks(url, '@') {
      AtInUrlIsCut(url, tag, sha);
    } else if sha == "" {
      ReadsBackWithoutDigest(url, tag);
    } else {
      ReadsBackWithDigest(url, tag, sha);
    }
  }

  /** A bare host and port is read as a name and a tag. */
  lemma BareHostPortIsLost()
    ensures Split(Print(ImageRef("host:80", "", ""))) != ImageRef("host:80", "", "")
    ensures Split(Print(ImageRef("host:80", "", "d"))) != ImageRef("host:80", "", "d")
  {
    assert "host:80"[4] == ':';
    ReadsBackIff("host:80", "", "");
    ReadsBackIff("host:80", "", "d");
  }

  /** A name whose colons all belong to a port before its first slash always comes back. */
  lemma PortNamesReadBack(url: string, tag: string, sha: string)
    requires PlainTag(tag) && Lacks(url, '@') && ColonsBeforeFirstSlash(url)
    ensures Split(Print(ImageRef(url, tag, sha))) == ImageRef(url, tag, sha)
  {
    ReadsBackIff(url, tag, sha);
    forall i | 0 <= i < |url| && url[i] == ':'
      ensures exists j :: i < j < |url| && url[j] == '/'
    {
      var j :| 0 <= j < |url| && url[j] == '/';
    }
  }

  lemma SmallNames()
    ensures PlainTag("1.2") && Lacks("localhost:5000/app", '@')
  {
  }

  /** A registry on a port, a tag and a digest. */
  lemma PortTagAndDigest()
    ensures Split("localhost:5000/app:1.2@sha256:abc") == ImageRef("localhost:5000/app", "1.2", "sha256:abc")
  {
    hide Split, PlainTag, Lacks, IndexOf, LastIndexOf;
    var url, tag, sha := "localhost:5000/app", "1.2", "sha256:abc";
    assert Print(ImageRef(url, tag, sha)) == "localhost:5000/app:1.2@sha256:abc";
    assert PlainTag(tag) && Lacks(url, '@') by { SmallNames(); }
    ReadsBackIff(url, tag, sha);
  }

  // ---------- the digest of a running container ----------

  datatype ContainerStatus = ContainerStatus(name: string, imageID: string)

  /** The digest in an image ID, or the whole ID when it holds none. */
  function StatusDigest(s: ContainerStatus): string {
    var r := Split(s.imageID);
    if r.sha != "" then r.sha else r.url
  }

  method DigestOf(status: ContainerStatus) returns (digest: string)
    ensures digest == StatusDigest(status)
  {
    var statusImage, _, statusSHA := UrlTagSHAFromImage(status.imageID);
    if |statusSHA| > 0 {
      return statusSHA;
    }
    return statusImage;
  }

  /** The first status with the name, if any. */
  function FirstNamed(statuses: seq<ContainerStatus>, name: string): (r: Option<nat>)
    ensures r.None? ==> forall i :: 0 <= i < |statuses| ==> statuses[i].name != name
    ensures r.Some? ==> r.value < |statuses| && statuses[r.value].name == name
    ensures r.Some? ==> forall i :: 0 <= i < r.value ==> statuses[i].name != name
  {
    if statuses == [] then None
    else if statuses[0].name == name then Some(0)
    else match FirstNamed(statuses[1..], name)
      case None => None
      case Some(k) => Some(k + 1)
  }

  /** Init containers are searched first; no status gives the empty digest. */
  function StatusSHA(init: seq<ContainerStatus>, main: seq<ContainerStatus>, name: string): string {
    if FirstNamed(init, name).Some? then StatusDigest(init[FirstNamed(init, name).value])
    else if FirstNamed(main, name).Some? then StatusDigest(main[FirstNamed(main, name).value])
    else ""
  }

  /** containerStatusImageSHA: two searches with early return. */
  method ContainerStatusImageSHA(init: seq<ContainerStatus>, main: seq<ContainerStatus>, name: string)
    returns (digest: string)
    ensures digest == StatusSHA(init, main, name)
  {
    for i := 0 to |init|
      invariant forall j :: 0 <= j < i ==> init[j].name != name
    {
      if init[i].name == name {
        digest := DigestOf(init[i]);
        return;
      }
    }
    for i := 0 to |main|
      invariant forall j :: 0 <= j < i ==> main[j].name != name
    {
      if main[i].name == name {
        digest := DigestOf(main[i]);
        return;
      }
    }
    return "";
  }

  // ---------- what is read off a status ----------

  /** The first status with the name; init containers come before the others. */
  predicate IsFirstNamed(statuses: seq<ContainerStatus>, name: string, i: nat) {
    && i < |statuses| && statuses[i].name == name
    && forall j :: 0 <= j < i ==> statuses[j].name != name
  }

  lemma FirstOfBoth(init: seq<ContainerStatus>, main: seq<ContainerStatus>, name: string, i: nat)
    requires IsFirstNamed(init + main, name, i)
    ensures StatusSHA(init, main, name) == StatusDigest((init + main)[i])
  {
    hide StatusDigest;
    forall j | 0 <= j < |init + main|
      ensures (init + main)[j] == if j < |init| then init[j] else main[j - |init|]
    {
    }
    if i < |init| {
      assert FirstNamed(init, name) == Some(i);
    } else {
      assert FirstNamed(init, name).None?;
      assert forall j :: 0 <= j < i - |init| ==> main[j] == (init + main)[|init| + j];
      assert main[i - |init|].name == name && FirstNamed(main, name) == Some(i - |init|);
    }
  }

  /** An image ID with a digest gives the digest: all that follows the first '@'. */
  lemma DigestIsRead(init: seq<ContainerStatus>, main: seq<ContainerStatus>, name: string, i: nat,
                     head: string, digest: string)
    requires IsFirstNamed(init + main, name, i) && (init + main)[i].imageID == head + ("@" + digest)
    requires Lacks(head, '@') && digest != ""
    ensures StatusSHA(init, main, name) == digest
  {
    FirstOfBoth(init, main, name, i);
    SplitAtDigest(head, digest);
  }

  /** The printed reference of a name, perhaps a tag, and a digest gives the digest. */
  lemma PrintedDigestIsRead(init: seq<ContainerStatus>, main: seq<ContainerStatus>, name: string, i: nat,
                            url: string, tag: string, digest: string)
    requires IsFirstNamed(init + main, name, i) && (init + main)[i].imageID == Print(ImageRef(url, tag, digest))
    requires Lacks(url, '@') && PlainTag(tag) && digest != ""
    ensures StatusSHA(init, main, name) == digest
  {
    TaggedLacks(url, tag, '@');
    DigestIsRead(init, main, name, i, PrintTagged(url, tag), digest);
  }

  /** An image ID without one is read whole exactly when no colon can be that of a tag. */
  lemma WholeIDIsReadIff(init: seq<ContainerStatus>, main: seq<ContainerStatus>, name: string, i: nat)
    requires IsFirstNamed(init + main, name, i) && Lacks((init + main)[i].imageID, '@')
    ensures StatusSHA(init, main, name) == (init + main)[i].imageID <==> ColonsBeforeLastSlash((init + main)[i].imageID)
  {
    FirstOfBoth(init, main, name, i);
    NoTagColonIff((init + main)[i].imageID);
  }

  /** With a tag, what stands before the tag is read. */
  lemma TagIsDropped(init: seq<ContainerStatus>, main: seq<ContainerStatus>, name: string, i: nat,
                     url: string, tag: string)
    requires IsFirstNamed(init + main, name, i) && (init + main)[i].imageID == url + (":" + tag)
    requires Lacks(url, '@') && PlainTag(tag) && tag != ""
    ensures StatusSHA(init, main, name) == url
  {
    FirstOfBoth(init, main, name, i);
    ReadsBackWithoutDigest(url, tag);
  }

  /** Without a status of that name there is no digest, and the container is not checked. */
  lemma NoStatusNoDigest(init: seq<ContainerStatus>, main: seq<ContainerStatus>, name: string)
    requires forall s :: s in init + main ==> s.name != name
    ensures StatusSHA(init, main, name) == ""
  {
  }

  /** An ID that is a bare digest is cut at its colon, as a tag would be. */
  lemma BareDigestIsCut()
    ensures StatusSHA([], [ContainerStatus("app", "sha256:abc")], "app") == "sha256"
  {
    var main := [ContainerStatus("app", "sha256:abc")];
    assert ([] + main)[0] == main[0] && "sha256:abc" == "sha256" + (":" + "abc");
    TagIsDropped([], main, "app", 0, "sha256", "abc");
  }
}
