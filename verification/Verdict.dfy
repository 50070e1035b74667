/**
 The verdict on a running tag against the selected image: what it says about the whole
 tag list, and what the written-back tag does to the next check of the same image.
 */
module Verdict {
  import opened Wrappers
  import opened Text
  import opened SemVerScan
  import opened MetadataWords
  import opened VersionOrder
  import opened Api
  import opened Selection
  import opened Latest

  /** The verdict, and the selected image as the check leaves it. */
  datatype Outcome = Outcome(isLatest: bool, image: ImageTag)

  /** fmt.Sprintf("%s@%s", tag, digest). */
  function WithDigest(tag: string, digest: string): string {
    tag + ("@" + digest)
  }

  predicate Mismatch(currentTag: string, currentSHA: string, latest: ImageTag) {
    currentTag == latest.tag && !latest.HasDigest(currentSHA)
  }

  /** The digest a mismatch appends to the tag: the image's own, else the first child's. */
  function WrittenDigest(latest: ImageTag): Option<string> {
    if latest.sha != "" then Some(latest.sha)
    else if |latest.children| > 0 then Some(latest.children[0].sha)
    else None
  }

  function SemverOutcome(currentTag: string, currentSHA: string, latest: ImageTag): Outcome {
    if Mismatch(currentTag, currentSHA, latest) then
      match WrittenDigest(latest)
      case None => Outcome(false, latest)
      case Some(digest) => Outcome(false, latest.(tag := WithDigest(latest.tag, digest)))
    else Outcome(!Less(currentTag, latest.tag), latest)
  }

  // ---------- the verdict over a fresh tag list ----------

  /** No tag that passes the filter is greater than the running tag. */
  predicate NothingGreater(opts: Options, tags: seq<ImageTag>, currentTag: string) {
    forall image :: image in tags && Candidate(opts, image) ==> !Less(currentTag, image.tag)
  }

  /** Comparing with the selected tag alone decides the comparison with every candidate. */
  lemma SelectedDecides(opts: Options, tags: seq<ImageTag>, currentTag: string, k: nat)
    requires PlainCandidates(opts, tags) && LatestSemverIndex(opts, tags) == Some(k)
    ensures k < |tags|
    ensures NothingGreater(opts, tags, currentTag) <==> !Less(currentTag, tags[k].tag)
  {
    hide Candidate, Less;
    SelectedIsGreatest(opts, tags, k);
    if !Less(currentTag, tags[k].tag) {
      forall image | image in tags && Candidate(opts, image)
        ensures !Less(currentTag, image.tag)
      {
        if Less(currentTag, image.tag) {
          BelowOneBelowGreater(currentTag, image.tag, tags[k].tag);
        }
      }
    }
  }

  /**
   The end-to-end verdict: the running image is the latest exactly when no candidate is greater
   and it is not the selected tag under another digest; a negative verdict always has a witness.
   */
  lemma VerdictIsExact(opts: Options, tags: seq<ImageTag>, currentTag: string, currentSHA: string, k: nat)
    requires PlainCandidates(opts, tags) && LatestSemverIndex(opts, tags) == Some(k)
    ensures k < |tags|
    ensures SemverOutcome(currentTag, currentSHA, tags[k]).isLatest <==>
      NothingGreater(opts, tags, currentTag) && !Mismatch(currentTag, currentSHA, tags[k])
    ensures !SemverOutcome(currentTag, currentSHA, tags[k]).isLatest ==>
      exists image :: image in tags && Candidate(opts, image)
        && (Less(currentTag, image.tag) || (image.tag == currentTag && !image.HasDigest(currentSHA)))
  {
    hide Candidate, Less, LatestSemverIndex, PlainCandidates;
    SelectedDecides(opts, tags, currentTag, k);
    assert tags[k] in tags && Candidate(opts, tags[k]);
  }

  // ---------- what the written tag does to the next check ----------

  lemma {:induction false} CutDigitsAppend(s: string, x: string)
    requires x != "" && !IsDigit(x[0])
    ensures CutDigits(s + x) == SemVerScan.Cut(CutDigits(s).head, CutDigits(s).tail + x)
  {
    if StartsWithDigit(s) {
      assert (s + x)[1..] == s[1..] + x;
      CutDigitsAppend(s[1..], x);
    }
  }

  lemma CutDotGroupAppend(s: string, x: string)
    requires x != "" && !IsDigit(x[0]) && x[0] != '.'
    ensures CutDotGroup(s + x) == SemVerScan.Cut(CutDotGroup(s).head, CutDotGroup(s).tail + x)
  {
    assert StartsWithDotDigit(s + x) <==> StartsWithDotDigit(s);
    if StartsWithDotDigit(s) {
      assert (s + x)[1..] == s[1..] + x;
      CutDigitsAppend(s[1..], x);
    }
  }

  lemma ScanAppend(tag: string, x: string)
    requires x != "" && x[0] == '@' && '\n' !in tag && '\n' !in x
    ensures Scan(tag + x) == match Scan(tag)
      case None => None
      case Some(g) => Some(g.(rest := g.rest + x))
  {
    assert CutV(tag + x) == SemVerScan.Cut(CutV(tag).head, CutV(tag).tail + x);
    var v := CutV(tag);
    CutDigitsAppend(v.tail, x);
    var major := CutDigits(v.tail);
    CutDotGroupAppend(major.tail, x);
    var minor := CutDotGroup(major.tail);
    CutDotGroupAppend(minor.tail, x);
  }

  /** Appending "@digest" to a tag appends it to the metadata and leaves the numbers. */
  lemma ParsedAppend(tag: string, x: string)
    requires x != "" && x[0] == '@' && '\n' !in tag && '\n' !in x
    ensures Parsed(tag + x) == SemVer(Parsed(tag).metadata + x, tag + x, Parsed(tag).version)
  {
    ScanAppend(tag, x);
  }

  lemma FirstWordDecides(a: Word, b: Word, rest: seq<Word>)
    ensures WordsLess([a], [b] + rest) <==> !WordEqual(a, b) && WordLess(a, b)
  {
    assert [a][1..] == [];
    assert ([b] + rest)[0] == b;
  }

  lemma NumberWordExtension(m: string, x: string)
    requires m != "" && AllDigits(m)
    requires x != "" && !IsDigit(x[0])
    ensures !WordsLess(Words(m), Words(m + x))
  {
    WordsOfOne(IntWord(m));
    WordsOfCons(IntWord(m), x);
    FirstWordDecides(IntWord(m), IntWord(m), Words(x));
  }

  lemma LongerTextWord(m: string, longer: string, tail: string)
    requires m != "" && AllOfKind(false, m) && AllOfKind(false, longer)
    requires StringLess(m, longer)
    requires tail != "" ==> IsDigit(tail[0])
    ensures WordsLess(Words(m), Words(longer + tail))
  {
    StringLessIrreflexive(m);
    WordsOfOne(StringWord(m));
    WordsOfCons(StringWord(longer), tail);
    FirstWordDecides(StringWord(m), StringWord(longer), Words(tail));
  }

  /** Where the last text word of the extended metadata ends. */
  lemma TextRunOfExtension(m: string, x: string) returns (longer: string, tail: string)
    requires AllOfKind(false, m)
    requires x != "" && !IsDigit(x[0])
    ensures m + x == longer + tail
    ensures AllOfKind(false, longer) && StringLess(m, longer)
    ensures tail != "" ==> IsDigit(tail[0])
  {
    var more := CutKind(false, x);
    longer, tail := m + more.head, more.tail;
    PrefixIsLess(m, more.head);
  }

  lemma TextWordExtension(m: string, x: string)
    requires m != "" && AllOfKind(false, m)
    requires x != "" && !IsDigit(x[0])
    ensures WordsLess(Words(m), Words(m + x))
  {
    var longer, tail := TextRunOfExtension(m, x);
    LongerTextWord(m, longer, tail);
  }

  /** Extending metadata by a text suffix makes it greater exactly when its last word was text. */
  lemma {:induction false} LessThanExtension(m: string, x: string)
    requires m != "" && x != "" && !IsDigit(x[0])
    ensures WordsLess(Words(m), Words(m + x)) <==> !IsDigit(m[|m| - 1])
    decreases |m|
  {
    var cut := CutKind(IsDigit(m[0]), m);
    if cut.tail == "" {
      assert m == cut.head;
      if IsDigit(m[0]) { NumberWordExtension(m, x); } else { TextWordExtension(m, x); }
    } else {
      var w := NewWord(cut.head, IsDigit(m[0]));
      assert m + x == w.text + (cut.tail + x);
      WordsOfCons(w, cut.tail);
      WordsOfCons(w, cut.tail + x);
      LessThanExtension(cut.tail, x);
      var a, b := Words(cut.tail), Words(cut.tail + x);
      assert ([w] + a)[1..] == a && ([w] + b)[1..] == b;
      assert m[|m| - 1] == cut.tail[|cut.tail| - 1];
    }
  }

  lemma LessThanSameNumbers(p: SemVer, q: SemVer)
    requires p.original != "" && q.original != "" && p.version == q.version && q.HasMetaData()
    ensures LessThan(p, q) <==> p.HasMetaData() && MetadataLess(p, q)
  {
  }

  /** A tag is less than itself with "@digest" appended exactly when it is empty or its metadata ends in text. */
  lemma LessThanWritten(tag: string, digest: string)
    requires '\n' !in tag && '\n' !in digest
    ensures var m := Parsed(tag).metadata;
      Less(tag, WithDigest(tag, digest)) <==> tag == "" || (m != "" && !IsDigit(m[|m| - 1]))
  {
    var x := "@" + digest;
    var p, q := Parsed(tag), Parsed(tag + x);
    ParsedAppend(tag, x);
    ParsedOriginal(tag);
    if tag != "" {
      LessThanSameNumbers(p, q);
      if p.metadata != "" { LessThanExtension(p.metadata, x); }
    }
  }

  /**
   Checking the same image twice against the same selected image, the second time as the first
   check left it. The verdicts agree unless the first check wrote a digest into the tag; then the
   second check calls the outdated image the latest exactly when its tag is non-empty and has no
   metadata, or metadata that ends in a digit.
   */
  lemma SecondCheckIff(currentTag: string, currentSHA: string, latest: ImageTag)
    requires '\n' !in currentTag
    requires WrittenDigest(latest).Some? ==> '\n' !in WrittenDigest(latest).value
    ensures var first := SemverOutcome(currentTag, currentSHA, latest);
      var second := SemverOutcome(currentTag, currentSHA, first.image);
      var m := Parsed(currentTag).metadata;
      second.isLatest == first.isLatest <==>
        !(&& Mismatch(currentTag, currentSHA, latest) && WrittenDigest(latest).Some?
          && currentTag != "" && (m == "" || IsDigit(m[|m| - 1])))
  {
    if Mismatch(currentTag, currentSHA, latest) && WrittenDigest(latest).Some? {
      LessThanWritten(currentTag, WrittenDigest(latest).value);
      assert |WithDigest(currentTag, WrittenDigest(latest).value)| > |currentTag|;
    }
  }

  /** One such image: tag 1 runs under digest old, the registry has it under digest new. */
  lemma SecondCheckFlips()
    ensures var latest := ImageTag("1", "new", 0, "", "", []);
      var first := SemverOutcome("1", "old", latest);
      !first.isLatest && SemverOutcome("1", "old", first.image).isLatest
  {
    var latest := ImageTag("1", "new", 0, "", "", []);
    CutDigitsExact("1", "");
    assert Parsed("1").metadata == "";
    SecondCheckIff("1", "old", latest);
  }

  // ---------- what it does to other checks ----------

  lemma WrittenHasMetadata(tag: string, digest: string)
    ensures !MetadataFree(WithDigest(tag, digest))
  {
    hide Scan;
    var x := "@" + digest;
    if '\n' in tag + x {
      assert Scan(tag + x).None? by { HoldsNewline(tag + x); }
    } else {
      assert forall i :: 0 <= i < |tag| ==> tag[i] == (tag + x)[i];
      assert forall i :: 0 <= i < |x| ==> x[i] == (tag + x)[|tag| + i];
      ParsedAppend(tag, x);
    }
  }

  lemma HoldsNewline(tag: string)
    requires '\n' in tag
    ensures Scan(tag).None?
  {
  }

  /**
   A search over a list in which one tag has been written to, without a regular expression and the
   metadata option, finds what it would find if that image were missing.
   */
  lemma WrittenIsDropped(opts: Options, images: seq<ImageTag>, rest: seq<ImageTag>, k: nat, digest: string)
    requires opts.regexMatcher.None? && !opts.useMetaData
    requires k < |images| && IsWithout(rest, images, k)
    ensures var written := images[k := images[k].(tag := WithDigest(images[k].tag, digest))];
      && !Candidate(opts, written[k])
      && LatestSemverIndex(opts, written) == Shifted(LatestSemverIndex(opts, rest), k)
  {
    hide Scan, HeldAfter, Less;
    var image := images[k].(tag := WithDigest(images[k].tag, digest));
    var written := images[k := image];
    WrittenHasMetadata(images[k].tag, digest);
    assert !Passing(opts)(written[k]);
    SkippedIsAbsent(Passing(opts), Less, written, rest, k, |written|);
  }

  /**
   A container that runs the selected tag under the registry's own digest is the latest. After the check
   of another container with that tag has written a digest into it, it stays the latest exactly when the
   tag is non-empty and has no metadata, or metadata that ends in a digit.
   */
  lemma CurrentAfterWriteIff(ownSHA: string, otherSHA: string, latest: ImageTag)
    requires latest.HasDigest(ownSHA) && !latest.HasDigest(otherSHA)
    requires '\n' !in latest.tag
    requires WrittenDigest(latest).Some? ==> '\n' !in WrittenDigest(latest).value
    ensures SemverOutcome(latest.tag, ownSHA, latest).isLatest
    ensures var after := SemverOutcome(latest.tag, otherSHA, latest).image;
      var m := Parsed(latest.tag).metadata;
      SemverOutcome(latest.tag, ownSHA, after).isLatest <==>
        WrittenDigest(latest).None? || (latest.tag != "" && (m == "" || IsDigit(m[|m| - 1])))
  {
    hide Scan;
    LessIrreflexive(latest.tag);
    if WrittenDigest(latest).Some? {
      LessThanWritten(latest.tag, WrittenDigest(latest).value);
      assert |WithDigest(latest.tag, WrittenDigest(latest).value)| > |latest.tag|;
    }
  }

  /** The check leaves the selected image alone exactly when it has no digest to write. */
  lemma WritesIff(currentTag: string, currentSHA: string, latest: ImageTag)
    ensures SemverOutcome(currentTag, currentSHA, latest).image == latest <==>
      !(Mismatch(currentTag, currentSHA, latest) && WrittenDigest(latest).Some?)
  {
    if Mismatch(currentTag, currentSHA, latest) && WrittenDigest(latest).Some? {
      assert |WithDigest(latest.tag, WrittenDigest(latest).value)| > |latest.tag|;
    }
  }
}
