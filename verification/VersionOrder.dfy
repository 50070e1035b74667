/** LessThan on parsed tags: where it is an order, and exactly where it is not. */
module VersionOrder {
  import opened Text
  import opened SemVerScan
  import opened MetadataWords

  /** Lexicographic order on the three numbers. */
  predicate NumbersLess(a: Numbers, b: Numbers) {
    || a[0] < b[0]
    || (a[0] == b[0] && a[1] < b[1])
    || (a[0] == b[0] && a[1] == b[1] && a[2] < b[2])
  }

  predicate MetadataLess(a: SemVer, b: SemVer) {
    WordsLess(Words(a.metadata), Words(b.metadata))
  }

  predicate LessThan(s: SemVer, other: SemVer) {
    if s.original == "" || other.original == "" then |s.original| < |other.original|
    else if !s.HasMetaData() && other.HasMetaData() then false
    else if s.HasMetaData() && !other.HasMetaData() then true
    else NumbersLess(s.version, other.version) || MetadataLess(s, other)
  }

  /** compareVersionNumbers: the first differing index decides. */
  method CompareVersionNumbers(s: SemVer, other: SemVer) returns (less: bool)
    ensures less == NumbersLess(s.version, other.version)
  {
    for i := 0 to 3
      invariant forall j :: 0 <= j < i ==> s.version[j] == other.version[j]
    {
      if s.version[i] != other.version[i] {
        return s.version[i] < other.version[i];
      }
    }
    return false;
  }

  /** What semver.Parse returns. */
  type ParsedVersion = v: SemVer | v == Parsed(v.original) witness Parsed("")

  /** (*SemVer).LessThan over the two looping comparisons. */
  method SemVerLessThan(s: SemVer, other: SemVer) returns (less: bool)
    ensures less == LessThan(s, other)
  {
    if |other.original| == 0 || |s.original| == 0 {
      return |s.original| < |other.original|;
    }
    if !s.HasMetaData() && other.HasMetaData() {
      return false;
    }
    if s.HasMetaData() && !other.HasMetaData() {
      return true;
    }
    var numbersLess := CompareVersionNumbers(s, other);
    if numbersLess {
      return true;
    }
    less := ComparePreReleaseMetadata(s.metadata, other.metadata);
  }

  // ---------- tags without metadata ----------

  /** The tag parses without metadata: the empty tag, or nothing but an optional v and numbers. */
  predicate MetadataFree(tag: string) {
    !Parsed(tag).HasMetaData()
  }

  predicate Less(a: string, b: string) {
    LessThan(Parsed(a), Parsed(b))
  }

  /** Neither tag is less than the other. */
  predicate Tied(a: string, b: string) {
    !Less(a, b) && !Less(b, a)
  }

  lemma ParsedOriginal(tag: string)
    ensures Parsed(tag).original == tag
    ensures tag == "" ==> MetadataFree(tag) && Parsed(tag).version == [0, 0, 0]
  {
  }

  /** What a metadata-free comparison reads: emptiness first, then the numbers. */
  lemma MetadataFreeLess(a: string, b: string)
    requires MetadataFree(a) && MetadataFree(b)
    ensures Less(a, b) <==>
      b != "" && (a == "" || NumbersLess(Parsed(a).version, Parsed(b).version))
    ensures Tied(a, b) <==>
      (a == "" <==> b == "") && Parsed(a).version == Parsed(b).version
  {
    ParsedOriginal(a);
    ParsedOriginal(b);
    assert Parsed(a).version == Parsed(b).version <==>
      Parsed(a).version[0] == Parsed(b).version[0]
      && Parsed(a).version[1] == Parsed(b).version[1]
      && Parsed(a).version[2] == Parsed(b).version[2];
  }

  /** On metadata-free tags, the empty tag among them, LessThan is a strict weak order. */
  lemma StrictWeakOrder(a: string, b: string, c: string)
    requires MetadataFree(a) && MetadataFree(b) && MetadataFree(c)
    ensures !Less(a, a)
    ensures !(Less(a, b) && Less(b, a))
    ensures Less(a, b) && Less(b, c) ==> Less(a, c)
    ensures Less(a, b) ==> Less(a, c) || Less(c, b)
    ensures Tied(a, b) && Tied(b, c) ==> Tied(a, c)
  {
    MetadataFreeLess(a, a);
    MetadataFreeLess(a, b);
    MetadataFreeLess(b, a);
    MetadataFreeLess(b, c);
    MetadataFreeLess(c, b);
    MetadataFreeLess(a, c);
  }

  /**
   A running tag of any shape that is below some metadata-free tag is below every
   metadata-free tag that this one does not exceed.
   */
  lemma BelowOneBelowGreater(current: string, low: string, high: string)
    requires MetadataFree(low) && MetadataFree(high)
    requires Less(current, low) && !Less(high, low)
    ensures Less(current, high)
  {
    ParsedOriginal(current);
    ParsedOriginal(low);
    ParsedOriginal(high);
    MetadataFreeLess(high, low);
    if MetadataFree(current) {
      StrictWeakOrder(current, low, high);
    }
  }

  // ---------- tags with metadata ----------

  /** Every tag with metadata is below every non-empty tag without, and the empty tag is below every other. */
  lemma AcrossKinds(a: string, b: string)
    requires a == "" || !MetadataFree(a)
    requires b != "" && (a == "" || MetadataFree(b))
    ensures Less(a, b) && !Less(b, a)
  {
    ParsedOriginal(a);
    ParsedOriginal(b);
  }

  /** No tag is less than itself. */
  lemma LessIrreflexive(a: string)
    ensures !Less(a, a)
  {
    WordsLessIrreflexive(Words(Parsed(a).metadata));
  }

  lemma MetadataAsymmetric(a: string, b: string)
    requires IsRegistryTag(a) && IsRegistryTag(b)
    ensures !(MetadataLess(Parsed(a), Parsed(b)) && MetadataLess(Parsed(b), Parsed(a)))
  {
    RegistryTagMetadata(a);
    RegistryTagMetadata(b);
    MetadataOrderIsStrictPartial(Parsed(a).metadata, Parsed(b).metadata, Parsed(a).metadata);
  }

  lemma MutuallyLessParsed(p: SemVer, q: SemVer)
    requires p.original == "" ==> !p.HasMetaData()
    requires q.original == "" ==> !q.HasMetaData()
    requires !(MetadataLess(p, q) && MetadataLess(q, p))
    ensures LessThan(p, q) && LessThan(q, p) <==>
      && p.HasMetaData() && q.HasMetaData()
      && ((NumbersLess(p.version, q.version) && MetadataLess(q, p))
          || (NumbersLess(q.version, p.version) && MetadataLess(p, q)))
  {
    assert Words("") == [];
  }

  /**
   Two registry tags are each less than the other exactly when both carry metadata and
   their numbers and their metadata are ordered opposite ways.
   */
  lemma MutuallyLessIff(a: string, b: string)
    requires IsRegistryTag(a) && IsRegistryTag(b)
    ensures var p, q := Parsed(a), Parsed(b);
      Less(a, b) && Less(b, a) <==>
        && p.HasMetaData() && q.HasMetaData()
        && ((NumbersLess(p.version, q.version) && MetadataLess(q, p))
            || (NumbersLess(q.version, p.version) && MetadataLess(p, q)))
  {
    ParsedOriginal(a);
    ParsedOriginal(b);
    MetadataAsymmetric(a, b);
    MutuallyLessParsed(Parsed(a), Parsed(b));
  }

  /** With equal numbers, metadata tags are strictly partially ordered. */
  lemma SameNumbersOrder(a: string, b: string, c: string)
    requires IsRegistryTag(a) && IsRegistryTag(b) && IsRegistryTag(c)
    requires !MetadataFree(a) && !MetadataFree(b) && !MetadataFree(c)
    requires Parsed(a).version == Parsed(b).version == Parsed(c).version
    ensures !(Less(a, b) && Less(b, a))
    ensures Less(a, b) && Less(b, c) ==> Less(a, c)
  {
    RegistryTagMetadata(a);
    RegistryTagMetadata(b);
    RegistryTagMetadata(c);
    ParsedOriginal(a);
    ParsedOriginal(b);
    ParsedOriginal(c);
    MetadataOrderIsStrictPartial(Parsed(a).metadata, Parsed(b).metadata, Parsed(c).metadata);
  }

  // ---------- where the order breaks ----------

  lemma MajorTagParses(n: nat, metadata: string)
    requires n <= MAX_INT64 && metadata != "" && metadata[0] == '-' && '\n' !in metadata
    ensures Parsed(PrintNat(n) + metadata).metadata == metadata
    ensures Parsed(PrintNat(n) + metadata).original == PrintNat(n) + metadata
    ensures Parsed(PrintNat(n) + metadata).version[0] == n
  {
    var digits := PrintNat(n);
    CutVIs("", digits, metadata);
    assert "" + (digits + metadata) == digits + metadata;
    CutDigitsExact(digits, metadata);
    DigitsLackNewline(digits);
    PrintNatRoundTrip(n);
  }

  lemma TextMetadataLess(a: string, b: string)
    requires a != "" && b != "" && AllOfKind(false, a) && AllOfKind(false, b) && StringLess(a, b)
    ensures WordsLess(Words(a), Words(b))
  {
    WordsOfOne(StringWord(a));
    WordsOfOne(StringWord(b));
    StringLessIrreflexive(a);
  }

  /**
   A whole family of tags that are each less than the other: any two majors with pre-release texts in
   the opposite order, as in 2-alpha and 1-beta.
   */
  lemma PreReleasesClash(n: nat, m: nat, a: string, b: string)
    requires m < n <= MAX_INT64
    requires AllOfKind(false, a) && AllOfKind(false, b) && '\n' !in a && '\n' !in b
    requires StringLess("-" + a, "-" + b)
    ensures Less(PrintNat(n) + ("-" + a), PrintNat(m) + ("-" + b))
    ensures Less(PrintNat(m) + ("-" + b), PrintNat(n) + ("-" + a))
  {
    hide Scan, PrintNat, Parsed, Words, WordsLess, StringLess;
    MajorTagParses(n, "-" + a);
    MajorTagParses(m, "-" + b);
    TextMetadataLess("-" + a, "-" + b);
  }

  /** One such pair: by its numbers 1-beta is less, by its metadata 2-alpha is. */
  lemma AlphaAndBetaClash()
    ensures Less("2-alpha", "1-beta") && Less("1-beta", "2-alpha")
  {
    assert PrintNat(2) + ("-" + "alpha") == "2-alpha" && PrintNat(1) + ("-" + "beta") == "1-beta";
    assert StringLess("-alpha"[1..], "-beta"[1..]);
    PreReleasesClash(2, 1, "alpha", "beta");
  }
}
