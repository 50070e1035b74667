/**
 Tag parsing: what the version regular expression leaves in each capture group,
 and the version built from it.
 */
module SemVerScan {
  import opened Wrappers
  import opened Text

  /** The capture groups of `^v?([0-9]+)(\.[0-9]+)?(\.[0-9]+)?(.*)$`, and the optional v. */
  datatype Groups = Groups(v: string, major: string, minor: string, patch: string, rest: string) {
    function Text(): string {
      v + (major + (minor + (patch + rest)))
    }

    predicate Numeric() {
      AllDigits(major) && IsDotGroup(minor) && IsDotGroup(patch)
    }
  }

  /** The language of `(\.[0-9]+)?`. */
  predicate IsDotGroup(s: string) {
    s == "" || (|s| >= 2 && s[0] == '.' && AllDigits(s[1..]))
  }

  /** g is one way for the regular expression to match the whole tag; `.` never matches a newline. */
  predicate Matches(tag: string, g: Groups) {
    && tag == g.Text()
    && (g.v == "" || g.v == "v")
    && g.major != ""
    && g.Numeric()
    && '\n' !in g.rest
  }

  /** Leftmost-first matching prefers g over h: at the first group that differs, g takes more. */
  predicate PreferredTo(g: Groups, h: Groups) {
    if |g.v| != |h.v| then |g.v| > |h.v|
    else if |g.major| != |h.major| then |g.major| > |h.major|
    else if |g.minor| != |h.minor| then |g.minor| > |h.minor|
    else |g.patch| > |h.patch|
  }

  // ---------- the scanner ----------

  predicate StartsWithDigit(s: string) {
    s != "" && IsDigit(s[0])
  }

  predicate StartsWithDotDigit(s: string) {
    |s| >= 2 && s[0] == '.' && IsDigit(s[1])
  }

  /** A string cut in two. */
  datatype Cut = Cut(head: string, tail: string)

  function CutV(s: string): (c: Cut)
    ensures s == c.head + c.tail
  {
    if s != "" && s[0] == 'v' then Cut("v", s[1..]) else Cut("", s)
  }

  /** The longest run of digits, and what follows it. */
  function CutDigits(s: string): (c: Cut)
    ensures s == c.head + c.tail
    ensures AllDigits(c.head) && !StartsWithDigit(c.tail)
    ensures c.head != "" <==> StartsWithDigit(s)
  {
    if !StartsWithDigit(s) then Cut("", s)
    else var c := CutDigits(s[1..]); Cut([s[0]] + c.head, c.tail)
  }

  /** The longest dot group, and what follows it. */
  function CutDotGroup(s: string): (c: Cut)
    ensures s == c.head + c.tail
    ensures IsDotGroup(c.head)
    ensures c.head == "" ==> c.tail == s && !StartsWithDotDigit(s)
    ensures c.head != "" ==> !StartsWithDigit(c.tail)
  {
    if !StartsWithDotDigit(s) then Cut("", s)
    else var c := CutDigits(s[1..]); Cut("." + c.head, c.tail)
  }

  /** One pass over the tag, each group taken greedily. */
  function Scan(tag: string): (r: Option<Groups>)
    ensures r.Some? ==> r.value.Numeric()
  {
    var v := CutV(tag);
    var major := CutDigits(v.tail);
    if major.head == "" || '\n' in tag then None
    else
      var minor := CutDotGroup(major.tail);
      var patch := CutDotGroup(minor.tail);
      Some(Groups(v.head, major.head, minor.head, patch.head, patch.tail))
  }

  lemma SuffixLacks(a: string, b: string, c: char)
    requires c !in a + b
    ensures c !in b
  {
    assert forall i :: 0 <= i < |b| ==> b[i] == (a + b)[|a| + i];
  }

  lemma ScanMatches(tag: string)
    requires Scan(tag).Some?
    ensures Matches(tag, Scan(tag).value)
  {
    var v := CutV(tag);
    var major := CutDigits(v.tail);
    var minor := CutDotGroup(major.tail);
    var patch := CutDotGroup(minor.tail);
    SuffixLacks(v.head, v.tail, '\n');
    SuffixLacks(major.head, major.tail, '\n');
    SuffixLacks(minor.head, minor.tail, '\n');
    SuffixLacks(patch.head, patch.tail, '\n');
  }

  // ---------- the scanner is the regular expression ----------

  lemma SameLengthCut(a: string, b: string, c: string, d: string)
    requires a + b == c + d && |a| == |c|
    ensures a == c && b == d
  {
    assert (a + b)[..|a|] == a && (c + d)[..|c|] == c;
    assert (a + b)[|a|..] == b && (c + d)[|c|..] == d;
  }

  lemma {:induction false} CutDigitsIsLongest(digits: string, rest: string)
    requires AllDigits(digits)
    ensures var c := CutDigits(digits + rest);
      |c.head| >= |digits| && (|c.head| == |digits| ==> c == Cut(digits, rest))
  {
    var s := digits + rest;
    if digits != "" {
      assert s[1..] == digits[1..] + rest;
      CutDigitsIsLongest(digits[1..], rest);
    }
    if |CutDigits(s).head| == |digits| {
      SameLengthCut(CutDigits(s).head, CutDigits(s).tail, digits, rest);
    }
  }

  lemma CutDotGroupIsLongest(group: string, rest: string)
    requires IsDotGroup(group)
    ensures var c := CutDotGroup(group + rest);
      |c.head| >= |group| && (|c.head| == |group| ==> c == Cut(group, rest))
  {
    var s := group + rest;
    if group != "" {
      assert s[1..] == group[1..] + rest;
      CutDigitsIsLongest(group[1..], rest);
    }
    if |CutDotGroup(s).head| == |group| {
      SameLengthCut(CutDotGroup(s).head, CutDotGroup(s).tail, group, rest);
    }
  }

  lemma DigitsLackNewline(s: string)
    requires AllDigits(s) || IsDotGroup(s)
    ensures '\n' !in s
  {
    assert s == "" || s == [s[0]] + s[1..];
  }

  lemma CutVIs(v: string, major: string, rest: string)
    requires v == "" || v == "v"
    requires major != "" && AllDigits(major)
    ensures CutV(v + (major + rest)) == Cut(v, major + rest)
  {
    var s := v + (major + rest);
    if v == "" {
      assert s == major + rest && s[0] == major[0];
    } else {
      assert s[1..] == major + rest;
    }
  }

  lemma NewlineFree(h: Groups)
    requires h.Numeric() && '\n' !in h.rest && (h.v == "" || h.v == "v")
    ensures '\n' !in h.Text()
  {
    DigitsLackNewline(h.major);
    DigitsLackNewline(h.minor);
    DigitsLackNewline(h.patch);
  }

  lemma AnyMatchIsBounded(tag: string, h: Groups)
    requires Matches(tag, h)
    ensures Scan(tag).Some? && (h == Scan(tag).value || PreferredTo(Scan(tag).value, h))
  {
    NewlineFree(h);
    var s2 := h.patch + h.rest;
    var s1 := h.minor + s2;
    var s0 := h.major + s1;
    CutVIs(h.v, h.major, s1);
    CutDigitsIsLongest(h.major, s1);
    CutDotGroupIsLongest(h.minor, s2);
    CutDotGroupIsLongest(h.patch, h.rest);
  }

  /**
   Scan implements the regular expression: it fails exactly when nothing matches, and
   otherwise returns the one match that leftmost-first search prefers to every other.
   */
  lemma ScanIsTheRegexMatch(tag: string)
    ensures Scan(tag).None? <==> forall h :: !Matches(tag, h)
    ensures Scan(tag).Some? ==> Matches(tag, Scan(tag).value)
    ensures Scan(tag).Some? ==>
      forall h :: Matches(tag, h) && h != Scan(tag).value ==> PreferredTo(Scan(tag).value, h)
  {
    if Scan(tag).Some? { ScanMatches(tag); }
    forall h | Matches(tag, h)
      ensures Scan(tag).Some? && (h == Scan(tag).value || PreferredTo(Scan(tag).value, h))
    {
      AnyMatchIsBounded(tag, h);
    }
  }

  /** A digit run that cannot be extended is the one CutDigits takes. */
  lemma {:induction false} CutDigitsExact(digits: string, rest: string)
    requires AllDigits(digits) && !StartsWithDigit(rest)
    ensures CutDigits(digits + rest) == Cut(digits, rest)
  {
    if digits != "" {
      assert (digits + rest)[1..] == digits[1..] + rest;
      CutDigitsExact(digits[1..], rest);
    } else {
      assert digits + rest == rest;
    }
  }

  // ---------- the parsed version ----------

  /** A [3]int64. */
  type Numbers = n: seq<int> | |n| == 3 witness [0, 0, 0]

  datatype SemVer = SemVer(metadata: string, original: string, version: Numbers) {
    predicate HasMetaData() {
      |metadata| > 0
    }

    predicate Equal(other: SemVer) {
      original == other.original
    }

    function Major(): int { version[0] }

    function Minor(): int { version[1] }

    function Patch(): int { version[2] }
  }

  /** strings.TrimPrefix(group, "."). */
  function TrimDot(group: string): (digits: string)
    ensures AllDigits(group) || IsDotGroup(group) ==> AllDigits(digits)
  {
    if group != "" && group[0] == '.' then group[1..] else group
  }

  /** A capture group as a number: the leading dot dropped, an absent group zero. */
  function GroupValue(group: string): (n: nat)
    requires AllDigits(group) || IsDotGroup(group)
    ensures n <= MAX_INT64
  {
    Saturated(TrimDot(group))
  }

  function GroupNumbers(g: Groups): (n: Numbers)
    requires g.Numeric()
    ensures 0 <= n[0] <= MAX_INT64 && 0 <= n[1] <= MAX_INT64 && 0 <= n[2] <= MAX_INT64
  {
    [GroupValue(g.major), GroupValue(g.minor), GroupValue(g.patch)]
  }

  /** What Parse returns, read off the scan. */
  function Parsed(tag: string): SemVer {
    match Scan(tag)
    case None => SemVer(tag, tag, [0, 0, 0])
    case Some(g) => SemVer(g.rest, tag, GroupNumbers(g))
  }

  /** The loop of semver.Parse over the three numeric capture groups. */
  method FillNumbers(g: Groups) returns (version: Numbers)
    requires g.Numeric()
    ensures version == GroupNumbers(g)
  {
    var groups := [g.major, g.minor, g.patch];
    version := [0, 0, 0];
    for i := 0 to 3
      invariant forall j :: 0 <= j < i ==> version[j] == GroupNumbers(g)[j]
      invariant forall j :: i <= j < 3 ==> version[j] == 0
    {
      if |groups[i]| > 0 {
        version := version[i := Saturated(TrimDot(groups[i]))];
      }
    }
  }

  /** semver.Parse. */
  method Parse(tag: string) returns (s: SemVer)
    ensures s == Parsed(tag)
  {
    s := SemVer("", tag, [0, 0, 0]);
    var found := Scan(tag);
    if found.None? {
      s := s.(metadata := tag);
    } else {
      var version := FillNumbers(found.value);
      s := s.(version := version, metadata := found.value.rest);
    }
  }

  /** A matching tag is the optional v, its groups and the metadata: nothing is lost, each group is maximal. */
  lemma ParseLosesNothing(tag: string)
    requires Scan(tag).Some?
    ensures var g := Scan(tag).value;
      && tag == g.v + (g.major + (g.minor + (g.patch + Parsed(tag).metadata)))
      && (g.v == "" ==> tag[0] != 'v')
      && !StartsWithDigit(g.minor + (g.patch + g.rest))
      && (g.minor == "" ==> g.patch == "")
      && (g.minor == "" ==> !StartsWithDotDigit(g.rest))
      && (g.patch == "" ==> !StartsWithDotDigit(g.rest))
      && !StartsWithDigit(g.rest)
      && Parsed(tag).original == tag
  {
    ScanMatches(tag);
    var g := Scan(tag).value;
  }

  /**
   What the scanner leaves as metadata starts with a digit exactly for a tag that itself
   starts with a digit and holds a newline, so never for a tag a registry can list.
   */
  lemma MetadataStartsWithDigitIff(tag: string)
    ensures StartsWithDigit(Parsed(tag).metadata) <==> StartsWithDigit(tag) && '\n' in tag
  {
    if Scan(tag).Some? { ParseLosesNothing(tag); }
  }

  /** The tag grammar of the OCI Distribution Specification, and the empty tag of an untagged manifest. */
  predicate IsRegistryTag(tag: string) {
    && |tag| <= 128
    && (tag != "" ==> tag[0] != '.' && tag[0] != '-')
    && forall c :: c in tag ==> IsDigit(c) || 'a' <= c <= 'z' || 'A' <= c <= 'Z' || c == '_' || c == '.' || c == '-'
  }

  lemma RegistryTagMetadata(tag: string)
    requires IsRegistryTag(tag)
    ensures !StartsWithDigit(Parsed(tag).metadata)
  {
    MetadataStartsWithDigitIff(tag);
  }
}
