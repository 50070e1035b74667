/** Printed version tags: what a tag written out from its parts parses to, and how such tags compare. */
module PrintedTags {
  import opened Wrappers
  import opened Text
  import opened SemVerScan
  import opened MetadataWords
  import opened VersionOrder

  // ---------- parsing what was printed ----------

  lemma CutDotGroupExact(digits: string, rest: string)
    requires digits != "" && AllDigits(digits) && !StartsWithDigit(rest)
    ensures CutDotGroup("." + digits + rest) == SemVerScan.Cut("." + digits, rest)
  {
    assert ("." + digits + rest)[1..] == digits + rest;
    CutDigitsExact(digits, rest);
  }

  lemma CutGroup(group: string, rest: string)
    requires IsDotGroup(group) && !StartsWithDigit(rest) && (group == "" ==> !StartsWithDotDigit(rest))
    ensures CutDotGroup(group + rest) == SemVerScan.Cut(group, rest)
  {
    if group == "" {
      assert group + rest == rest;
    } else {
      assert group == "." + group[1..];
      CutDotGroupExact(group[1..], rest);
    }
  }

  /** Capture groups, none of which could take more. */
  predicate Maximal(g: Groups) {
    && (g.v == "" || g.v == "v") && g.major != "" && g.Numeric() && '\n' !in g.rest
    && !StartsWithDigit(g.rest)
    && (g.minor == "" ==> g.patch == "")
    && (g.patch == "" ==> !StartsWithDotDigit(g.rest))
  }

  lemma AfterGroup(group: string, rest: string)
    requires IsDotGroup(group) && !StartsWithDigit(rest)
    ensures !StartsWithDigit(group + rest)
  {
    if group == "" { assert group + rest == rest; } else { assert (group + rest)[0] == '.'; }
  }

  /** Such groups are what their text is scanned into. */
  lemma MaximalGroupsScan(g: Groups)
    requires Maximal(g)
    ensures Scan(g.Text()) == Some(g)
  {
    var s2 := g.patch + g.rest;
    var s1 := g.minor + s2;
    CutVIs(g.v, g.major, s1);
    AfterGroup(g.patch, g.rest);
    AfterGroup(g.minor, s2);
    CutDigitsExact(g.major, s1);
    if g.minor == "" { assert s2 == g.rest; }
    CutGroup(g.minor, s2);
    CutGroup(g.patch, g.rest);
    NewlineFree(g);
  }

  // ---------- what the numbers are ----------

  /** The number as an int64 holds it. */
  predicate IsHeldAs(n: nat, held: int) {
    if n <= 9223372036854775807 then held == n else held == 9223372036854775807
  }

  predicate OptionalV(v: string) {
    v == "" || v == "v"
  }

  predicate IsNumber(digits: string) {
    digits != "" && AllDigits(digits)
  }

  lemma ValueIsHeld(digits: string)
    requires IsNumber(digits)
    ensures IsDotGroup("." + digits)
    ensures IsHeldAs(DecimalValue(digits), GroupValue(digits))
    ensures IsHeldAs(DecimalValue(digits), GroupValue("." + digits))
    ensures GroupValue("") == 0
  {
    hide DecimalValue;
    assert ("." + digits)[1..] == digits;
    assert DecimalValue("") == 0 by { EmptyIsZero(); }
  }

  lemma EmptyIsZero()
    ensures DecimalValue("") == 0
  {
  }

  /** Such groups are the numbers and the metadata of their text. */
  lemma MaximalGroupsParse(g: Groups)
    requires Maximal(g)
    ensures var p := Parsed(g.Text());
      p.metadata == g.rest && p.original == g.Text() && p.version == GroupNumbers(g)
  {
    hide Scan, GroupValue;
    MaximalGroupsScan(g);
  }

  /** Three numbers, with or without the v, and any metadata that the last could not take from. */
  lemma ThreeNumbersParse(v: string, d: string, e: string, f: string, m: string)
    requires OptionalV(v) && IsNumber(d) && IsNumber(e) && IsNumber(f)
    requires !StartsWithDigit(m) && '\n' !in m
    ensures var tag := v + d + "." + e + "." + f + m; var p := Parsed(tag);
      && p.metadata == m && p.original == tag
      && IsHeldAs(DecimalValue(d), p.version[0])
      && IsHeldAs(DecimalValue(e), p.version[1])
      && IsHeldAs(DecimalValue(f), p.version[2])
  {
    hide Parsed, IsHeldAs, DecimalValue, GroupValue, AllDigits;
    ValueIsHeld(d);
    ValueIsHeld(e);
    ValueIsHeld(f);
    var g := Groups(v, d, "." + e, "." + f, m);
    MaximalGroupsParse(g);
    assert v + d + "." + e + "." + f + m == g.Text();
  }

  /** Two numbers: the third is zero. */
  lemma TwoNumbersParse(v: string, d: string, e: string, m: string)
    requires OptionalV(v) && IsNumber(d) && IsNumber(e)
    requires !StartsWithDigit(m) && !StartsWithDotDigit(m) && '\n' !in m
    ensures var tag := v + d + "." + e + m; var p := Parsed(tag);
      && p.metadata == m && p.original == tag
      && IsHeldAs(DecimalValue(d), p.version[0])
      && IsHeldAs(DecimalValue(e), p.version[1])
      && p.version[2] == 0
  {
    hide Parsed, IsHeldAs, DecimalValue, GroupValue, AllDigits;
    ValueIsHeld(d);
    ValueIsHeld(e);
    var g := Groups(v, d, "." + e, "", m);
    MaximalGroupsParse(g);
    assert v + d + "." + e + m == g.Text();
  }

  /** One number: the other two are zero. */
  lemma OneNumberParses(v: string, d: string, m: string)
    requires OptionalV(v) && IsNumber(d)
    requires !StartsWithDigit(m) && !StartsWithDotDigit(m) && '\n' !in m
    ensures var tag := v + d + m; var p := Parsed(tag);
      && p.metadata == m && p.original == tag
      && IsHeldAs(DecimalValue(d), p.version[0])
      && p.version[1] == 0 && p.version[2] == 0
  {
    hide Parsed, IsHeldAs, DecimalValue, GroupValue, AllDigits;
    ValueIsHeld(d);
    var g := Groups(v, d, "", "", m);
    MaximalGroupsParse(g);
    assert v + d + m == g.Text();
  }

  /** A tag without a leading number is all metadata. */
  lemma NoLeadingNumber(tag: string)
    requires tag == "" || (!IsDigit(tag[0]) && tag[0] != 'v') || (tag[0] == 'v' && !StartsWithDigit(tag[1..]))
    ensures var p := Parsed(tag); p.metadata == tag && p.original == tag && p.version == [0, 0, 0]
  {
  }

  /** The tag 22.04 is the version 22, 4, 0. */
  lemma TwentyTwoZeroFour()
    ensures var p := Parsed("22.04"); p.version == [22, 4, 0] && p.metadata == ""
  {
    hide Parsed;
    TwoNumbersParse("", "22", "04", "");
    assert "" + "22" + "." + "04" + "" == "22.04";
    assert "04" == "0" + "4" && "22" == PrintNat(22) && "4" == PrintNat(4);
    LeadingZero("4");
    PrintNatRoundTrip(4);
    PrintNatRoundTrip(22);
  }

  // ---------- how they compare ----------

  /** The first index at which the numbers differ decides. */
  lemma FirstDifferenceDecides(a: Numbers, b: Numbers)
    ensures NumbersLess(a, b) <==> exists i: nat :: DifferAt(a, b, i) && a[i] < b[i]
  {
    if NumbersLess(a, b) {
      var i := if a[0] != b[0] then 0 else if a[1] != b[1] then 1 else 2;
      assert DifferAt(a, b, i);
    } else if i: nat :| DifferAt(a, b, i) && a[i] < b[i] {
      assert forall j :: 0 <= j < i ==> a[j] == a[..i][j] && b[j] == b[..i][j];
    }
  }

  /** Numbers that an int64 holds. */
  predicate InRange(x: nat, y: nat, z: nat) {
    x <= 9223372036854775807 && y <= 9223372036854775807 && z <= 9223372036854775807
  }

  /** Three numbers printed with dots between them, after an optional v and before any metadata. */
  function Printed(v: string, x: nat, y: nat, z: nat, m: string): string {
    v + PrintNat(x) + "." + PrintNat(y) + "." + PrintNat(z) + m
  }

  lemma PrintedParses(v: string, x: nat, y: nat, z: nat, m: string)
    requires OptionalV(v) && InRange(x, y, z)
    requires !StartsWithDigit(m) && '\n' !in m
    ensures var tag := Printed(v, x, y, z, m); var p := Parsed(tag);
      tag != "" && p.original == tag && p.metadata == m && p.version == [x, y, z]
  {
    hide Parsed, PrintNat, StartsWithDigit;
    PrintNatRoundTrip(x);
    PrintNatRoundTrip(y);
    PrintNatRoundTrip(z);
    ThreeNumbersParse(v, PrintNat(x), PrintNat(y), PrintNat(z), m);
    var p := Parsed(Printed(v, x, y, z, m));
    assert p.version == [p.version[0], p.version[1], p.version[2]];
  }

  /** Two printed releases, with or without the v: the major decides, then the minor, then the patch. */
  lemma ReleasesCompare(v: string, x: nat, y: nat, z: nat, w: string, p: nat, q: nat, r: nat)
    requires OptionalV(v) && OptionalV(w)
    requires InRange(x, y, z) && InRange(p, q, r)
    ensures Less(Printed(v, x, y, z, ""), Printed(w, p, q, r, "")) <==>
      x < p || (x == p && (y < q || (y == q && z < r)))
  {
    hide Parsed, Printed;
    PrintedParses(v, x, y, z, "");
    PrintedParses(w, p, q, r, "");
  }

  /** Two printed pre-releases: one is less by its numbers or by its metadata, and either is enough. */
  lemma PreReleasesCompare(v: string, x: nat, y: nat, z: nat, m: string, w: string, p: nat, q: nat, r: nat, n: string)
    requires OptionalV(v) && OptionalV(w)
    requires InRange(x, y, z) && InRange(p, q, r)
    requires m != "" && !StartsWithDigit(m) && '\n' !in m
    requires n != "" && !StartsWithDigit(n) && '\n' !in n
    ensures Less(Printed(v, x, y, z, m), Printed(w, p, q, r, n)) <==>
      || x < p || (x == p && (y < q || (y == q && z < r)))
      || WordsLess(Words(m), Words(n))
  {
    hide Parsed, Printed, Words, WordsLess;
    PrintedParses(v, x, y, z, m);
    PrintedParses(w, p, q, r, n);
  }

  /** A pre-release is below every release, whatever the numbers. */
  lemma PreReleaseIsBelowRelease(v: string, x: nat, y: nat, z: nat, m: string, w: string, p: nat, q: nat, r: nat)
    requires OptionalV(v) && OptionalV(w)
    requires InRange(x, y, z) && InRange(p, q, r)
    requires m != "" && !StartsWithDigit(m) && '\n' !in m
    ensures var a, b := Printed(v, x, y, z, m), Printed(w, p, q, r, "");
      Less(a, b) && !Less(b, a)
  {
    hide Parsed, Printed;
    PrintedParses(v, x, y, z, m);
    PrintedParses(w, p, q, r, "");
  }

  /** Numbered candidates of one release are ordered by their number. */
  lemma NumberedPreReleases(v: string, x: nat, y: nat, z: nat, t: string, n: nat, m: nat)
    requires OptionalV(v) && InRange(x, y, z)
    requires t != "" && !IsDigit(t[0]) && !IsDigit(t[|t| - 1]) && '\n' !in t
    requires n <= 9223372036854775807 && m <= 9223372036854775807
    ensures Less(Printed(v, x, y, z, t + PrintNat(n)), Printed(v, x, y, z, t + PrintNat(m))) <==> n < m
  {
    hide Less, Printed, PrintNat, Words, WordsLess;
    DigitsLackNewline(PrintNat(n));
    DigitsLackNewline(PrintNat(m));
    PreReleasesCompare(v, x, y, z, t + PrintNat(n), v, x, y, z, t + PrintNat(m));
    PrintedNumbersDecide(t, n, m);
  }

  /** Numbers and candidates as they are read, where the order of strings says the opposite. */
  lemma TenIsAfterNine()
    ensures Less("1.2.9", "1.10.0") && !Less("1.10.0", "1.2.9")
    ensures Less("v1.32.9", "v1.33.0") && !Less("v1.33.0", "v1.32.9")
    ensures Less("1.0.0-rc.9", "1.0.0-rc.10") && !Less("1.0.0-rc.10", "1.0.0-rc.9")
  {
    hide Less;
    SmallNumbers();
    assert Printed("", 1, 2, 9, "") == "1.2.9" && Printed("", 1, 10, 0, "") == "1.10.0";
    assert Printed("v", 1, 32, 9, "") == "v1.32.9" && Printed("v", 1, 33, 0, "") == "v1.33.0";
    assert Printed("", 1, 0, 0, "-rc." + PrintNat(9)) == "1.0.0-rc.9";
    assert Printed("", 1, 0, 0, "-rc." + PrintNat(10)) == "1.0.0-rc.10";
    hide PrintNat, Printed;
    ReleasesCompare("", 1, 2, 9, "", 1, 10, 0);
    ReleasesCompare("", 1, 10, 0, "", 1, 2, 9);
    ReleasesCompare("v", 1, 32, 9, "v", 1, 33, 0);
    ReleasesCompare("v", 1, 33, 0, "v", 1, 32, 9);
    NumberedPreReleases("", 1, 0, 0, "-rc.", 9, 10);
    NumberedPreReleases("", 1, 0, 0, "-rc.", 10, 9);
  }

  lemma SmallNumbers()
    ensures PrintNat(0) == "0" && PrintNat(1) == "1" && PrintNat(2) == "2" && PrintNat(9) == "9"
    ensures PrintNat(10) == "10" && PrintNat(32) == "32" && PrintNat(33) == "33"
  {
  }

  /** Numbers and pre-release texts that agree: 1.0.0-alpha is less than 2.0.0-beta and not the other way round. */
  lemma AlphaIsBeforeBeta()
    ensures Less("1.0.0-alpha", "2.0.0-beta") && !Less("2.0.0-beta", "1.0.0-alpha")
  {
    hide Less, Words, WordsLess;
    SmallNumbers();
    assert Printed("", 1, 0, 0, "-alpha") == "1.0.0-alpha" && Printed("", 2, 0, 0, "-beta") == "2.0.0-beta";
    hide PrintNat, Printed;
    PreReleasesCompare("", 1, 0, 0, "-alpha", "", 2, 0, 0, "-beta");
    PreReleasesCompare("", 2, 0, 0, "-beta", "", 1, 0, 0, "-alpha");
    assert StringLess("-alpha"[1..], "-beta"[1..]);
    TextMetadataLess("-alpha", "-beta");
    MetadataOrderIsStrictPartial("-alpha", "-beta", "-alpha");
  }
}
