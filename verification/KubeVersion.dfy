/** The cluster version check: normalising two versions to plain numbers and comparing them. */
module KubeVersion {
  import opened Wrappers
  import opened Text
  import opened SemVerScan
  import opened VersionOrder
  import opened PrintedTags

  lemma NumbersInRange(tag: string)
    ensures var n := Parsed(tag).version;
      0 <= n[0] <= MAX_INT64 && 0 <= n[1] <= MAX_INT64 && 0 <= n[2] <= MAX_INT64
  {
    if Scan(tag).Some? { assert Parsed(tag).version == GroupNumbers(Scan(tag).value); }
  }

  /** fmt.Sprintf("%d.%d.%d", major, minor, patch). */
  function PrintNumbers(n: Numbers): string
    requires n[0] >= 0 && n[1] >= 0 && n[2] >= 0
  {
    Printed("", n[0], n[1], n[2], "")
  }

  /** The tag reprinted without prefix or metadata. */
  function Normalised(tag: string): string {
    NumbersInRange(tag);
    PrintNumbers(Parsed(tag).version)
  }

  /** Printing three numbers in range and parsing them back gives the same numbers and no metadata. */
  lemma PrintedParsesBack(n: Numbers)
    requires 0 <= n[0] <= MAX_INT64 && 0 <= n[1] <= MAX_INT64 && 0 <= n[2] <= MAX_INT64
    ensures Parsed(PrintNumbers(n)).metadata == "" && Parsed(PrintNumbers(n)).version == n
  {
    hide Parsed, Printed;
    PrintedParses("", n[0], n[1], n[2], "");
    assert n == [n[0], n[1], n[2]];
  }

  /**
   The round trip, for every input whatever: the normalised tag has the same (saturated) numbers
   and no metadata, and normalising it again changes nothing.
   */
  lemma NormalisedRoundTrip(tag: string)
    ensures Parsed(Normalised(tag)).version == Parsed(tag).version
    ensures MetadataFree(Normalised(tag))
    ensures Normalised(Normalised(tag)) == Normalised(tag)
  {
    NumbersInRange(tag);
    PrintedParsesBack(Parsed(tag).version);
  }

  /** The comparing part of reconcile: what it hands to RegisterKubeVersion. */
  method Reconcile(latest: string, gitVersion: string)
    returns (isLatest: bool, currentNoMeta: string, latestNoMeta: string)
    ensures currentNoMeta == Normalised(gitVersion) && latestNoMeta == Normalised(latest)
    ensures var c, l := Parsed(gitVersion).version, Parsed(latest).version;
      isLatest <==> c[0] > l[0] || (c[0] == l[0] && (c[1] > l[1] || (c[1] == l[1] && c[2] >= l[2])))
  {
    latestNoMeta := NoMeta(latest);
    currentNoMeta := NoMeta(gitVersion);
    var currentComparable: ParsedVersion := Parse(currentNoMeta);
    var latestComparable: ParsedVersion := Parse(latestNoMeta);
    var less := SemVerLessThan(currentComparable, latestComparable);
    isLatest := !less;
    FlagIsExact(gitVersion, latest);
  }

  /** A version string without metadata for comparison. */
  method NoMeta(version: string) returns (s: string)
    ensures s == Normalised(version)
  {
    var semVer := Parse(version);
    NumbersInRange(version);
    s := PrintNumbers([semVer.Major(), semVer.Minor(), semVer.Patch()]);
  }

  /** The registered flag: the major decides, then the minor, then the patch, and equal versions are the latest. */
  lemma FlagIsExact(current: string, latest: string)
    ensures var c, l := Parsed(current).version, Parsed(latest).version;
      !Less(Normalised(current), Normalised(latest)) <==>
        c[0] > l[0] || (c[0] == l[0] && (c[1] > l[1] || (c[1] == l[1] && c[2] >= l[2])))
  {
    hide Parsed, Normalised;
    NormalisedRoundTrip(current);
    NormalisedRoundTrip(latest);
    MetadataFreeLess(Normalised(current), Normalised(latest));
    PrintedIsNotEmpty(current);
    PrintedIsNotEmpty(latest);
  }

  lemma PrintedIsNotEmpty(tag: string)
    ensures Normalised(tag) != ""
  {
    hide Parsed;
    NumbersInRange(tag);
  }

  /** The v and whatever follows the third number go, and the three numbers stay. */
  lemma NormalisedText(v: string, x: nat, y: nat, z: nat, m: string)
    requires OptionalV(v) && InRange(x, y, z)
    requires !StartsWithDigit(m) && '\n' !in m
    ensures Normalised(Printed(v, x, y, z, m)) == Printed("", x, y, z, "")
  {
    hide Parsed, Printed;
    PrintedParses(v, x, y, z, m);
  }

  /** A build suffix does not matter, an absent number is zero, and 1.32.9 is behind 1.33. */
  lemma BuildSuffixesGo()
    ensures Normalised("v1.32.9-gke.100") == "1.32.9" && Normalised("v1.33") == "1.33.0"
    ensures Less(Normalised("v1.32.9-gke.100"), Normalised("v1.33"))
  {
    SmallNumbers();
    assert Printed("v", 1, 32, 9, "-gke.100") == "v1.32.9-gke.100" && Printed("", 1, 32, 9, "") == "1.32.9";
    assert Printed("", 1, 33, 0, "") == "1.33.0";
    assert "v" + "1" + "." + "33" + "" == "v1.33";
    hide *;
    NormalisedText("v", 1, 32, 9, "-gke.100");
    TwoNumbersParse("v", "1", "33", "");
    PrintNatRoundTrip(1);
    PrintNatRoundTrip(33);
    NormalisedRoundTrip("v1.33");
    ReleasesCompare("", 1, 32, 9, "", 1, 33, 0);
  }
}
