/** ASCII string facts: digit runs, saturating decimals, byte order and index searches. */
module Text {
  import opened Wrappers

  const MAX_INT64: int := 0x7FFF_FFFF_FFFF_FFFF

  // ---------- digits ----------

  predicate IsDigit(c: char) {
    '0' <= c <= '9'
  }

  predicate AllDigits(s: string) {
    forall i :: 0 <= i < |s| ==> IsDigit(s[i])
  }

  // ---------- decimals ----------

  function DigitValue(c: char): (v: nat)
    requires IsDigit(c)
    ensures v < 10
  {
    c as int - '0' as int
  }

  function DigitChar(v: nat): (c: char)
    requires v < 10
    ensures IsDigit(c) && DigitValue(c) == v
  {
    ('0' as int + v) as char
  }

  /** The unbounded value of a digit string. */
  function DecimalValue(s: string): nat
    requires AllDigits(s)
  {
    if s == "" then 0 else 10 * DecimalValue(s[..|s| - 1]) + DigitValue(s[|s| - 1])
  }

  /** strconv.ParseInt on a digit string with its error dropped: the value, capped at the largest int64. */
  function Saturated(s: string): (n: nat)
    requires AllDigits(s)
    ensures n <= MAX_INT64
  {
    if DecimalValue(s) <= MAX_INT64 then DecimalValue(s) else MAX_INT64
  }

  /** strconv.ParseInt(s, 10, 64) with its error kept. */
  function ParseInt64(s: string): (r: Option<int>)
    ensures r.Some? ==> -MAX_INT64 - 1 <= r.value <= MAX_INT64
  {
    var negative := s != "" && s[0] == '-';
    var digits := if s != "" && (s[0] == '-' || s[0] == '+') then s[1..] else s;
    if digits == "" || !AllDigits(digits) then None
    else
      var magnitude: int := DecimalValue(digits);
      var n := if negative then -magnitude else magnitude;
      if -MAX_INT64 - 1 <= n <= MAX_INT64 then Some(n) else None
  }

  /** fmt's %d on a non-negative number. */
  function PrintNat(n: nat): (s: string)
    ensures s != "" && AllDigits(s)
  {
    if n < 10 then [DigitChar(n)] else PrintNat(n / 10) + [DigitChar(n % 10)]
  }

  lemma {:induction false} PrintNatRoundTrip(n: nat)
    ensures DecimalValue(PrintNat(n)) == n
  {
    var s := PrintNat(n);
    if n >= 10 {
      PrintNatRoundTrip(n / 10);
      assert s[..|s| - 1] == PrintNat(n / 10);
    } else {
      assert s[..|s| - 1] == "";
    }
  }

  /** A printed number is parsed back as itself when it fits an int64, and is an error when it does not. */
  lemma PrintedIntParses(n: nat)
    ensures ParseInt64(PrintNat(n)) == if n <= MAX_INT64 then Some(n) else None
  {
    var s := PrintNat(n);
    assert IsDigit(s[0]);
    PrintNatRoundTrip(n);
  }

  // ---------- Go's string order ----------

  /** Byte-wise lexicographic order. */
  predicate StringLess(a: string, b: string) {
    if b == "" then false
    else if a == "" then true
    else if a[0] != b[0] then a[0] < b[0]
    else StringLess(a[1..], b[1..])
  }

  lemma {:induction false} StringLessIrreflexive(a: string)
    ensures !StringLess(a, a)
  {
    if a != "" { StringLessIrreflexive(a[1..]); }
  }

  lemma {:induction false} StringLessTransitive(a: string, b: string, c: string)
    requires StringLess(a, b) && StringLess(b, c)
    ensures StringLess(a, c)
  {
    if a != "" && a[0] == b[0] && b[0] == c[0] {
      StringLessTransitive(a[1..], b[1..], c[1..]);
    }
  }

  lemma {:induction false} StringLessTotal(a: string, b: string)
    ensures StringLess(a, b) || StringLess(b, a) || a == b
  {
    if a != "" && b != "" && a[0] == b[0] {
      StringLessTotal(a[1..], b[1..]);
      assert a == [a[0]] + a[1..] && b == [b[0]] + b[1..];
    }
  }

  /** The sequences agree before i and differ there. */
  predicate DifferAt<T(==)>(a: seq<T>, b: seq<T>, i: nat) {
    i < |a| && i < |b| && a[..i] == b[..i] && a[i] != b[i]
  }

  lemma SameFirst<T>(a: seq<T>, b: seq<T>, i: nat)
    requires 0 < i <= |a| && i <= |b| && a[..i] == b[..i]
    ensures a[0] == b[0]
  {
    assert a[..i][0] == b[..i][0];
  }

  /** Go's order: a is a proper prefix of b, or smaller at their first different byte. */
  lemma {:induction false} StringLessIff(a: string, b: string)
    ensures StringLess(a, b) <==>
      || (|a| < |b| && b[..|a|] == a)
      || exists i: nat :: DifferAt(a, b, i) && a[i] < b[i]
  {
    if a != "" && b != "" {
      if a[0] == b[0] {
        StringLessIff(a[1..], b[1..]);
        assert a == [a[0]] + a[1..] && b == [b[0]] + b[1..];
        assert |a| < |b| ==> b[..|a|] == [b[0]] + b[1..][..|a| - 1];
        if i: nat :| DifferAt(a[1..], b[1..], i) && a[1..][i] < b[1..][i] {
          assert a[..i + 1] == [a[0]] + a[1..][..i] && b[..i + 1] == [b[0]] + b[1..][..i];
          assert DifferAt(a, b, i + 1);
        }
        if i: nat :| DifferAt(a, b, i) && a[i] < b[i] {
          assert i > 0 && a[1..][..i - 1] == a[..i][1..] && b[1..][..i - 1] == b[..i][1..];
          assert DifferAt(a[1..], b[1..], i - 1);
        }
      } else {
        assert a[..0] == b[..0];
        assert DifferAt(a, b, 0);
        forall i: nat | DifferAt(a, b, i) ensures i == 0 {
          if i > 0 { SameFirst(a, b, i); }
        }
        assert |a| < |b| ==> b[..|a|][0] == b[0];
      }
    }
  }

  /** A proper prefix is less than the longer string. */
  lemma {:induction false} PrefixIsLess(a: string, suffix: string)
    requires suffix != ""
    ensures StringLess(a, a + suffix)
  {
    if a != "" {
      assert (a + suffix)[1..] == a[1..] + suffix;
      PrefixIsLess(a[1..], suffix);
    }
  }

  // ---------- what the numbers are worth ----------

  function PowerOfTen(n: nat): (p: nat)
    ensures p > 0
  {
    if n == 0 then 1 else 10 * PowerOfTen(n - 1)
  }

  lemma SplitLast(s: string)
    requires s != ""
    ensures s == s[..|s| - 1] + [s[|s| - 1]]
  {
  }

  /** The order of two strings that end in one character each. */
  lemma {:induction false} StringLessSnoc(a: string, c: char, b: string, d: char)
    requires |a| == |b|
    ensures StringLess(a + [c], b + [d]) <==> StringLess(a, b) || (a == b && c < d)
  {
    if a != "" {
      assert (a + [c])[1..] == a[1..] + [c] && (b + [d])[1..] == b[1..] + [d];
      StringLessSnoc(a[1..], c, b[1..], d);
      assert a == [a[0]] + a[1..] && b == [b[0]] + b[1..];
      assert (a + [c])[0] == a[0] && (b + [d])[0] == b[0];
    }
  }

  /**
   Digit strings of one length are worth less than that power of ten, and are ordered by value as they are as
   strings. The ten to the n strings of length n leave only one such assignment of values: the decimal one.
   */
  lemma {:induction false} DecimalIsPositional(s: string, t: string)
    requires AllDigits(s) && AllDigits(t) && |s| == |t|
    ensures DecimalValue(s) < PowerOfTen(|s|)
    ensures DecimalValue(s) < DecimalValue(t) <==> StringLess(s, t)
    ensures DecimalValue(s) == DecimalValue(t) <==> s == t
  {
    if s != "" {
      var a, b, c, d := s[..|s| - 1], t[..|t| - 1], s[|s| - 1], t[|t| - 1];
      DecimalIsPositional(a, b);
      SplitLast(s);
      SplitLast(t);
      StringLessSnoc(a, c, b, d);
    }
  }

  /** Leading zeros add nothing. */
  lemma {:induction false} LeadingZero(s: string)
    requires AllDigits(s)
    ensures DecimalValue("0" + s) == DecimalValue(s)
  {
    if s != "" {
      LeadingZero(s[..|s| - 1]);
      assert ("0" + s)[..|s|] == "0" + s[..|s| - 1];
    } else {
      assert "0" + s == "0" && "0"[..0] == "";
    }
  }

  /** The digits are the ten characters from 0 to 9. */
  lemma DigitsAre(c: char)
    ensures IsDigit(c) <==> c in "0123456789"
  {
    assert "0123456789"[0] == '0' && "0123456789"[1] == '1' && "0123456789"[2] == '2' && "0123456789"[3] == '3'
        && "0123456789"[4] == '4' && "0123456789"[5] == '5' && "0123456789"[6] == '6' && "0123456789"[7] == '7'
        && "0123456789"[8] == '8' && "0123456789"[9] == '9';
  }

  /** An int64 with a sign. */
  lemma SignedIntParses(n: nat)
    ensures ParseInt64("-" + PrintNat(n)) == if n <= 9223372036854775808 then Some(0 - n as int) else None
    ensures ParseInt64("+" + PrintNat(n)) == if n <= 9223372036854775807 then Some(n) else None
  {
    hide DecimalValue, PrintNat, AllDigits;
    PrintNatRoundTrip(n);
    var minus, plus := "-" + PrintNat(n), "+" + PrintNat(n);
    assert minus[0] == '-' && minus[1..] == PrintNat(n);
    assert plus[0] == '+' && plus[1..] == PrintNat(n);
  }

  /** What is not digits after at most one sign is no integer. */
  lemma OnlyDigitsParse(s: string)
    requires ParseInt64(s).Some?
    ensures exists sign, digits :: s == sign + digits && sign in ["", "-", "+"] && digits != "" && AllDigits(digits)
  {
    if s[0] == '-' || s[0] == '+' {
      assert s == [s[0]] + s[1..];
      assert [s[0]] in ["", "-", "+"];
    } else {
      assert s == "" + s;
    }
  }

  lemma HasSuffixIff(s: string, suffix: string)
    ensures HasSuffix(s, suffix) <==> exists p :: s == p + suffix
  {
    if HasSuffix(s, suffix) { assert s == s[..|s| - |suffix|] + suffix; }
  }

  // ---------- index searches ----------

  predicate Lacks(s: string, c: char) {
    forall i :: 0 <= i < |s| ==> s[i] != c
  }

  /** strings.Index for a one-character pattern; None stands for -1. */
  function IndexOf(s: string, c: char): (r: Option<nat>)
    ensures r.None? ==> Lacks(s, c)
    ensures r.Some? ==> r.value < |s| && s[r.value] == c && forall i :: 0 <= i < r.value ==> s[i] != c
  {
    if s == "" then None
    else if s[0] == c then Some(0)
    else match IndexOf(s[1..], c)
      case None => assert forall i :: 0 < i < |s| ==> s[i] == s[1..][i - 1]; None
      case Some(k) => assert forall i :: 0 < i < |s| ==> s[i] == s[1..][i - 1]; Some(k + 1)
  }

  /** strings.LastIndex for a one-character pattern; None stands for -1. */
  function LastIndexOf(s: string, c: char): (r: Option<nat>)
    ensures r.None? ==> Lacks(s, c)
    ensures r.Some? ==> r.value < |s| && s[r.value] == c && forall i :: r.value < i < |s| ==> s[i] != c
  {
    if s == "" then None
    else if s[|s| - 1] == c then Some(|s| - 1)
    else LastIndexOf(s[..|s| - 1], c)
  }

  predicate HasSuffix(s: string, suffix: string) {
    |suffix| <= |s| && s[|s| - |suffix|..] == suffix
  }
}
