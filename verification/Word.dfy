/**
 Metadata words: the tokenizer that cuts metadata into alternating number and
 text words, and the order on word lists.
 */
module MetadataWords {
  import opened Text

  /** The two implementations of the word interface. */
  datatype Word = StringWord(text: string) | IntWord(text: string)

  function NewWord(text: string, isInt: bool): Word {
    if isInt then IntWord(text) else StringWord(text)
  }

  /** strconv.ParseInt with its error dropped: zero on anything but digits. */
  function IntValue(text: string): int {
    if AllDigits(text) then Saturated(text) else 0
  }

  /** word.lessThan: a text word is less than any number, a number is not less than any text. */
  predicate WordLess(a: Word, b: Word) {
    match (a, b)
    case (StringWord(s), StringWord(t)) => StringLess(s, t)
    case (StringWord(_), IntWord(_)) => true
    case (IntWord(_), StringWord(_)) => false
    case (IntWord(i), IntWord(j)) => IntValue(i) < IntValue(j)
  }

  /** word.equal: words of different kinds always count as equal. */
  predicate WordEqual(a: Word, b: Word) {
    a.IntWord? == b.IntWord? ==> a.text == b.text
  }

  /** Compares at the first unequal word; a list that runs out first is not the lesser one. */
  predicate WordsLess(a: seq<Word>, b: seq<Word>) {
    if a == [] then false
    else if b == [] then true
    else if WordEqual(a[0], b[0]) then WordsLess(a[1..], b[1..])
    else WordLess(a[0], b[0])
  }

  // ---------- the tokenizer's result ----------

  datatype Cut = Cut(head: string, tail: string)

  predicate AllOfKind(isInt: bool, s: string) {
    forall i :: 0 <= i < |s| ==> IsDigit(s[i]) == isInt
  }

  /** The longest prefix of s of one kind, and what follows it. */
  function CutKind(isInt: bool, s: string): (c: Cut)
    ensures s == c.head + c.tail
    ensures AllOfKind(isInt, c.head)
    ensures c.tail != "" ==> IsDigit(c.tail[0]) != isInt
    ensures c.head != "" <==> s != "" && IsDigit(s[0]) == isInt
  {
    if s == "" || IsDigit(s[0]) != isInt then Cut("", s)
    else
      var c := CutKind(isInt, s[1..]);
      Cut([s[0]] + c.head, c.tail)
  }

  /** The words of s: its maximal runs of digits and of non-digits. */
  function Words(s: string): (ws: seq<Word>)
    ensures ws == [] <==> s == ""
    ensures ws != [] ==> ws[0].IntWord? == IsDigit(s[0])
    decreases |s|
  {
    if s == "" then []
    else
      var c := CutKind(IsDigit(s[0]), s);
      [NewWord(c.head, IsDigit(s[0]))] + Words(c.tail)
  }

  function Joined(ws: seq<Word>): string {
    if ws == [] then "" else ws[0].text + Joined(ws[1..])
  }

  /** Non-empty and made of digits only, or of non-digits only. */
  predicate Homogeneous(w: Word) {
    w.text != "" && AllOfKind(w.IntWord?, w.text)
  }

  predicate Alternating(ws: seq<Word>) {
    forall i :: 0 <= i < |ws| - 1 ==> ws[i].IntWord? != ws[i + 1].IntWord?
  }

  predicate IsTokenization(ws: seq<Word>, s: string) {
    && Joined(ws) == s
    && (forall i :: 0 <= i < |ws| ==> Homogeneous(ws[i]))
    && Alternating(ws)
  }

  /** Words is the one list of non-empty, one-kind, alternating words whose concatenation is s. */
  lemma WordsIsTheTokenization(s: string, ws: seq<Word>)
    ensures IsTokenization(Words(s), s)
    ensures IsTokenization(ws, s) ==> ws == Words(s)
  {
    WordsTokenize(s);
    if IsTokenization(ws, s) { TokenizationIsWords(s, ws); }
  }

  lemma {:induction false} WordsTokenize(s: string)
    ensures IsTokenization(Words(s), s)
    decreases |s|
  {
    if s != "" {
      var c := CutKind(IsDigit(s[0]), s);
      WordsTokenize(c.tail);
      assert Words(s)[1..] == Words(c.tail);
    }
  }

  /** A one-kind prefix that cannot be extended is the one CutKind takes. */
  lemma {:induction false} CutKindIs(isInt: bool, head: string, tail: string)
    requires AllOfKind(isInt, head)
    requires tail != "" ==> IsDigit(tail[0]) != isInt
    ensures CutKind(isInt, head + tail) == Cut(head, tail)
  {
    if head != "" {
      assert (head + tail)[1..] == head[1..] + tail;
      CutKindIs(isInt, head[1..], tail);
    } else {
      assert head + tail == tail;
    }
  }

  /** The recursion of Words, read from a known first word. */
  lemma WordsOfCons(w: Word, tail: string)
    requires Homogeneous(w)
    requires tail != "" ==> IsDigit(tail[0]) != w.IntWord?
    ensures Words(w.text + tail) == [w] + Words(tail)
  {
    assert (w.text + tail)[0] == w.text[0];
    CutKindIs(w.IntWord?, w.text, tail);
  }

  lemma {:induction false} TokenizationIsWords(s: string, ws: seq<Word>)
    requires IsTokenization(ws, s)
    ensures ws == Words(s)
    decreases |ws|
  {
    if ws != [] {
      var tail := Joined(ws[1..]);
      TokenizationIsWords(tail, ws[1..]);
      assert |ws| > 1 ==> ws[1..][0] == ws[1];
      WordsOfCons(ws[0], tail);
      assert ws == [ws[0]] + ws[1..];
    }
  }

  /** Adding one character extends the last word when the kinds agree and starts a new word when not. */
  function WordsPlus(ws: seq<Word>, c: char): seq<Word>
    requires ws != []
  {
    var last := ws[|ws| - 1];
    if last.IntWord? == IsDigit(c) then ws[..|ws| - 1] + [NewWord(last.text + [c], last.IntWord?)]
    else ws + [NewWord([c], IsDigit(c))]
  }

  lemma WordsOfOne(w: Word)
    requires Homogeneous(w)
    ensures Words(w.text) == [w]
  {
    assert w.text + "" == w.text;
    WordsOfCons(w, "");
  }

  lemma WordsOfChar(c: char)
    ensures Words([c]) == [NewWord([c], IsDigit(c))]
  {
    WordsOfOne(NewWord([c], IsDigit(c)));
  }

  lemma WordsOfOneSnoc(w: Word, c: char)
    requires Homogeneous(w)
    ensures Words(w.text + [c]) == WordsPlus([w], c)
  {
    if w.IntWord? == IsDigit(c) {
      WordsOfOne(NewWord(w.text + [c], IsDigit(c)));
      assert [w][..0] == [];
    } else {
      WordsOfCons(w, [c]);
      WordsOfChar(c);
    }
  }

  lemma {:induction false} WordsOfSnoc(s: string, c: char)
    requires s != ""
    ensures Words(s + [c]) == WordsPlus(Words(s), c)
    decreases |s|
  {
    var cut := CutKind(IsDigit(s[0]), s);
    var w := NewWord(cut.head, IsDigit(s[0]));
    if cut.tail == "" {
      assert s == cut.head;
      WordsOfOne(w);
      WordsOfOneSnoc(w, c);
    } else {
      assert s + [c] == w.text + (cut.tail + [c]);
      WordsOfCons(w, cut.tail);
      WordsOfCons(w, cut.tail + [c]);
      WordsOfSnoc(cut.tail, c);
      PlusAfterCons(w, Words(cut.tail), c);
    }
  }

  lemma PlusAfterCons(w: Word, ws: seq<Word>, c: char)
    requires ws != []
    ensures WordsPlus([w] + ws, c) == [w] + WordsPlus(ws, c)
  {
  }

  // ---------- the tokenizer ----------

  /** A heap word, grown in place by addRune. */
  class WordCell {
    const isInt: bool
    var text: string

    constructor (r: char)
      ensures isInt == IsDigit(r) && text == [r]
    {
      isInt := IsDigit(r);
      text := [r];
    }

    function Value(): Word
      reads this
    {
      NewWord(text, isInt)
    }

    method AddRune(r: char)
      modifies this
      ensures text == old(text) + [r]
    {
      text := text + [r];
    }
  }

  /** The cells hold exactly the words ws. */
  ghost predicate Holds(cells: seq<WordCell>, ws: seq<Word>)
    reads cells
  {
    |cells| == |ws| && forall i :: 0 <= i < |cells| ==> cells[i].Value() == ws[i]
  }

  predicate Distinct(cells: seq<WordCell>) {
    forall j, k :: 0 <= j < k < |cells| ==> cells[j] != cells[k]
  }

  /** The loop body of parseStringToWords. */
  method AddToWords(words: seq<WordCell>, s: char, ghost ws: seq<Word>) returns (grown: seq<WordCell>)
    requires words != [] && Distinct(words) && Holds(words, ws)
    modifies words[|words| - 1]
    ensures grown != [] && Distinct(grown)
    ensures forall w :: w in grown ==> w in words || fresh(w)
    ensures Holds(grown, WordsPlus(ws, s))
  {
    var last := words[|words| - 1];
    if last.isInt == IsDigit(s) {
      last.AddRune(s);
      grown := words;
    } else {
      var word := new WordCell(s);
      grown := words + [word];
    }
  }

  /** parseStringToWords: grows the last word in place, or appends a new one when the kind changes. */
  method ParseStringToWords(ss: string) returns (words: seq<WordCell>)
    ensures forall w :: w in words ==> fresh(w)
    ensures Holds(words, Words(ss))
  {
    hide Words, WordsPlus;
    if |ss| == 0 {
      return [];
    }
    var first := new WordCell(ss[0]);
    words := [first];
    WordsOfChar(ss[0]);
    ghost var parsed := [ss[0]];
    assert Holds(words, Words(parsed));
    if |ss| == 1 {
      assert ss == parsed;
      return;
    }
    for i := 1 to |ss|
      invariant words != [] && Distinct(words)
      invariant forall w :: w in words ==> fresh(w)
      invariant parsed == ss[..i]
      invariant Holds(words, Words(parsed))
    {
      WordsOfSnoc(parsed, ss[i]);
      assert words[|words| - 1] in words;
      words := AddToWords(words, ss[i], Words(parsed));
      parsed := parsed + [ss[i]];
    }
    assert parsed == ss;
  }

  lemma WordsLessFrom(a: seq<Word>, b: seq<Word>, i: nat)
    requires i < |a| && i < |b|
    ensures WordsLess(a[i..], b[i..]) ==
      if WordEqual(a[i], b[i]) then WordsLess(a[i + 1..], b[i + 1..]) else WordLess(a[i], b[i])
  {
    assert a[i..][1..] == a[i + 1..] && b[i..][1..] == b[i + 1..];
  }

  /** comparePreReleaseMetadata: walks both word lists by index up to the longer length. */
  method ComparePreReleaseMetadata(metadata: string, otherMetadata: string) returns (less: bool)
    ensures less == WordsLess(Words(metadata), Words(otherMetadata))
  {
    var sWords := ParseStringToWords(metadata);
    var otherWords := ParseStringToWords(otherMetadata);
    ghost var a, b := Words(metadata), Words(otherMetadata);
    var l := |sWords|;
    if |otherWords| > l {
      l := |otherWords|;
    }
    for i := 0 to l
      invariant i <= |a| && i <= |b|
      invariant WordsLess(a, b) == WordsLess(a[i..], b[i..])
      invariant Holds(sWords, a) && Holds(otherWords, b)
    {
      if i > |sWords| - 1 {
        return false;
      }
      if i > |otherWords| - 1 {
        return true;
      }
      WordsLessFrom(a, b, i);
      if WordEqual(sWords[i].Value(), otherWords[i].Value()) {
        continue;
      }
      return WordLess(sWords[i].Value(), otherWords[i].Value());
    }
    return false;
  }

  // ---------- what numbers in metadata are worth ----------

  /** The first word of a string, and the rest. */
  lemma FirstWord(s: string) returns (w: Word, tail: string)
    requires s != ""
    ensures s == w.text + tail && Homogeneous(w) && |tail| < |s|
    ensures tail != "" ==> IsDigit(tail[0]) != w.IntWord?
    ensures Words(s) == [w] + Words(tail)
  {
    var cut := CutKind(IsDigit(s[0]), s);
    w, tail := NewWord(cut.head, IsDigit(s[0])), cut.tail;
  }

  /** Cutting where the kind changes cuts the words. */
  lemma {:induction false} WordsOfConcat(a: string, b: string)
    requires a != "" && (b != "" ==> IsDigit(b[0]) != IsDigit(a[|a| - 1]))
    ensures Words(a + b) == Words(a) + Words(b)
    decreases |a|
  {
    hide Words;
    var w, tail := FirstWord(a);
    if tail == "" {
      assert a == w.text && Words("") == [] by { WordsOfNothing(); }
      WordsOfCons(w, b);
    } else {
      assert a + b == w.text + (tail + b);
      assert a[|a| - 1] == tail[|tail| - 1];
      WordsOfConcat(tail, b);
      WordsOfCons(w, tail + b);
    }
  }

  lemma WordsOfNothing()
    ensures Words("") == []
  {
  }

  lemma {:induction false} CommonPrefix(p: seq<Word>, a: seq<Word>, b: seq<Word>)
    ensures WordsLess(p + a, p + b) == WordsLess(a, b)
  {
    if p == [] {
      assert p + a == a && p + b == b;
    } else {
      assert (p + a)[1..] == p[1..] + a && (p + b)[1..] == p[1..] + b;
      CommonPrefix(p[1..], a, b);
    }
  }

  /**
   After the same metadata text, the lesser of two numbers spelled differently makes the lesser metadata, whatever
   follows; numbers from the largest int64 on count as equal.
   */
  lemma NumbersDecide(t: string, d: string, e: string, r: string, q: string)
    requires t != "" && !IsDigit(t[|t| - 1])
    requires d != "" && AllDigits(d) && e != "" && AllDigits(e) && d != e
    requires (r != "" ==> !IsDigit(r[0])) && (q != "" ==> !IsDigit(q[0]))
    ensures WordsLess(Words(t + (d + r)), Words(t + (e + q))) <==>
      DecimalValue(d) < DecimalValue(e) && DecimalValue(d) < 9223372036854775807
  {
    hide Words, WordsLess, DecimalValue, AllDigits;
    NumberFirst(t, d, r);
    NumberFirst(t, e, q);
    CommonPrefix(Words(t), [IntWord(d)] + Words(r), [IntWord(e)] + Words(q));
    NumberWordsDecide(d, e, Words(r), Words(q));
  }

  lemma NumberFirst(t: string, d: string, r: string)
    requires t != "" && !IsDigit(t[|t| - 1])
    requires d != "" && AllDigits(d) && (r != "" ==> !IsDigit(r[0]))
    ensures Words(t + (d + r)) == Words(t) + ([IntWord(d)] + Words(r))
  {
    hide Words;
    assert (d + r)[0] == d[0];
    WordsOfConcat(t, d + r);
    WordsOfCons(IntWord(d), r);
  }

  lemma NumberWordsDecide(d: string, e: string, a: seq<Word>, b: seq<Word>)
    requires AllDigits(d) && AllDigits(e) && d != e
    ensures WordsLess([IntWord(d)] + a, [IntWord(e)] + b) <==>
      DecimalValue(d) < DecimalValue(e) && DecimalValue(d) < 9223372036854775807
  {
  }

  lemma PrintedAlike(n: nat, m: nat)
    ensures PrintNat(n) == PrintNat(m) <==> n == m
  {
    PrintNatRoundTrip(n);
    PrintNatRoundTrip(m);
  }

  /** After the same metadata text, printed numbers are ordered as numbers, up to the largest int64. */
  lemma PrintedNumbersDecide(t: string, n: nat, m: nat)
    requires t != "" && !IsDigit(t[|t| - 1])
    ensures WordsLess(Words(t + PrintNat(n)), Words(t + PrintNat(m))) <==> n < m && n < 9223372036854775807
  {
    hide WordsLess, Words, PrintNat;
    PrintedAlike(n, m);
    if n == m {
      WordsLessIrreflexive(Words(t + PrintNat(n)));
    } else {
      PrintNatRoundTrip(n);
      PrintNatRoundTrip(m);
      assert PrintNat(n) + "" == PrintNat(n) && PrintNat(m) + "" == PrintNat(m);
      NumbersDecide(t, PrintNat(n), PrintNat(m), "", "");
    }
  }

  // ---------- the order on metadata ----------

  /** The two lists have words of the same kind at every shared index. */
  predicate SameKinds(a: seq<Word>, b: seq<Word>) {
    forall i :: 0 <= i < |a| && i < |b| ==> a[i].IntWord? == b[i].IntWord?
  }

  lemma {:induction false} KindByParity(ws: seq<Word>, i: nat)
    requires Alternating(ws) && i < |ws|
    ensures ws[i].IntWord? == (ws[0].IntWord? == (i % 2 == 0))
  {
    if i > 0 { KindByParity(ws, i - 1); }
  }

  /** Two metadata strings that do not start with a digit never put a number opposite a text word. */
  lemma MetadataKindsAgree(m: string, n: string)
    requires m != "" ==> !IsDigit(m[0])
    requires n != "" ==> !IsDigit(n[0])
    ensures SameKinds(Words(m), Words(n))
  {
    WordsTokenize(m);
    WordsTokenize(n);
    forall i | 0 <= i < |Words(m)| && i < |Words(n)|
      ensures Words(m)[i].IntWord? == Words(n)[i].IntWord?
    {
      KindByParity(Words(m), i);
      KindByParity(Words(n), i);
    }
  }

  lemma DifferShift(w: Word, a: seq<Word>, b: seq<Word>, i: nat)
    ensures DifferAt([w] + a, [w] + b, i + 1) <==> DifferAt(a, b, i)
  {
    if i < |a| && i < |b| {
      assert ([w] + a)[..i + 1] == [w] + a[..i] && ([w] + b)[..i + 1] == [w] + b[..i];
      assert ([w] + a[..i])[1..] == a[..i] && ([w] + b[..i])[1..] == b[..i];
    }
  }

  /** Where kinds agree, a list is less exactly when it extends the other, or is less at their first difference. */
  lemma {:induction false} WordsLessIff(a: seq<Word>, b: seq<Word>)
    requires SameKinds(a, b)
    ensures WordsLess(a, b) <==>
      || (|b| < |a| && a[..|b|] == b)
      || exists i: nat :: DifferAt(a, b, i) && WordLess(a[i], b[i])
  {
    hide WordLess;
    if a != [] && b != [] {
      if a[0] == b[0] {
        WordsLessIff(a[1..], b[1..]);
        assert a == [a[0]] + a[1..] && b == [b[0]] + b[1..];
        assert |b| < |a| ==> a[..|b|] == [a[0]] + a[1..][..|b| - 1];
        if i: nat :| DifferAt(a[1..], b[1..], i) && WordLess(a[1..][i], b[1..][i]) {
          DifferShift(a[0], a[1..], b[1..], i);
        }
        if i: nat :| DifferAt(a, b, i) && WordLess(a[i], b[i]) {
          assert i > 0;
          DifferShift(a[0], a[1..], b[1..], i - 1);
        }
      } else {
        assert a[..0] == b[..0];
        assert DifferAt(a, b, 0);
        forall i: nat | DifferAt(a, b, i) ensures i == 0 {
          if i > 0 { SameFirst(a, b, i); }
        }
        assert |b| < |a| ==> a[..|b|][0] == a[0];
      }
    }
  }

  lemma {:induction false} WordsLessIrreflexive(a: seq<Word>)
    ensures !WordsLess(a, a)
  {
    if a != [] { WordsLessIrreflexive(a[1..]); }
  }

  lemma WordLessTransitive(a: Word, b: Word, c: Word)
    requires a.IntWord? == b.IntWord? == c.IntWord?
    requires WordLess(a, b) && WordLess(b, c)
    ensures WordLess(a, c) && !WordEqual(a, c)
  {
    if a.StringWord? {
      StringLessTransitive(a.text, b.text, c.text);
      StringLessIrreflexive(a.text);
    }
  }

  lemma {:induction false} WordsLessTransitive(a: seq<Word>, b: seq<Word>, c: seq<Word>)
    requires SameKinds(a, b) && SameKinds(b, c) && SameKinds(a, c)
    requires WordsLess(a, b) && WordsLess(b, c)
    ensures WordsLess(a, c)
  {
    if b != [] && c != [] {
      var ab, bc := WordEqual(a[0], b[0]), WordEqual(b[0], c[0]);
      if ab && bc {
        WordsLessTransitive(a[1..], b[1..], c[1..]);
      } else if !ab && !bc {
        WordLessTransitive(a[0], b[0], c[0]);
      }
    }
  }

  /** On metadata a registry can list, comparePreReleaseMetadata is a strict partial order. */
  lemma MetadataOrderIsStrictPartial(m: string, n: string, p: string)
    requires m != "" ==> !IsDigit(m[0])
    requires n != "" ==> !IsDigit(n[0])
    requires p != "" ==> !IsDigit(p[0])
    ensures !WordsLess(Words(m), Words(m))
    ensures !(WordsLess(Words(m), Words(n)) && WordsLess(Words(n), Words(m)))
    ensures WordsLess(Words(m), Words(n)) && WordsLess(Words(n), Words(p)) ==> WordsLess(Words(m), Words(p))
  {
    MetadataKindsAgree(m, n);
    MetadataKindsAgree(n, p);
    MetadataKindsAgree(m, p);
    WordsLessIrreflexive(Words(m));
    if WordsLess(Words(m), Words(n)) && WordsLess(Words(n), Words(m)) {
      WordsLessTransitive(Words(m), Words(n), Words(m));
    }
    if WordsLess(Words(m), Words(n)) && WordsLess(Words(n), Words(p)) {
      WordsLessTransitive(Words(m), Words(n), Words(p));
    }
  }

  /** The lists first differ at i, in two numbers of the same value spelled differently. */
  predicate SameValueAt(a: seq<Word>, b: seq<Word>, i: nat) {
    && i < |a| && i < |b| && a[..i] == b[..i]
    && a[i].IntWord? && b[i].IntWord? && a[i].text != b[i].text && IntValue(a[i].text) == IntValue(b[i].text)
  }

  lemma SameValueShift(w: Word, a: seq<Word>, b: seq<Word>, i: nat)
    ensures SameValueAt([w] + a, [w] + b, i + 1) <==> SameValueAt(a, b, i)
  {
    if i < |a| && i < |b| {
      assert ([w] + a)[..i + 1] == [w] + a[..i] && ([w] + b)[..i + 1] == [w] + b[..i];
      assert ([w] + a[..i])[1..] == a[..i] && ([w] + b[..i])[1..] == b[..i];
    }
  }

  lemma WordTied(a: Word, b: Word)
    requires a.IntWord? == b.IntWord?
    ensures !WordLess(a, b) && !WordLess(b, a) <==>
      a == b || (a.IntWord? && IntValue(a.text) == IntValue(b.text))
  {
    if a.StringWord? {
      StringLessTotal(a.text, b.text);
      StringLessIrreflexive(a.text);
    }
  }

  /** Word lists of agreeing kinds are tied exactly when equal, or first different in one number's spelling. */
  lemma {:induction false} WordsTiedIff(a: seq<Word>, b: seq<Word>)
    requires SameKinds(a, b)
    ensures !WordsLess(a, b) && !WordsLess(b, a) <==> a == b || exists i: nat :: SameValueAt(a, b, i)
  {
    hide IntValue, StringLess;
    if a != [] && b != [] {
      if a[0] == b[0] {
        WordsTiedIff(a[1..], b[1..]);
        assert a == [a[0]] + a[1..] && b == [b[0]] + b[1..];
        if i: nat :| SameValueAt(a[1..], b[1..], i) {
          SameValueShift(a[0], a[1..], b[1..], i);
        }
        if i: nat :| SameValueAt(a, b, i) {
          assert i > 0;
          SameValueShift(a[0], a[1..], b[1..], i - 1);
        }
      } else {
        WordTied(a[0], b[0]);
        assert a[..0] == b[..0];
        assert SameValueAt(a, b, 0) <==> a[0].IntWord? && IntValue(a[0].text) == IntValue(b[0].text);
        forall i: nat | SameValueAt(a, b, i) ensures i == 0 {
          if i > 0 { SameFirst(a, b, i); }
        }
      }
    }
  }

  /**
   Two metadata strings are tied exactly when they are equal, or first differ in how one number is
   spelled: leading zeros, or two numbers beyond the largest int64.
   */
  lemma MetadataTiedIff(m: string, n: string)
    requires m != "" ==> !IsDigit(m[0])
    requires n != "" ==> !IsDigit(n[0])
    ensures !WordsLess(Words(m), Words(n)) && !WordsLess(Words(n), Words(m)) <==>
      m == n || exists i: nat :: SameValueAt(Words(m), Words(n), i)
  {
    MetadataKindsAgree(m, n);
    WordsTiedIff(Words(m), Words(n));
    WordsTokenize(m);
    WordsTokenize(n);
  }
}
