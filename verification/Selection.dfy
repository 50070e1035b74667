/**
 The selection loop of latestSemver over an arbitrary filter and comparison: what it
 selects when the comparison is a strict weak order on the tags that pass the filter.
 */
module Selection {
  import opened Wrappers
  import opened Api

  type Filter = ImageTag -> bool
  type Order = (string, string) -> bool

  /** isBetterSemVer, once some tag is already held. */
  predicate Better(less: Order, latest: ImageTag, current: ImageTag) {
    less(latest.tag, current.tag) || (latest.tag == current.tag && current.timestamp > latest.timestamp)
  }

  /** The index held by the loop after its first n rounds. */
  function HeldAfter(pass: Filter, less: Order, tags: seq<ImageTag>, n: nat): (r: Option<nat>)
    requires n <= |tags|
    ensures r.Some? ==> r.value < n && pass(tags[r.value])
    ensures r.None? <==> forall i :: 0 <= i < n ==> !pass(tags[i])
  {
    if n == 0 then None
    else
      var held := HeldAfter(pass, less, tags, n - 1);
      if !pass(tags[n - 1]) then held
      else if held.None? || Better(less, tags[held.value], tags[n - 1]) then Some(n - 1)
      else held
  }

  /** Under any comparison: no candidate after the held one would replace it. */
  lemma {:induction false} NoLaterCandidateIsBetter(pass: Filter, less: Order, tags: seq<ImageTag>, n: nat)
    requires n <= |tags|
    ensures var held := HeldAfter(pass, less, tags, n); held.Some? ==>
      forall j :: held.value < j < n && pass(tags[j]) ==> !Better(less, tags[held.value], tags[j])
  {
    if n > 0 { NoLaterCandidateIsBetter(pass, less, tags, n - 1); }
  }

  /** rest is the list without its element at k. */
  predicate IsWithout(rest: seq<ImageTag>, tags: seq<ImageTag>, k: nat) {
    && k < |tags| == |rest| + 1
    && (forall i :: 0 <= i < k ==> rest[i] == tags[i])
    && (forall i :: k < i < |tags| ==> rest[i - 1] == tags[i])
  }

  /** Where the first n elements without the one at k sit in the list that has it. */
  function Shifted(held: Option<nat>, k: nat): Option<nat> {
    match held
    case None => None
    case Some(i) => Some(if i < k then i else i + 1)
  }

  lemma {:induction false} SamePrefixHeld(pass: Filter, less: Order, a: seq<ImageTag>, b: seq<ImageTag>, n: nat)
    requires n <= |a| && n <= |b| && forall i :: 0 <= i < n ==> a[i] == b[i]
    ensures HeldAfter(pass, less, a, n) == HeldAfter(pass, less, b, n)
  {
    if n > 0 { SamePrefixHeld(pass, less, a, b, n - 1); }
  }

  /** One round of the loop. */
  lemma HeldStep(pass: Filter, less: Order, tags: seq<ImageTag>, n: nat)
    requires 0 < n <= |tags|
    ensures var held, now := HeldAfter(pass, less, tags, n - 1), HeldAfter(pass, less, tags, n);
      && (!pass(tags[n - 1]) ==> now == held)
      && (pass(tags[n - 1]) ==>
            now == if held.None? || Better(less, tags[held.value], tags[n - 1]) then Some(n - 1) else held)
  {
  }

  /** A tag that does not pass the filter could as well be missing. */
  lemma {:induction false} SkippedIsAbsent(pass: Filter, less: Order, tags: seq<ImageTag>, rest: seq<ImageTag>,
                                           k: nat, n: nat)
    requires k < n <= |tags| && !pass(tags[k]) && IsWithout(rest, tags, k)
    ensures HeldAfter(pass, less, tags, n) == Shifted(HeldAfter(pass, less, rest, n - 1), k)
    decreases n
  {
    hide Better, HeldAfter;
    HeldStep(pass, less, tags, n);
    if n == k + 1 {
      SamePrefixHeld(pass, less, tags, rest, k);
    } else {
      SkippedIsAbsent(pass, less, tags, rest, k, n - 1);
      HeldStep(pass, less, rest, n - 1);
      var held := HeldAfter(pass, less, rest, n - 2);
      assert tags[n - 1] == rest[n - 2];
      assert held.Some? ==> rest[held.value] == tags[Shifted(held, k).value];
    }
  }

  predicate Tied(less: Order, a: string, b: string) {
    !less(a, b) && !less(b, a)
  }

  /** The strict weak order laws at three tags. */
  ghost predicate OrderLaws(less: Order, a: string, b: string, c: string) {
    && !less(a, a)
    && (less(a, b) ==> !less(b, a))
    && (less(a, b) ==> less(a, c) || less(c, b))
  }

  /** The comparison is a strict weak order on the tag strings that pass the filter. */
  ghost predicate WeaklyOrdered(pass: Filter, less: Order, tags: seq<ImageTag>) {
    forall x, y, z {:trigger OrderLaws(less, x.tag, y.tag, z.tag)} ::
      (x in tags && y in tags && z in tags && pass(x) && pass(y) && pass(z)) ==>
        OrderLaws(less, x.tag, y.tag, z.tag)
  }

  /** f is the first of the first n candidates that is tied with tags[k]. */
  ghost predicate FirstOfClass(pass: Filter, less: Order, tags: seq<ImageTag>, n: nat, f: nat, k: nat)
    requires n <= |tags| && k < n
  {
    && f < n && pass(tags[f]) && Tied(less, tags[f].tag, tags[k].tag)
    && forall j :: 0 <= j < f && pass(tags[j]) ==> !Tied(less, tags[j].tag, tags[k].tag)
  }

  /** No candidate among the first n exceeds tags[k]. */
  ghost predicate InGreatestClass(pass: Filter, less: Order, tags: seq<ImageTag>, n: nat, k: nat)
    requires n <= |tags| && k < n
  {
    forall j :: 0 <= j < n && pass(tags[j]) ==> !less(tags[k].tag, tags[j].tag)
  }

  /** tags[k] is the first with the latest timestamp among the candidates with its tag string. */
  ghost predicate NewestOfString(pass: Filter, tags: seq<ImageTag>, n: nat, k: nat)
    requires n <= |tags| && k < n
  {
    forall j :: 0 <= j < n && pass(tags[j]) && tags[j].tag == tags[k].tag ==>
      tags[j].timestamp <= tags[k].timestamp && (j < k ==> tags[j].timestamp < tags[k].timestamp)
  }

  /**
   k is the answer for the first n tags: it is in the greatest class of candidates, has the tag
   string of the first candidate in that class, and is the first with the latest timestamp among
   the candidates with that string.
   */
  ghost predicate IsAnswer(pass: Filter, less: Order, tags: seq<ImageTag>, n: nat, k: nat)
    requires n <= |tags|
  {
    && k < n && pass(tags[k])
    && InGreatestClass(pass, less, tags, n, k)
    && (exists f: nat :: FirstOfClass(pass, less, tags, n, f, k) && tags[f].tag == tags[k].tag)
    && NewestOfString(pass, tags, n, k)
  }

  /** At most one index is the answer. */
  lemma AnswerIsUnique(pass: Filter, less: Order, tags: seq<ImageTag>, n: nat, k: nat, l: nat)
    requires n <= |tags| && WeaklyOrdered(pass, less, tags)
    requires IsAnswer(pass, less, tags, n, k) && IsAnswer(pass, less, tags, n, l)
    ensures k == l
  {
    var f: nat :| FirstOfClass(pass, less, tags, n, f, k) && tags[f].tag == tags[k].tag;
    var g: nat :| FirstOfClass(pass, less, tags, n, g, l) && tags[g].tag == tags[l].tag;
    assert Tied(less, tags[f].tag, tags[l].tag) && Tied(less, tags[g].tag, tags[k].tag);
    assert f == g;
  }

  lemma GreaterTagTakesOver(pass: Filter, less: Order, tags: seq<ImageTag>, n: nat, k: nat)
    requires n < |tags| && WeaklyOrdered(pass, less, tags)
    requires k < n && pass(tags[k]) && InGreatestClass(pass, less, tags, n, k)
    requires pass(tags[n]) && less(tags[k].tag, tags[n].tag)
    ensures IsAnswer(pass, less, tags, n + 1, n)
  {
    forall j | 0 <= j < n && pass(tags[j])
      ensures less(tags[j].tag, tags[n].tag) && !less(tags[n].tag, tags[j].tag) && tags[j].tag != tags[n].tag
    {
      assert OrderLaws(less, tags[k].tag, tags[n].tag, tags[j].tag);
      assert OrderLaws(less, tags[j].tag, tags[n].tag, tags[j].tag);
    }
    assert OrderLaws(less, tags[n].tag, tags[n].tag, tags[n].tag);
    assert FirstOfClass(pass, less, tags, n + 1, n, n);
  }

  /** One round on a candidate keeps the exact answer. */
  lemma RoundKeepsAnswer(pass: Filter, less: Order, tags: seq<ImageTag>, n: nat, k: nat)
    requires n < |tags| && WeaklyOrdered(pass, less, tags)
    requires IsAnswer(pass, less, tags, n, k) && pass(tags[n])
    ensures IsAnswer(pass, less, tags, n + 1, if Better(less, tags[k], tags[n]) then n else k)
  {
    if less(tags[k].tag, tags[n].tag) {
      GreaterTagTakesOver(pass, less, tags, n, k);
    } else {
      assert OrderLaws(less, tags[n].tag, tags[n].tag, tags[n].tag);
      var f: nat :| FirstOfClass(pass, less, tags, n, f, k) && tags[f].tag == tags[k].tag;
      var k' := if Better(less, tags[k], tags[n]) then n else k;
      assert FirstOfClass(pass, less, tags, n + 1, f, k');
    }
  }

  lemma FirstCandidateIsAnswer(pass: Filter, less: Order, tags: seq<ImageTag>, n: nat)
    requires n < |tags| && WeaklyOrdered(pass, less, tags)
    requires pass(tags[n]) && forall j :: 0 <= j < n ==> !pass(tags[j])
    ensures IsAnswer(pass, less, tags, n + 1, n)
  {
    assert OrderLaws(less, tags[n].tag, tags[n].tag, tags[n].tag);
    assert FirstOfClass(pass, less, tags, n + 1, n, n);
  }

  lemma SkippedRoundKeepsAnswer(pass: Filter, less: Order, tags: seq<ImageTag>, n: nat, k: nat)
    requires n < |tags| && IsAnswer(pass, less, tags, n, k) && !pass(tags[n])
    ensures IsAnswer(pass, less, tags, n + 1, k)
  {
    var f: nat :| FirstOfClass(pass, less, tags, n, f, k) && tags[f].tag == tags[k].tag;
    assert FirstOfClass(pass, less, tags, n + 1, f, k);
  }

  lemma {:induction false} HeldIsAnswer(pass: Filter, less: Order, tags: seq<ImageTag>, n: nat)
    requires n <= |tags| && WeaklyOrdered(pass, less, tags)
    ensures var held := HeldAfter(pass, less, tags, n);
      held.Some? ==> IsAnswer(pass, less, tags, n, held.value)
  {
    hide IsAnswer, WeaklyOrdered, Better;
    if n > 0 {
      HeldIsAnswer(pass, less, tags, n - 1);
      var held := HeldAfter(pass, less, tags, n - 1);
      if held.None? {
        if pass(tags[n - 1]) { FirstCandidateIsAnswer(pass, less, tags, n - 1); }
      } else if pass(tags[n - 1]) {
        RoundKeepsAnswer(pass, less, tags, n - 1, held.value);
      } else {
        SkippedRoundKeepsAnswer(pass, less, tags, n - 1, held.value);
      }
    }
  }

  /** The loop selects k if and only if k is the answer. */
  lemma LoopIsExact(pass: Filter, less: Order, tags: seq<ImageTag>, k: nat)
    requires WeaklyOrdered(pass, less, tags)
    ensures HeldAfter(pass, less, tags, |tags|) == Some(k) <==> IsAnswer(pass, less, tags, |tags|, k)
  {
    HeldIsAnswer(pass, less, tags, |tags|);
    if IsAnswer(pass, less, tags, |tags|, k) {
      AnswerIsUnique(pass, less, tags, |tags|, k, HeldAfter(pass, less, tags, |tags|).value);
    }
  }

  // ---------- order independence ----------

  lemma PermutedElement(tags: seq<ImageTag>, shuffled: seq<ImageTag>, i: nat) returns (j: nat)
    requires multiset(tags) == multiset(shuffled) && i < |tags|
    ensures j < |shuffled| && shuffled[j] == tags[i]
  {
    assert tags[i] in multiset(shuffled);
    j :| 0 <= j < |shuffled| && shuffled[j] == tags[i];
  }

  lemma PermutedOrder(pass: Filter, less: Order, tags: seq<ImageTag>, shuffled: seq<ImageTag>)
    requires WeaklyOrdered(pass, less, tags) && multiset(tags) == multiset(shuffled)
    ensures WeaklyOrdered(pass, less, shuffled)
  {
    assert forall x :: x in shuffled ==> x in multiset(tags);
  }

  /** One direction of a permutation: this list's answer does not exceed the other's. */
  lemma PermutedNotGreater(pass: Filter, less: Order, tags: seq<ImageTag>, shuffled: seq<ImageTag>)
    requires WeaklyOrdered(pass, less, tags) && multiset(tags) == multiset(shuffled)
    requires HeldAfter(pass, less, tags, |tags|).Some?
    ensures HeldAfter(pass, less, shuffled, |shuffled|).Some?
    ensures var a := tags[HeldAfter(pass, less, tags, |tags|).value];
      var b := shuffled[HeldAfter(pass, less, shuffled, |shuffled|).value];
      !less(b.tag, a.tag) && (a.tag == b.tag ==> a.timestamp <= b.timestamp)
  {
    PermutedOrder(pass, less, tags, shuffled);
    var j := PermutedElement(tags, shuffled, HeldAfter(pass, less, tags, |tags|).value);
    HeldIsAnswer(pass, less, shuffled, |shuffled|);
  }

  /** Both lists have an answer, with the same tag string. */
  predicate SameTag(pass: Filter, less: Order, tags: seq<ImageTag>, shuffled: seq<ImageTag>) {
    var a, b := HeldAfter(pass, less, tags, |tags|), HeldAfter(pass, less, shuffled, |shuffled|);
    a.Some? && b.Some? && tags[a.value].tag == shuffled[b.value].tag
  }

  /** Both lists have an answer, with the same timestamp. */
  predicate SameTimestamp(pass: Filter, less: Order, tags: seq<ImageTag>, shuffled: seq<ImageTag>) {
    var a, b := HeldAfter(pass, less, tags, |tags|), HeldAfter(pass, less, shuffled, |shuffled|);
    a.Some? && b.Some? && tags[a.value].timestamp == shuffled[b.value].timestamp
  }

  /** x is a candidate that no candidate exceeds. */
  ghost predicate IsTop(pass: Filter, less: Order, tags: seq<ImageTag>, x: ImageTag) {
    x in tags && pass(x) && forall y :: y in tags && pass(y) ==> !less(x.tag, y.tag)
  }

  /** All candidates that no candidate exceeds have one tag string. */
  ghost predicate OneTopTag(pass: Filter, less: Order, tags: seq<ImageTag>) {
    forall x, y :: IsTop(pass, less, tags, x) && IsTop(pass, less, tags, y) ==> x.tag == y.tag
  }

  lemma AnswerIsTop(pass: Filter, less: Order, tags: seq<ImageTag>, k: nat)
    requires WeaklyOrdered(pass, less, tags) && HeldAfter(pass, less, tags, |tags|) == Some(k)
    ensures IsTop(pass, less, tags, tags[k])
  {
    HeldIsAnswer(pass, less, tags, |tags|);
    forall y | y in tags && pass(y) ensures !less(tags[k].tag, y.tag) {
      var j :| 0 <= j < |tags| && tags[j] == y;
    }
  }

  lemma PermutedTop(pass: Filter, less: Order, tags: seq<ImageTag>, shuffled: seq<ImageTag>, x: ImageTag)
    requires multiset(tags) == multiset(shuffled) && IsTop(pass, less, shuffled, x)
    ensures IsTop(pass, less, tags, x)
  {
    assert x in multiset(shuffled) && forall y :: y in tags ==> y in multiset(shuffled);
  }

  lemma OneTopTagSuffices(pass: Filter, less: Order, tags: seq<ImageTag>, shuffled: seq<ImageTag>)
    requires WeaklyOrdered(pass, less, tags) && multiset(tags) == multiset(shuffled)
    requires HeldAfter(pass, less, tags, |tags|).Some? && OneTopTag(pass, less, tags)
    ensures SameTag(pass, less, tags, shuffled) && SameTimestamp(pass, less, tags, shuffled)
  {
    hide HeldAfter, WeaklyOrdered, IsTop;
    PermutedOrder(pass, less, tags, shuffled);
    PermutedNotGreater(pass, less, tags, shuffled);
    PermutedNotGreater(pass, less, shuffled, tags);
    AnswerIsTop(pass, less, tags, HeldAfter(pass, less, tags, |tags|).value);
    var k := HeldAfter(pass, less, shuffled, |shuffled|).value;
    AnswerIsTop(pass, less, shuffled, k);
    PermutedTop(pass, less, tags, shuffled, shuffled[k]);
  }

  /** The list with x moved to the front. */
  lemma MoveToFront(tags: seq<ImageTag>, x: ImageTag) returns (moved: seq<ImageTag>)
    requires x in tags
    ensures multiset(tags) == multiset(moved) && moved != [] && moved[0] == x
  {
    var i :| 0 <= i < |tags| && tags[i] == x;
    assert tags == tags[..i] + [x] + tags[i + 1..];
    moved := [x] + tags[..i] + tags[i + 1..];
  }

  /** A top candidate at the front gives the answer its tag string. */
  lemma FrontTopWins(pass: Filter, less: Order, tags: seq<ImageTag>)
    requires WeaklyOrdered(pass, less, tags) && tags != [] && IsTop(pass, less, tags, tags[0])
    ensures HeldAfter(pass, less, tags, |tags|).Some?
    ensures tags[HeldAfter(pass, less, tags, |tags|).value].tag == tags[0].tag
  {
    HeldIsAnswer(pass, less, tags, |tags|);
    var k := HeldAfter(pass, less, tags, |tags|).value;
    var f: nat :| FirstOfClass(pass, less, tags, |tags|, f, k) && tags[f].tag == tags[k].tag;
    assert tags[k] in tags && Tied(less, tags[0].tag, tags[k].tag);
    assert f == 0;
  }

  lemma OneTopTagIsNeeded(pass: Filter, less: Order, tags: seq<ImageTag>, x: ImageTag)
    requires WeaklyOrdered(pass, less, tags) && IsTop(pass, less, tags, x)
    requires forall shuffled :: multiset(tags) == multiset(shuffled) ==> SameTag(pass, less, tags, shuffled)
    ensures HeldAfter(pass, less, tags, |tags|).Some?
    ensures x.tag == tags[HeldAfter(pass, less, tags, |tags|).value].tag
  {
    hide HeldAfter, WeaklyOrdered, IsTop;
    TopIsListed(pass, less, tags, x);
    var moved := MoveToFront(tags, x);
    PermutedOrder(pass, less, tags, moved);
    PermutedTop(pass, less, moved, tags, x);
    FrontTopWins(pass, less, moved);
    assert SameTag(pass, less, tags, moved);
  }

  lemma TopIsListed(pass: Filter, less: Order, tags: seq<ImageTag>, x: ImageTag)
    requires IsTop(pass, less, tags, x)
    ensures x in tags
  {
  }

  /**
   Every order of the list gives the same tag string exactly when the greatest candidates share one, and
   then the same timestamp too.
   */
  lemma OrderIndependentIff(pass: Filter, less: Order, tags: seq<ImageTag>)
    requires WeaklyOrdered(pass, less, tags) && HeldAfter(pass, less, tags, |tags|).Some?
    ensures (forall shuffled :: multiset(tags) == multiset(shuffled) ==> SameTag(pass, less, tags, shuffled))
      <==> OneTopTag(pass, less, tags)
    ensures OneTopTag(pass, less, tags) ==>
      forall shuffled :: multiset(tags) == multiset(shuffled) ==> SameTimestamp(pass, less, tags, shuffled)
  {
    hide HeldAfter, WeaklyOrdered, IsTop, SameTag, SameTimestamp;
    if OneTopTag(pass, less, tags) {
      forall shuffled | multiset(tags) == multiset(shuffled)
        ensures SameTag(pass, less, tags, shuffled) && SameTimestamp(pass, less, tags, shuffled)
      {
        OneTopTagSuffices(pass, less, tags, shuffled);
      }
    }
    if forall shuffled :: multiset(tags) == multiset(shuffled) ==> SameTag(pass, less, tags, shuffled) {
      forall x, y | IsTop(pass, less, tags, x) && IsTop(pass, less, tags, y) ensures x.tag == y.tag {
        OneTopTagIsNeeded(pass, less, tags, x);
        OneTopTagIsNeeded(pass, less, tags, y);
      }
    }
  }

  // ---------- order independence under any comparison ----------

  /** x is a candidate that is greater than, and not less than, every candidate with another tag. */
  ghost predicate IsChampion(pass: Filter, less: Order, tags: seq<ImageTag>, x: ImageTag) {
    && x in tags && pass(x)
    && forall y :: y in tags && pass(y) && y.tag != x.tag ==> less(y.tag, x.tag) && !less(x.tag, y.tag)
  }

  /** From the first candidate with a champion's tag on, the loop holds that tag. */
  lemma {:induction false} ChampionIsHeld(pass: Filter, less: Order, tags: seq<ImageTag>, x: ImageTag, i: nat, n: nat)
    requires IsChampion(pass, less, tags, x)
    requires i < n <= |tags| && pass(tags[i]) && tags[i].tag == x.tag
    ensures var held := HeldAfter(pass, less, tags, n); held.Some? && tags[held.value].tag == x.tag
    decreases n
  {
    if n - 1 > i {
      ChampionIsHeld(pass, less, tags, x, i, n - 1);
    }
    assert tags[n - 1] in tags;
    var before := HeldAfter(pass, less, tags, n - 1);
    assert before.Some? ==> tags[before.value] in tags;
  }

  lemma ChampionWins(pass: Filter, less: Order, tags: seq<ImageTag>, shuffled: seq<ImageTag>, x: ImageTag)
    requires IsChampion(pass, less, tags, x) && multiset(tags) == multiset(shuffled)
    ensures var held := HeldAfter(pass, less, shuffled, |shuffled|); held.Some? && shuffled[held.value].tag == x.tag
  {
    assert forall y :: y in shuffled ==> y in multiset(tags);
    assert x in multiset(shuffled);
    var i :| 0 <= i < |shuffled| && shuffled[i] == x;
    ChampionIsHeld(pass, less, shuffled, x, i, |shuffled|);
  }

  /** The tags with this string, or those without it. */
  function Having(tags: seq<ImageTag>, tag: string, yes: bool): (r: seq<ImageTag>)
    ensures forall x :: x in r ==> (x.tag == tag) == yes
    ensures forall x :: x in tags && (x.tag == tag) == yes ==> x in r
  {
    if tags == [] then []
    else
      var last := tags[|tags| - 1];
      Having(tags[..|tags| - 1], tag, yes) + (if (last.tag == tag) == yes then [last] else [])
  }

  lemma AppendOne(s: seq<ImageTag>, x: ImageTag)
    ensures multiset(s + [x]) == multiset(s) + multiset{x}
  {
  }

  lemma {:induction false} HavingSplits(tags: seq<ImageTag>, tag: string)
    ensures multiset(tags) == multiset(Having(tags, tag, true)) + multiset(Having(tags, tag, false))
  {
    if tags != [] {
      var front, last := tags[..|tags| - 1], tags[|tags| - 1];
      HavingSplits(front, tag);
      assert tags == front + [last];
      AppendOne(front, last);
      AppendOne(Having(front, tag, last.tag == tag), last);
    }
  }

  /** Once another tag is held, a tag that does not come any more is not held again. */
  lemma {:induction false} NoReturn(pass: Filter, less: Order, tags: seq<ImageTag>, tag: string, m: nat, n: nat)
    requires m <= n <= |tags| && HeldAfter(pass, less, tags, m).Some?
    requires tags[HeldAfter(pass, less, tags, m).value].tag != tag
    requires forall i :: m <= i < n ==> tags[i].tag != tag
    ensures var held := HeldAfter(pass, less, tags, n); held.Some? && tags[held.value].tag != tag
    decreases n
  {
    if n > m { NoReturn(pass, less, tags, tag, m, n - 1); }
  }

  /** Tags that are not better leave the held one. */
  lemma {:induction false} StaysHeld(pass: Filter, less: Order, tags: seq<ImageTag>, m: nat, n: nat)
    requires m <= n <= |tags| && HeldAfter(pass, less, tags, m).Some?
    requires forall i :: m <= i < n ==> !Better(less, tags[HeldAfter(pass, less, tags, m).value], tags[i])
    ensures HeldAfter(pass, less, tags, n) == HeldAfter(pass, less, tags, m)
    decreases n
  {
    if n > m { StaysHeld(pass, less, tags, m, n - 1); }
  }

  /** Every order of the list selects this tag string. */
  ghost predicate AlwaysSelects(pass: Filter, less: Order, tags: seq<ImageTag>, tag: string) {
    forall shuffled :: multiset(tags) == multiset(shuffled) ==> Selects(pass, less, shuffled, tag)
  }

  predicate Selects(pass: Filter, less: Order, tags: seq<ImageTag>, tag: string) {
    var held := HeldAfter(pass, less, tags, |tags|);
    held.Some? && tags[held.value].tag == tag
  }

  /** The list in the order: y, the tags with this string, the others. */
  lemma PutBefore(tags: seq<ImageTag>, tag: string, y: ImageTag) returns (list: seq<ImageTag>, m: nat)
    requires y in tags && y.tag != tag
    ensures multiset(list) == multiset(tags) && 1 <= m <= |list| && list[0] == y
    ensures forall i :: 1 <= i < m ==> list[i].tag == tag
    ensures forall i :: m <= i < |list| ==> list[i].tag != tag
  {
    var same, others := Having(tags, tag, true), Having(tags, tag, false);
    HavingSplits(tags, tag);
    var moved := MoveToFront(others, y);
    var rest := moved[1..];
    forall z | z in rest ensures z.tag != tag { assert z in moved && z in multiset(others); }
    hide Having;
    BetweenSplits(y, same, rest);
    InOrder(y, same, rest, tag);
    list, m := [y] + same + rest, 1 + |same|;
    assert multiset(list) == multiset(tags) by { assert moved == [y] + rest; }
  }

  lemma InOrder(y: ImageTag, same: seq<ImageTag>, rest: seq<ImageTag>, tag: string)
    requires (forall z :: z in same ==> z.tag == tag) && forall z :: z in rest ==> z.tag != tag
    ensures var list := [y] + same + rest;
      && list[0] == y
      && (forall i :: 1 <= i < 1 + |same| ==> list[i].tag == tag)
      && (forall i :: 1 + |same| <= i < |list| ==> list[i].tag != tag)
  {
    var list := [y] + same + rest;
    assert forall i :: 1 <= i < 1 + |same| ==> list[i] == same[i - 1];
    assert forall i :: 1 + |same| <= i < |list| ==> list[i] == rest[i - 1 - |same|];
  }

  lemma BetweenSplits(y: ImageTag, same: seq<ImageTag>, rest: seq<ImageTag>)
    ensures multiset([y] + same + rest) == multiset(same) + multiset([y] + rest)
  {
  }

  /** The list in the order: the tags with this string, the others. */
  lemma PutFirst(tags: seq<ImageTag>, tag: string) returns (list: seq<ImageTag>, m: nat)
    ensures multiset(list) == multiset(tags) && m <= |list|
    ensures forall i :: 0 <= i < m ==> list[i].tag == tag
    ensures forall i :: m <= i < |list| ==> list[i].tag != tag
  {
    HavingSplits(tags, tag);
    list := Having(tags, tag, true) + Having(tags, tag, false);
    m := |Having(tags, tag, true)|;
  }

  lemma PermutedMember(tags: seq<ImageTag>, list: seq<ImageTag>, x: ImageTag) returns (i: nat)
    requires multiset(list) == multiset(tags) && x in tags
    ensures i < |list| && list[i] == x
  {
    assert x in multiset(list);
    i :| 0 <= i < |list| && list[i] == x;
  }

  lemma FirstHeld(pass: Filter, less: Order, tags: seq<ImageTag>)
    requires tags != [] && pass(tags[0])
    ensures HeldAfter(pass, less, tags, 1) == Some(0)
  {
    assert HeldAfter(pass, less, tags, 0) == None;
  }

  /** A candidate that is not less than x, listed before it, keeps its tag out. */
  lemma KeptOut(pass: Filter, less: Order, tags: seq<ImageTag>, x: ImageTag, y: ImageTag) returns (list: seq<ImageTag>)
    requires y in tags && pass(y) && y.tag != x.tag && !less(y.tag, x.tag)
    ensures multiset(tags) == multiset(list) && !Selects(pass, less, list, x.tag)
  {
    hide HeldAfter;
    var m: nat;
    list, m := PutBefore(tags, x.tag, y);
    FirstHeld(pass, less, list);
    StaysHeld(pass, less, list, 1, m);
    NoReturn(pass, less, list, x.tag, m, |list|);
  }

  /** A candidate that x is less than, listed after it, drives its tag out. */
  lemma DrivenOut(pass: Filter, less: Order, tags: seq<ImageTag>, x: ImageTag, y: ImageTag)
    returns (list: seq<ImageTag>)
    requires y in tags && pass(y) && y.tag != x.tag && less(x.tag, y.tag)
    ensures multiset(tags) == multiset(list) && !Selects(pass, less, list, x.tag)
  {
    var m: nat;
    list, m := PutFirst(tags, x.tag);
    var i := PermutedMember(tags, list, y);
    NoReturn(pass, less, list, x.tag, i + 1, |list|);
  }

  /**
   Under any comparison whatever: every order of the list selects the same tag string exactly when some
   candidate is a champion.
   */
  lemma AnyOrderIff(pass: Filter, less: Order, tags: seq<ImageTag>)
    ensures (exists tag :: AlwaysSelects(pass, less, tags, tag)) <==> (exists x :: IsChampion(pass, less, tags, x))
  {
    hide HeldAfter;
    if x :| IsChampion(pass, less, tags, x) {
      forall shuffled | multiset(tags) == multiset(shuffled) ensures Selects(pass, less, shuffled, x.tag) {
        ChampionWins(pass, less, tags, shuffled, x);
      }
      assert AlwaysSelects(pass, less, tags, x.tag);
    }
    if tag :| AlwaysSelects(pass, less, tags, tag) {
      assert Selects(pass, less, tags, tag);
      var x := tags[HeldAfter(pass, less, tags, |tags|).value];
      forall y | y in tags && pass(y) && y.tag != x.tag ensures less(y.tag, x.tag) && !less(x.tag, y.tag) {
        if !less(y.tag, x.tag) {
          var list := KeptOut(pass, less, tags, x, y);
          assert false;
        }
        if less(x.tag, y.tag) {
          var list := DrivenOut(pass, less, tags, x, y);
          assert false;
        }
      }
      assert IsChampion(pass, less, tags, x);
    }
  }
}
