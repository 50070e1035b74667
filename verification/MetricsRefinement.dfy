/**
 The concurrent store refines the sequential one: whenever the lock is free, the version and last-checked
 series are those of the completed calls in the order in which they released the lock.
 */
module MetricsRefinement {
  import opened Wrappers
  import opened Metrics
  import opened MetricsRaces

  predicate IsGauge(x: Series) {
    x.vec.Version? || x.vec.Checked?
  }

  function Gauges(series: Store): Store {
    map x | x in series && IsGauge(x) :: series[x]
  }

  function RowOf(vec: VecName, k: Key, r: Record): Series {
    Series(vec, if vec.Version? then VersionRow(k, r).labels else CheckedRow(k, r).labels)
  }

  function RowValue(vec: VecName, k: Key, r: Record): real {
    if vec.Version? then VersionRow(k, r).value else CheckedRow(k, r).value
  }

  predicate FromMap(x: Series, value: real, images: Images) {
    && HasKey(x.labels) && KeyOf(x.labels) in images
    && var k := KeyOf(x.labels);
       x == RowOf(x.vec, k, images[k]) && value == RowValue(x.vec, k, images[k])
  }

  /** The version and last-checked series are exactly one each for every container of the map, with its values. */
  ghost predicate Holds(series: Store, images: Images) {
    && (forall x :: x in series && IsGauge(x) ==> FromMap(x, series[x], images))
    && (forall k :: k in images ==> HasRows(series, k, images[k]))
  }

  predicate HasRows(series: Store, k: Key, r: Record) {
    && RowOf(Version, k, r) in series && series[RowOf(Version, k, r)] == RowValue(Version, k, r)
    && RowOf(Checked, k, r) in series && series[RowOf(Checked, k, r)] == RowValue(Checked, k, r)
  }

  /** The store with a container's two rows set. */
  function WithRows(series: Store, k: Key, r: Record): Store {
    series[RowOf(Version, k, r) := RowValue(Version, k, r)][RowOf(Checked, k, r) := RowValue(Checked, k, r)]
  }

  // ---------- what completed calls amount to ----------

  function Operations(c: Call): seq<Operation> {
    match c
    case AddImage(k, r) => [Add(k, r)]
    case RemoveImage(k) => [Remove(k)]
    case RemovePod(p) => [RemoveWholePod(p.namespace, p.name)]
    case _ => []
  }

  /** What the step from s to s' completes: a call that releases the lock. */
  function Completed(s: State, s': State): seq<Operation> {
    if s.holder.Some? && s'.holder == None && s.PhaseOf(s.holder.value).Running?
    then Operations(s.PhaseOf(s.holder.value).call)
    else []
  }

  /** The operations completed on the way to state n, in order. */
  function History(run: seq<State>, n: nat): seq<Operation>
    requires n < |run|
  {
    if n == 0 then [] else History(run, n - 1) + Completed(run[n - 1], run[n])
  }

  lemma RunOfMore(ops: seq<Operation>, c: Call)
    ensures Run(ops + Operations(c)) == if IsCheck(c) then Run(ops) else After(Run(ops), Operations(c)[0])
  {
    if IsCheck(c) {
      assert ops + [] == ops;
    } else {
      var more := ops + Operations(c);
      assert more[..|more| - 1] == ops;
    }
  }

  // ---------- one call, start to end ----------

  lemma SameGaugesHold(a: Store, b: Store, images: Images)
    requires Gauges(a) == Gauges(b) && Holds(a, images)
    ensures Holds(b, images)
  {
    hide FromMap;
    forall x | x in b && IsGauge(x) ensures FromMap(x, b[x], images) {
      assert x in Gauges(b) && Gauges(a)[x] == Gauges(b)[x];
    }
    forall k | k in images ensures HasRows(b, k, images[k]) {
      assert HasRows(a, k, images[k]);
      assert RowOf(Version, k, images[k]) in Gauges(a) && RowOf(Checked, k, images[k]) in Gauges(a);
      assert Gauges(a)[RowOf(Version, k, images[k])] == Gauges(b)[RowOf(Version, k, images[k])];
      assert Gauges(a)[RowOf(Checked, k, images[k])] == Gauges(b)[RowOf(Checked, k, images[k])];
    }
  }

  lemma SameGaugesAfter(a: Store, b: Store, i: Instruction)
    requires Gauges(a) == Gauges(b)
    ensures Gauges(Effect(a, i)) == Gauges(Effect(b, i))
  {
    hide Matches;
    forall x ensures x in Gauges(Effect(a, i)) <==> x in Gauges(Effect(b, i)) {
      assert x in Gauges(a) <==> x in Gauges(b);
    }
    forall x | x in Gauges(Effect(a, i)) ensures Gauges(Effect(a, i))[x] == Gauges(Effect(b, i))[x] {
      assert x in Gauges(a) ==> Gauges(a)[x] == Gauges(b)[x];
      assert x in a <==> x in Gauges(a);
      assert x in b <==> x in Gauges(b);
    }
  }

  /** Recording a duration or an error leaves the gauges alone, whether it is done or not. */
  lemma LookupsKeepGauges(series: Store, c: Call, n: nat)
    requires IsCheck(c) && n <= 2
    ensures Gauges(Exec(series, Body(c), n)) == Gauges(series)
  {
    if n > 0 {
      LookupsKeepGauges(series, c, n - 1);
      SameGaugesAfter(Exec(series, Body(c), n - 1), series, Body(c)[n - 1]);
    }
  }

  /** The gauges without those that match. */
  function Unmatched(series: Store, partial: Labels): Store {
    map x | x in Gauges(series) && !Matches(x.labels, partial) :: series[x]
  }

  lemma FourInstructions(series: Store, body: seq<Instruction>)
    requires |body| == 4
    ensures Exec(series, body, 4) ==
      Effect(Effect(Effect(Effect(series, body[0]), body[1]), body[2]), body[3])
  {
    hide Effect;
    assert Exec(series, body, 1) == Effect(Exec(series, body, 0), body[0]);
    assert Exec(series, body, 2) == Effect(Exec(series, body, 1), body[1]);
    assert Exec(series, body, 3) == Effect(Exec(series, body, 2), body[2]);
  }

  lemma DeletesAmountTo(series: Store, partial: Labels)
    ensures Gauges(Exec(series, Deletes(partial), 4)) == Unmatched(series, partial)
  {
    hide Matches;
    FourInstructions(series, Deletes(partial));
  }

  lemma AddAmountsTo(series: Store, k: Key, r: Record)
    ensures Gauges(Exec(series, Body(AddImage(k, r)), 4)) ==
      WithRows(Unmatched(series, ContainerPartialLabels(k)), k, r)
  {
    FourInstructions(series, Body(AddImage(k, r)));
    hide Matches, ContainerPartialLabels, VersionRow, CheckedRow;
  }

  /** Removing the matching gauges is removing their containers, if matching depends on the container alone. */
  lemma UnmatchedHold(series: Store, images: Images, partial: Labels, rest: Images)
    requires Holds(series, images)
    requires rest.Keys <= images.Keys && forall k :: k in rest ==> rest[k] == images[k]
    requires forall l :: HasKey(l) && KeyOf(l) in images ==> (Matches(l, partial) <==> KeyOf(l) !in rest)
    ensures Holds(Unmatched(series, partial), rest)
  {
    hide Matches;
    forall k | k in rest ensures HasRows(Unmatched(series, partial), k, rest[k]) {
      assert HasRows(series, k, images[k]);
      assert KeyOf(RowOf(Version, k, rest[k]).labels) == k && KeyOf(RowOf(Checked, k, rest[k]).labels) == k;
    }
  }

  lemma GaugesOfUnmatched(series: Store, partial: Labels)
    ensures Gauges(Unmatched(series, partial)) == Unmatched(series, partial)
  {
    hide Matches;
  }

  lemma WithRowsHold(series: Store, images: Images, k: Key, r: Record)
    requires Holds(series, images - {k})
    ensures Holds(WithRows(series, k, r), images[k := r])
  {
    var more, bigger := WithRows(series, k, r), images[k := r];
    assert KeyOf(RowOf(Version, k, r).labels) == k && KeyOf(RowOf(Checked, k, r).labels) == k;
    forall j | j in bigger ensures HasRows(more, j, bigger[j]) {
      if j != k { assert j in images - {k}; }
    }
    forall x | x in more && IsGauge(x) ensures FromMap(x, more[x], bigger) {
      if x in series { assert FromMap(x, series[x], images - {k}); }
    }
  }

  lemma ContainerGone(series: Store, images: Images, k: Key)
    requires Holds(series, images)
    ensures Holds(Unmatched(series, ContainerPartialLabels(k)), images - {k})
  {
    forall l ensures Matches(l, ContainerPartialLabels(k)) <==> HasKey(l) && KeyOf(l) == k { ContainerMatch(l, k); }
    hide Matches, HasKey, KeyOf, ContainerPartialLabels, Holds;
    UnmatchedHold(series, images, ContainerPartialLabels(k), images - {k});
  }

  lemma PodGone(series: Store, images: Images, p: PodName)
    requires Holds(series, images)
    ensures Holds(Unmatched(series, PodPartialLabels(p.namespace, p.name)), WithoutPod(images, p.namespace, p.name))
  {
    forall l | HasKey(l)
      ensures Matches(l, PodPartialLabels(p.namespace, p.name)) <==>
        KeyOf(l).namespace == p.namespace && KeyOf(l).pod == p.name
    {
      PodMatch(l, p.namespace, p.name);
    }
    hide Matches, HasKey, KeyOf, PodPartialLabels, Holds;
    UnmatchedHold(series, images, PodPartialLabels(p.namespace, p.name), WithoutPod(images, p.namespace, p.name));
  }

  /** A whole call takes the series of a map to the series of the map after its operation. */
  lemma CallRefines(series: Store, ops: seq<Operation>, c: Call)
    requires Holds(series, Run(ops))
    ensures Holds(Exec(series, Body(c), |Body(c)|), Run(ops + Operations(c)))
  {
    var images, after := Run(ops), Exec(series, Body(c), |Body(c)|);
    RunOfMore(ops, c);
    hide Holds, Exec, Run, Unmatched, WithoutPod, ContainerPartialLabels, PodPartialLabels;
    match c {
      case AddImage(k, r) =>
        AddAmountsTo(series, k, r);
        ContainerGone(series, images, k);
        var rest := Unmatched(series, ContainerPartialLabels(k));
        WithRowsHold(rest, images, k, r);
        GaugesOfUnmatched(series, ContainerPartialLabels(k));
        var rows := WithRows(rest, k, r);
        assert Gauges(rows) == rows by { assert Gauges(rest) == rest; }
        SameGaugesHold(rows, after, images[k := r]);
      case RemoveImage(k) =>
        DeletesAmountTo(series, ContainerPartialLabels(k));
        ContainerGone(series, images, k);
        GaugesOfUnmatched(series, ContainerPartialLabels(k));
        SameGaugesHold(Unmatched(series, ContainerPartialLabels(k)), after, images - {k});
      case RemovePod(p) =>
        var partial := PodPartialLabels(p.namespace, p.name);
        DeletesAmountTo(series, partial);
        PodGone(series, images, p);
        GaugesOfUnmatched(series, partial);
        SameGaugesHold(Unmatched(series, partial), after, WithoutPod(images, p.namespace, p.name));
      case _ =>
        LookupsKeepGauges(series, c, 2);
        SameGaugesHold(series, after, images);
    }
  }

  // ---------- whole runs ----------

  /** The series are base, which the map describes, with the call that holds the lock done up to its pc. */
  ghost predicate Refines(s: State, base: Store, ops: seq<Operation>) {
    && Exclusive(s) && Holds(base, Run(ops))
    && match s.holder
       case None => s.series == base
       case Some(t) =>
         s.PhaseOf(t).Running?
         && Gauges(s.series) == Gauges(Exec(base, Body(s.PhaseOf(t).call), s.PhaseOf(t).pc))
  }

  /** A step that completes no call keeps the base. */
  lemma StepInside(s: State, s': State, t: Tid, base: Store, ops: seq<Operation>)
    requires Refines(s, base, ops) && s.holder == Some(t) && Exclusive(s')
    requires Executes(s, s', t, true) || Executes(s, s', t, false)
    ensures Refines(s', base, ops)
  {
    var c, pc := s.PhaseOf(t).call, s.PhaseOf(t).pc;
    var pc' := s'.PhaseOf(t).pc;
    hide Effect, Gauges, Holds, Exec, Body;
    if Body(c)[pc].CheckPod? {
      CheckComesFirst(c, pc);
      LookupsKeepGauges(base, c, pc);
      LookupsKeepGauges(base, c, pc');
    } else {
      SameGaugesAfter(s.series, Exec(base, Body(c), pc), Body(c)[pc]);
      OneMore(base, Body(c), pc);
    }
  }

  lemma CheckComesFirst(c: Call, pc: nat)
    requires pc < |Body(c)| && Body(c)[pc].CheckPod?
    ensures IsCheck(c)
  {
  }

  lemma OneMore(series: Store, body: seq<Instruction>, n: nat)
    requires n < |body|
    ensures Exec(series, body, n + 1) == Effect(Exec(series, body, n), body[n])
  {
  }

  lemma StepRelease(s: State, s': State, t: Tid, base: Store, ops: seq<Operation>)
    requires Refines(s, base, ops) && s.holder == Some(t) && Exclusive(s') && Releases(s, s', t)
    ensures Refines(s', s.series, ops + Completed(s, s'))
  {
    var c := s.PhaseOf(t).call;
    CallRefines(base, ops, c);
    hide Effect, Exec, Gauges, Holds;
    SameGaugesHold(Exec(base, Body(c), |Body(c)|), s.series, Run(ops + Operations(c)));
  }

  lemma StepAcquire(s: State, s': State, t: Tid, base: Store, ops: seq<Operation>)
    requires Refines(s, base, ops) && Exclusive(s') && Acquires(s, s', t)
    ensures Refines(s', base, ops)
  {
    hide Holds, Gauges, Effect;
  }

  lemma StepOutside(s: State, s': State, base: Store, ops: seq<Operation>)
    requires Refines(s, base, ops) && Exclusive(s')
    requires Environment(s, s') || exists t, c :: Calls(s, s', t, c)
    ensures Refines(s', base, ops)
  {
    hide Holds, Gauges, Exec, Body;
  }

  lemma NextRefines(s: State, s': State, base: Store, ops: seq<Operation>) returns (base': Store)
    requires Refines(s, base, ops) && Next(s, s')
    ensures Refines(s', base', ops + Completed(s, s'))
  {
    NextKeepsExclusive(s, s');
    assert ops + [] == ops;
    hide Holds, Gauges, Exec, Body, Effect;
    if Environment(s, s') || exists t, c :: Calls(s, s', t, c) {
      hide Refines;
      StepOutside(s, s', base, ops);
      assert Completed(s, s') == [];
      return base;
    }
    var t :| ThreadStep(s, s', t);
    if Acquires(s, s', t) {
      StepAcquire(s, s', t, base, ops);
      return base;
    }
    assert t in s.phases && s.holder == Some(t);
    if Releases(s, s', t) {
      StepRelease(s, s', t, base, ops);
      return s.series;
    }
    StepInside(s, s', t, base, ops);
    return base;
  }

  lemma {:induction false} RunRefines(run: seq<State>, n: nat) returns (base: Store)
    requires IsRun(run) && n < |run| && run[0].series == map[]
    ensures Refines(run[n], base, History(run, n))
  {
    if n == 0 {
      InitIsExclusive();
      return map[];
    }
    hide IsRun, Next, Refines;
    var before := RunRefines(run, n - 1);
    StepOfRun(run, n - 1);
    base := NextRefines(run[n - 1], run[n - 1 + 1], before, History(run, n - 1));
  }

  /**
   In every interleaving from an empty store, whenever the lock is free the version and last-checked series
   and their values are exactly those of the completed calls, one after the other in the order of completion.
   */
  lemma SequentialWhenFree(run: seq<State>, n: nat)
    requires IsRun(run) && n < |run| && run[0].series == map[] && run[n].holder == None
    ensures Holds(run[n].series, Run(History(run, n)))
  {
    hide IsRun, Holds;
    var base := RunRefines(run, n);
  }

  /**
   So, in every interleaving, once the lock is free: the record that was added last for a container, and not removed
   since, has one version series with its three strings, 1 for the latest and 0 for an outdated image, and one
   last-checked series with the time of the check.
   */
  lemma SeriesSayLastAdded(run: seq<State>, n: nat, i: nat, k: Key, r: Record)
    requires IsRun(run) && n < |run| && run[0].series == map[] && run[n].holder == None
    requires LastAdded(History(run, n), i, k, r)
    ensures var s := Series(Version, Labels(Some(k.namespace), Some(k.pod), Some(k.container), Some(k.containerType),
                                            Some(r.image), Some(r.current), Some(r.latest)));
      && s in run[n].series && (run[n].series[s] == 1.0 <==> r.isLatest) && (run[n].series[s] == 0.0 <==> !r.isLatest)
    ensures var s := Series(Checked, Labels(Some(k.namespace), Some(k.pod), Some(k.container), Some(k.containerType),
                                            Some(r.image), None, None));
      s in run[n].series && run[n].series[s] == r.at as real
  {
    hide IsRun, LastAdded, FromMap;
    SequentialWhenFree(run, n);
    RunHoldsLastAdded(History(run, n), k, r);
    assert HasRows(run[n].series, k, r);
  }

  /** And there are no other gauges. */
  lemma NoOtherGauges(run: seq<State>, n: nat, x: Series)
    requires IsRun(run) && n < |run| && run[0].series == map[] && run[n].holder == None
    requires x in run[n].series && (x.vec == Version || x.vec == Checked)
    ensures exists i, k, r ::
      && LastAdded(History(run, n), i, k, r)
      && x.labels.namespace == Some(k.namespace) && x.labels.pod == Some(k.pod)
      && x.labels.container == Some(k.container) && x.labels.containerType == Some(k.containerType)
      && x.labels.image == Some(r.image)
      && (x.vec == Version ==> x.labels.currentVersion == Some(r.current) && x.labels.latestVersion == Some(r.latest))
  {
    hide IsRun, LastAdded, Run, HasRows;
    SequentialWhenFree(run, n);
    var images := Run(History(run, n));
    assert FromMap(x, run[n].series[x], images);
    RunHoldsLastAdded(History(run, n), KeyOf(x.labels), images[KeyOf(x.labels)]);
  }

  // ---------- one series per container, even in the middle of a call ----------

  predicate SameContainer(x: Series, y: Series) {
    x.vec == y.vec && HasKey(x.labels) && HasKey(y.labels) && KeyOf(x.labels) == KeyOf(y.labels)
  }

  /** Every gauge has a container, and no other gauge of its vec has the same one. */
  predicate OneEach(series: Store) {
    && (forall x :: x in series && IsGauge(x) ==> HasKey(x.labels))
    && (forall x, y :: x in series && y in series && IsGauge(x) && SameContainer(x, y) ==> x == y)
  }

  lemma HoldsOneEach(series: Store, images: Images)
    requires Holds(series, images)
    ensures OneEach(series)
  {
  }

  lemma DeleteKeepsOneEach(series: Store, i: Instruction)
    requires OneEach(series) && i.Delete?
    ensures OneEach(Effect(series, i))
  {
    hide Matches, HasKey, KeyOf;
  }

  lemma {:induction false} DeletesKeepOneEach(series: Store, body: seq<Instruction>, n: nat)
    requires OneEach(series) && n <= |body| && forall j :: 0 <= j < n ==> body[j].Delete?
    ensures OneEach(Exec(series, body, n))
  {
    hide OneEach, Effect;
    if n > 0 {
      DeletesKeepOneEach(series, body, n - 1);
      DeleteKeepsOneEach(Exec(series, body, n - 1), body[n - 1]);
    }
  }

  /** The vec has no series of the container. */
  predicate NoneOf(series: Store, vec: VecName, k: Key) {
    forall x :: x in series && x.vec == vec ==> !(HasKey(x.labels) && KeyOf(x.labels) == k)
  }

  lemma AddingKeepsOneEach(series: Store, vec: VecName, k: Key, r: Record)
    requires OneEach(series) && NoneOf(series, vec, k) && (vec.Version? || vec.Checked?)
    ensures OneEach(series[RowOf(vec, k, r) := RowValue(vec, k, r)])
  {
    assert HasKey(RowOf(vec, k, r).labels) && KeyOf(RowOf(vec, k, r).labels) == k;
    hide HasKey, KeyOf, RowOf;
    assert RowOf(vec, k, r).vec == vec by { RowVec(vec, k, r); }
  }

  lemma RowVec(vec: VecName, k: Key, r: Record)
    ensures RowOf(vec, k, r).vec == vec
  {
  }

  lemma DeletedNone(series: Store, k: Key)
    ensures var s1 := Effect(series, Delete(Version, ContainerPartialLabels(k)));
      var s2 := Effect(s1, Delete(Checked, ContainerPartialLabels(k)));
      NoneOf(s2, Version, k) && NoneOf(s2, Checked, k)
  {
    forall l ensures Matches(l, ContainerPartialLabels(k)) <==> HasKey(l) && KeyOf(l) == k { ContainerMatch(l, k); }
    hide Matches, HasKey, KeyOf, ContainerPartialLabels;
  }

  lemma AddKeepsOneEach(series: Store, k: Key, r: Record, n: nat)
    requires OneEach(series) && n <= 4
    ensures OneEach(Exec(series, Body(AddImage(k, r)), n))
  {
    var body := Body(AddImage(k, r));
    DeletesKeepOneEach(series, body, if n <= 2 then n else 2);
    if n >= 3 {
      DeletedNone(series, k);
      assert Exec(series, body, 1) == Effect(series, body[0]);
      var gone := Exec(series, body, 2);
      assert gone == Effect(Effect(series, body[0]), body[1]);
      hide OneEach, NoneOf, Matches;
      AddingKeepsOneEach(gone, Version, k, r);
      var added := gone[RowOf(Version, k, r) := RowValue(Version, k, r)];
      assert NoneOf(added, Checked, k) by { StillNone(gone, k, r); }
      AddingKeepsOneEach(added, Checked, k, r);
      assert Exec(series, body, 3) == added;
      assert n == 4 ==> Exec(series, body, 4) == added[RowOf(Checked, k, r) := RowValue(Checked, k, r)];
    }
  }

  lemma StillNone(series: Store, k: Key, r: Record)
    requires NoneOf(series, Checked, k)
    ensures NoneOf(series[RowOf(Version, k, r) := RowValue(Version, k, r)], Checked, k)
  {
  }

  lemma SameGaugesOneEach(a: Store, b: Store)
    requires Gauges(a) == Gauges(b) && OneEach(a)
    ensures OneEach(b)
  {
    hide HasKey, KeyOf;
    forall x | x in b && IsGauge(x) ensures x in a { assert x in Gauges(b); }
  }

  lemma CallKeepsOneEach(series: Store, c: Call, pc: nat)
    requires OneEach(series) && pc <= |Body(c)|
    ensures OneEach(Exec(series, Body(c), pc))
  {
    hide OneEach, Exec;
    match c {
      case AddImage(k, r) => AddKeepsOneEach(series, k, r, pc);
      case RemoveImage(k) => DeletesKeepOneEach(series, Body(c), pc);
      case RemovePod(p) => DeletesKeepOneEach(series, Body(c), pc);
      case _ =>
        LookupsKeepGauges(series, c, pc);
        SameGaugesOneEach(series, Exec(series, Body(c), pc));
    }
  }

  /** In every reachable state, also in the middle of a call, each vec has at most one series per container. */
  lemma OneSeriesPerContainer(run: seq<State>, n: nat)
    requires IsRun(run) && n < |run| && run[0].series == map[]
    ensures OneEach(run[n].series)
  {
    hide IsRun, OneEach, Holds, Exec, Gauges;
    var base := RunRefines(run, n);
    HoldsOneEach(base, Run(History(run, n)));
    if t: Tid :| run[n].holder == Some(t) {
      var c, pc := run[n].PhaseOf(t).call, run[n].PhaseOf(t).pc;
      CallKeepsOneEach(base, c, pc);
      SameGaugesOneEach(Exec(base, Body(c), pc), run[n].series);
    }
  }
}
