/**
 The metrics store as a concurrent program: threads calling its methods under one mutex while the
 pod reader changes underneath. A state holds every series with its value.
 */
module MetricsRaces {
  import opened Wrappers
  import opened Metrics
  import Runs

  datatype PodName = PodName(namespace: string, name: string)

  datatype VecName = Version | Duration | Checked | Errors

  datatype Series = Series(vec: VecName, labels: Labels)

  /** The series there are, with their values. */
  type Store = map<Series, real>

  predicate SeriesOf(l: Labels, p: PodName) {
    l.namespace == Some(p.namespace) && l.pod == Some(p.name)
  }

  // ---------- the methods ----------

  datatype Call =
    | RegisterImageDuration(pod: PodName, container: string, image: string, seconds: real)
    | ReportError(pod: PodName, container: string, image: string)
    | AddImage(key: Key, record: Record)
    | RemoveImage(key: Key)
    | RemovePod(pod: PodName)

  datatype Instruction =
    | CheckPod(pod: PodName)
    | Delete(vec: VecName, partial: Labels)
    | Set(series: Series, value: real)
    | Increment(series: Series)

  predicate IsCheck(c: Call) {
    c.RegisterImageDuration? || c.ReportError?
  }

  /** What a method does between Lock and Unlock, in order. */
  function Body(c: Call): (body: seq<Instruction>)
    ensures |body| == if IsCheck(c) then 2 else 4
  {
    match c
    case RegisterImageDuration(p, container, image, seconds) =>
      [CheckPod(p), Set(Series(Duration, LookupLabels(p.namespace, p.name, container, image)), seconds)]
    case ReportError(p, container, image) =>
      [CheckPod(p), Increment(Series(Errors, LookupLabels(p.namespace, p.name, container, image)))]
    case AddImage(k, r) =>
      [Delete(Version, ContainerPartialLabels(k)), Delete(Checked, ContainerPartialLabels(k)),
       Set(Series(Version, VersionRow(k, r).labels), VersionRow(k, r).value),
       Set(Series(Checked, CheckedRow(k, r).labels), CheckedRow(k, r).value)]
    case RemoveImage(k) => Deletes(ContainerPartialLabels(k))
    case RemovePod(p) => Deletes(PodPartialLabels(p.namespace, p.name))
  }

  /** The same delete on all four vecs. */
  function Deletes(partial: Labels): seq<Instruction> {
    [Delete(Version, partial), Delete(Duration, partial), Delete(Checked, partial), Delete(Errors, partial)]
  }

  function Effect(series: Store, i: Instruction): Store {
    match i
    case CheckPod(_) => series
    case Delete(vec, partial) => map x | x in series && !(x.vec == vec && Matches(x.labels, partial)) :: series[x]
    case Set(x, value) => series[x := value]
    case Increment(x) => series[x := (if x in series then series[x] else 0.0) + 1.0]
  }

  // ---------- steps ----------

  /** Where a thread is in its call; it is inside the lock while Running. */
  datatype Phase = Idle | Waiting(call: Call) | Running(call: Call, pc: nat)

  type Tid = nat

  datatype State = State(present: set<PodName>, holder: Option<Tid>, phases: map<Tid, Phase>, series: Store) {
    function PhaseOf(t: Tid): Phase {
      if t in phases then phases[t] else Idle
    }

    function Move(t: Tid, p: Phase): State {
      this.(phases := phases[t := p])
    }
  }

  /** The reader's view changes: pods come, go, or get a deletion timestamp. */
  predicate Environment(s: State, s': State) {
    s' == s.(present := s'.present)
  }

  predicate Calls(s: State, s': State, t: Tid, c: Call) {
    s.PhaseOf(t) == Idle && s' == s.Move(t, Waiting(c))
  }

  predicate Acquires(s: State, s': State, t: Tid) {
    && s.PhaseOf(t).Waiting? && s.holder == None
    && s' == s.Move(t, Running(s.PhaseOf(t).call, 0)).(holder := Some(t))
  }

  /**
   The next instruction. PodExists is true only of a pod the reader has, a failing read makes it false of
   any pod, and the method goes straight to its end when it is false.
   */
  predicate Executes(s: State, s': State, t: Tid, answer: bool) {
    match s.PhaseOf(t)
    case Running(c, pc) =>
      && pc < |Body(c)|
      && (match Body(c)[pc]
          case CheckPod(p) =>
            (answer ==> p in s.present) && s' == s.Move(t, Running(c, if answer then pc + 1 else |Body(c)|))
          case i => s' == s.Move(t, Running(c, pc + 1)).(series := Effect(s.series, i)))
    case _ => false
  }

  predicate Releases(s: State, s': State, t: Tid) {
    && s.PhaseOf(t).Running? && s.PhaseOf(t).pc == |Body(s.PhaseOf(t).call)|
    && s' == s.Move(t, Idle).(holder := None)
  }

  predicate ThreadStep(s: State, s': State, t: Tid) {
    Acquires(s, s', t) || Executes(s, s', t, true) || Executes(s, s', t, false) || Releases(s, s', t)
  }

  ghost predicate Next(s: State, s': State) {
    || Environment(s, s')
    || (exists t, c :: Calls(s, s', t, c))
    || (exists t :: ThreadStep(s, s', t))
  }

  predicate Init(s: State) {
    s.holder == None && s.phases == map[]
  }

  ghost predicate IsRun(run: seq<State>) {
    Runs.IsRun(Init, Next, run)
  }

  lemma StepOfRun(run: seq<State>, i: nat)
    requires IsRun(run) && i < |run| - 1
    ensures Next(run[i], run[i + 1])
  {
  }

  // ---------- mutual exclusion ----------

  /** The lock is held by exactly the thread that is inside it. */
  predicate Exclusive(s: State) {
    && (forall t :: t in s.phases ==> (s.phases[t].Running? <==> s.holder == Some(t)))
    && (s.holder.Some? ==> s.holder.value in s.phases)
    && (forall t :: t in s.phases ==> s.phases[t].Running? ==> s.phases[t].pc <= |Body(s.phases[t].call)|)
  }

  lemma StepKeepsExclusive(s: State, s': State, t: Tid)
    requires Exclusive(s) && ThreadStep(s, s', t)
    ensures Exclusive(s')
  {
    hide Body, Effect;
  }

  lemma OutsideKeepsExclusive(s: State, s': State)
    requires Exclusive(s)
    requires Environment(s, s') || exists t, c :: Calls(s, s', t, c)
    ensures Exclusive(s')
  {
    hide Body;
  }

  lemma NextKeepsExclusive(s: State, s': State)
    requires Exclusive(s) && Next(s, s')
    ensures Exclusive(s')
  {
    hide Exclusive, ThreadStep, Calls, Environment;
    if t :| ThreadStep(s, s', t) { StepKeepsExclusive(s, s', t); } else { OutsideKeepsExclusive(s, s'); }
  }

  lemma RunIsExclusive(run: seq<State>, n: nat)
    requires IsRun(run) && n < |run|
    ensures Exclusive(run[n])
  {
    hide Exclusive, Next;
    assert forall s :: Init(s) ==> Exclusive(s) by { InitIsExclusive(); }
    forall s, s' | Exclusive(s) && Next(s, s') ensures Exclusive(s') { NextKeepsExclusive(s, s'); }
    Runs.HoldsThroughout(Init, Next, Exclusive, run, n);
  }

  lemma InitIsExclusive()
    ensures forall s :: Init(s) ==> Exclusive(s)
  {
  }

  /** A step of a thread that is in a call; a check answers no. */
  function ThreadMove(s: State, t: Tid): State {
    match s.PhaseOf(t)
    case Idle => s
    case Waiting(c) => s.Move(t, Running(c, 0)).(holder := Some(t))
    case Running(c, pc) =>
      if pc >= |Body(c)| then s.Move(t, Idle).(holder := None)
      else if Body(c)[pc].CheckPod? then s.Move(t, Running(c, |Body(c)|))
      else s.Move(t, Running(c, pc + 1)).(series := Effect(s.series, Body(c)[pc]))
  }

  /** No reachable state is stuck: while some thread is in a call, some thread can take a step. */
  lemma SomeThreadCanStep(run: seq<State>, n: nat, t: Tid)
    requires IsRun(run) && n < |run| && run[n].PhaseOf(t) != Idle
    ensures exists u, s' :: ThreadStep(run[n], s', u)
  {
    hide IsRun, Body, Effect;
    RunIsExclusive(run, n);
    var s := run[n];
    var u := if s.holder.Some? then s.holder.value else t;
    assert ThreadStep(s, ThreadMove(s, u), u);
  }

  // ---------- what RemovePod achieves ----------

  /** The vec has no series of the pod. */
  predicate NoneIn(s: State, vec: VecName, p: PodName) {
    forall x :: x in s.series && x.vec == vec ==> !SeriesOf(x.labels, p)
  }

  predicate NoSeries(s: State, p: PodName) {
    NoneIn(s, Duration, p) && NoneIn(s, Errors, p)
  }

  /** No version or last-checked series of the pod. */
  predicate NoGauges(s: State, p: PodName) {
    NoneIn(s, Version, p) && NoneIn(s, Checked, p)
  }

  /** No thread is past a positive check for the pod. */
  predicate NonePastCheck(s: State, p: PodName) {
    forall t :: t in s.phases ==>
      !(s.phases[t].Running? && IsCheck(s.phases[t].call) && s.phases[t].call.pod == p && s.phases[t].pc == 1)
  }

  predicate Purged(s: State, p: PodName) {
    NoSeries(s, p) && NonePastCheck(s, p)
  }

  lemma PodLabelsMatch(l: Labels, p: PodName)
    ensures Matches(l, PodPartialLabels(p.namespace, p.name)) <==> SeriesOf(l, p)
  {
  }

  /** The deletes of a RemovePod call before its pc have been done. */
  predicate DeletesDone(s: State, pc: nat, p: PodName) {
    && (pc >= 1 ==> NoneIn(s, Version, p))
    && (pc >= 2 ==> NoneIn(s, Duration, p))
    && (pc >= 3 ==> NoneIn(s, Checked, p))
    && (pc >= 4 ==> NoneIn(s, Errors, p))
  }

  /** Where a RemovePod call for the pod has got. */
  predicate Achieved(s: State, t: Tid, p: PodName) {
    match s.PhaseOf(t)
    case Idle => false
    case Waiting(c) => c == RemovePod(p)
    case Running(c, pc) => c == RemovePod(p) && DeletesDone(s, pc, p)
  }

  /** Only the thread that holds the lock touches a series. */
  lemma OnlyHolderWrites(s: State, s': State, t: Tid)
    requires Exclusive(s) && Next(s, s') && s.holder == Some(t)
    requires s'.PhaseOf(t) == s.PhaseOf(t)
    ensures s'.series == s.series
  {
    hide Body, Effect;
  }

  lemma OwnDelete(s: State, s': State, t: Tid, p: PodName)
    requires Executes(s, s', t, true) || Executes(s, s', t, false)
    requires Achieved(s, t, p)
    ensures Achieved(s', t, p)
  {
    var pc := s.PhaseOf(t).pc;
    forall l ensures Matches(l, PodPartialLabels(p.namespace, p.name)) <==> SeriesOf(l, p) { PodLabelsMatch(l, p); }
    hide Matches, SeriesOf, PodPartialLabels;
    assert Body(RemovePod(p))[pc].Delete?;
  }

  /** The phase of a thread changes only by its own steps. */
  lemma PhaseMoves(s: State, s': State, t: Tid)
    requires Next(s, s')
    ensures s'.PhaseOf(t) == s.PhaseOf(t) || ThreadStep(s, s', t) || exists c :: Calls(s, s', t, c)
  {
    hide Body, Effect;
  }

  lemma AchievedIsKept(s: State, s': State, t: Tid, p: PodName)
    requires Exclusive(s) && Next(s, s') && Achieved(s, t, p) && s'.PhaseOf(t) != Idle
    ensures Achieved(s', t, p)
  {
    hide Next, Body, Effect;
    PhaseMoves(s, s', t);
    if s'.PhaseOf(t) == s.PhaseOf(t) {
      if s.PhaseOf(t).Running? {
        assert t in s.phases;
        OnlyHolderWrites(s, s', t);
      }
    } else if Executes(s, s', t, true) || Executes(s, s', t, false) {
      OwnDelete(s, s', t, p);
    }
  }

  lemma {:induction false} AchievedThroughout(run: seq<State>, t: Tid, p: PodName, call: nat, n: nat)
    requires IsRun(run) && call < n < |run|
    requires run[call].PhaseOf(t) == Idle && run[call + 1].PhaseOf(t) == Waiting(RemovePod(p))
    requires forall i :: call < i <= n ==> run[i].PhaseOf(t) != Idle
    ensures Achieved(run[n], t, p)
    decreases n
  {
    hide IsRun, Next, Exclusive;
    if n > call + 1 {
      AchievedThroughout(run, t, p, call, n - 1);
      RunIsExclusive(run, n - 1);
      StepOfRun(run, n - 1);
      AchievedIsKept(run[n - 1], run[n - 1 + 1], t, p);
    }
  }

  /** Only unlocking ends a call, and it leaves all four vecs without the pod and no thread past a check. */
  lemma ReturningPurges(s: State, s': State, t: Tid, p: PodName)
    requires Exclusive(s) && Next(s, s') && Achieved(s, t, p) && s'.PhaseOf(t) == Idle
    ensures Purged(s', p) && NoGauges(s', p)
  {
    hide Next, Effect;
    PhaseMoves(s, s', t);
    assert Releases(s, s', t);
  }

  /** The call that RemovePod made at `call` is in progress until it returns at `last + 1`. */
  predicate ReturnsAt(run: seq<State>, t: Tid, p: PodName, call: nat, last: nat) {
    && call < last < |run| - 1
    && run[call].PhaseOf(t) == Idle && run[call + 1].PhaseOf(t) == Waiting(RemovePod(p))
    && (forall i :: call < i <= last ==> run[i].PhaseOf(t) != Idle)
    && run[last + 1].PhaseOf(t) == Idle
  }

  lemma ReturnedPurged(run: seq<State>, t: Tid, p: PodName, call: nat, last: nat)
    requires IsRun(run) && ReturnsAt(run, t, p, call, last)
    ensures Purged(run[last + 1], p) && NoGauges(run[last + 1], p)
  {
    hide IsRun, Next, Achieved, Exclusive;
    AchievedThroughout(run, t, p, call, last);
    RunIsExclusive(run, last);
    StepOfRun(run, last);
    ReturningPurges(run[last], run[last + 1], t, p);
  }

  /** The series change only by the instruction of the thread that holds the lock. */
  lemma SeriesChange(s: State, s': State)
    requires Exclusive(s) && Next(s, s') && s'.series != s.series
    ensures s.holder.Some?
    ensures match s.PhaseOf(s.holder.value)
      case Running(c, pc) =>
        && pc < |Body(c)| && !Body(c)[pc].CheckPod? && s'.series == Effect(s.series, Body(c)[pc])
        && s'.PhaseOf(s.holder.value) == Running(c, pc + 1)
      case _ => false
  {
    hide Body, Effect;
  }

  /** An instruction brings no series of the pod into the vec, unless it sets or increments one there. */
  lemma EffectBringsNone(series: Store, i: Instruction, vec: VecName, p: PodName)
    requires forall x :: x in series && x.vec == vec ==> !SeriesOf(x.labels, p)
    requires i.Set? || i.Increment? ==> i.series.vec != vec || !SeriesOf(i.series.labels, p)
    ensures forall x :: x in Effect(series, i) && x.vec == vec ==> !SeriesOf(x.labels, p)
  {
    hide Matches;
  }

  /** Nothing but recording a duration or an error for the pod, past a positive check, brings such a series. */
  lemma LookupsOnlyPastCheck(c: Call, pc: nat, p: PodName)
    requires pc < |Body(c)| && !Body(c)[pc].CheckPod? && !(IsCheck(c) && c.pod == p && pc == 1)
    ensures var i := Body(c)[pc];
      i.Set? || i.Increment? ==> (i.series.vec.Version? || i.series.vec.Checked?) || !SeriesOf(i.series.labels, p)
  {
  }

  // ---------- what a check leads to ----------

  /** A positive check is followed by recording the duration under the four labels, or by counting one more error. */
  lemma PositiveCheckRecords(s: State, s': State, s'': State, t: Tid, p: PodName, container: string, image: string,
                             seconds: real)
    requires s.PhaseOf(t).Running? && s.PhaseOf(t).pc == 0
    requires Executes(s, s', t, true) && (Executes(s', s'', t, true) || Executes(s', s'', t, false))
    ensures var l := Labels(Some(p.namespace), Some(p.name), Some(container), None, Some(image), None, None);
      && (s.PhaseOf(t).call == RegisterImageDuration(p, container, image, seconds) ==>
            p in s.present && s''.series == s.series[Series(Duration, l) := seconds])
      && (s.PhaseOf(t).call == ReportError(p, container, image) ==>
            var x := Series(Errors, l);
            && p in s.present && x in s''.series
            && (x in s.series ==> s''.series == s.series[x := s.series[x] + 1.0])
            && (x !in s.series ==> s''.series == s.series[x := 1.0]))
  {
  }

  /** A negative one leaves the series alone, and the method has only to unlock. */
  lemma NegativeCheckRecordsNothing(s: State, s': State, t: Tid)
    requires s.PhaseOf(t).Running? && IsCheck(s.PhaseOf(t).call) && s.PhaseOf(t).pc == 0
    requires Executes(s, s', t, false)
    ensures s'.series == s.series && s'.PhaseOf(t) == Running(s.PhaseOf(t).call, 2)
  {
  }

  // ---------- duration and error series never come back ----------

  /** While the reader does not have the pod, nothing brings its series back. */
  lemma PurgedIsStable(s: State, s': State, p: PodName)
    requires Exclusive(s) && Next(s, s') && Purged(s, p) && p !in s.present
    ensures Purged(s', p)
  {
    NonePastCheckIsStable(s, s', p);
    hide Next, Body, Effect, NonePastCheck;
    if s'.series != s.series {
      SeriesChange(s, s');
      var t := s.holder.value;
      var c, pc := s.PhaseOf(t).call, s.PhaseOf(t).pc;
      HolderNotPastCheck(s, t, p);
      LookupsOnlyPastCheck(c, pc, p);
      EffectBringsNone(s.series, Body(c)[pc], Duration, p);
      EffectBringsNone(s.series, Body(c)[pc], Errors, p);
    }
  }

  lemma HolderNotPastCheck(s: State, t: Tid, p: PodName)
    requires NonePastCheck(s, p) && s.PhaseOf(t).Running?
    ensures !(IsCheck(s.PhaseOf(t).call) && s.PhaseOf(t).call.pod == p && s.PhaseOf(t).pc == 1)
  {
    assert t in s.phases;
  }

  lemma NonePastCheckIsStable(s: State, s': State, p: PodName)
    requires Exclusive(s) && Next(s, s') && NonePastCheck(s, p) && p !in s.present
    ensures NonePastCheck(s', p)
  {
    hide Effect;
  }

  lemma {:induction false} PurgedThroughout(run: seq<State>, p: PodName, from: nat, n: nat)
    requires IsRun(run) && from <= n < |run| && Purged(run[from], p)
    requires forall i :: from <= i < n ==> p !in run[i].present
    ensures Purged(run[n], p)
    decreases n
  {
    hide IsRun, Next, Exclusive, Purged;
    if n > from {
      PurgedThroughout(run, p, from, n - 1);
      RunIsExclusive(run, n - 1);
      StepOfRun(run, n - 1);
      PurgedIsStable(run[n - 1], run[n - 1 + 1], p);
    }
  }

  /**
   No resurrection, in every interleaving: once a RemovePod call has returned, no duration or error
   series of the pod exists for as long as the reader does not have the pod, whatever any worker had
   already checked when the call began.
   */
  lemma NoResurrection(run: seq<State>, t: Tid, p: PodName, call: nat, last: nat, n: nat)
    requires IsRun(run) && ReturnsAt(run, t, p, call, last) && last < n < |run|
    requires forall i :: last < i < n ==> p !in run[i].present
    ensures NoSeries(run[n], p)
  {
    hide IsRun;
    ReturnedPurged(run, t, p, call, last);
    PurgedThroughout(run, p, last + 1, n);
  }

  // ---------- version and last-checked series come back exactly through AddImage ----------

  /** The step is one of the two in which an AddImage call for the pod sets a series. */
  predicate Adds(s: State, s': State, p: PodName) {
    && s.holder.Some?
    && match s.PhaseOf(s.holder.value)
       case Running(AddImage(k, r), pc) =>
         && PodName(k.namespace, k.pod) == p && 2 <= pc <= 3
         && s'.PhaseOf(s.holder.value) == Running(AddImage(k, r), pc + 1)
       case _ => false
  }

  lemma OtherStepsAddNone(s: State, s': State, p: PodName)
    requires Exclusive(s) && Next(s, s') && NoGauges(s, p) && !Adds(s, s', p)
    ensures NoGauges(s', p)
  {
    hide Next, Body, Effect;
    if s'.series != s.series {
      SeriesChange(s, s');
      var t := s.holder.value;
      var c, pc := s.PhaseOf(t).call, s.PhaseOf(t).pc;
      GaugesOnlyByAdding(c, pc, p);
      EffectBringsNone(s.series, Body(c)[pc], Version, p);
      EffectBringsNone(s.series, Body(c)[pc], Checked, p);
    }
  }

  lemma GaugesOnlyByAdding(c: Call, pc: nat, p: PodName)
    requires pc < |Body(c)|
    requires !(c.AddImage? && PodName(c.key.namespace, c.key.pod) == p && 2 <= pc <= 3)
    ensures var i := Body(c)[pc];
      i.Set? || i.Increment? ==> (i.series.vec.Duration? || i.series.vec.Errors?) || !SeriesOf(i.series.labels, p)
  {
  }

  lemma AddingLeavesOne(s: State, s': State, p: PodName)
    requires Exclusive(s) && Next(s, s') && Adds(s, s', p)
    ensures !NoGauges(s', p)
  {
    hide Matches;
    var t := s.holder.value;
    var c, pc := s.PhaseOf(t).call, s.PhaseOf(t).pc;
    PhaseMoves(s, s', t);
    assert Body(c)[pc].Set? && s'.series == Effect(s.series, Body(c)[pc]);
    assert Body(c)[pc].series in s'.series;
  }

  lemma {:induction false} NoGaugesThroughout(run: seq<State>, p: PodName, from: nat, n: nat)
    requires IsRun(run) && from <= n < |run| && NoGauges(run[from], p)
    requires forall i :: from <= i < n ==> !Adds(run[i], run[i + 1], p)
    ensures NoGauges(run[n], p)
    decreases n
  {
    hide IsRun, Next, Exclusive, NoGauges, Adds;
    if n > from {
      NoGaugesThroughout(run, p, from, n - 1);
      RunIsExclusive(run, n - 1);
      StepOfRun(run, n - 1);
      OtherStepsAddNone(run[n - 1], run[n - 1 + 1], p);
    }
  }

  /**
   In every interleaving, from the return of a RemovePod call up to any later state no version or
   last-checked series of the pod exists exactly when no AddImage call for the pod sets one in between.
   */
  lemma GaugesStayAwayIff(run: seq<State>, t: Tid, p: PodName, call: nat, last: nat, n: nat)
    requires IsRun(run) && ReturnsAt(run, t, p, call, last) && last < n < |run|
    ensures (forall m :: last < m <= n ==> NoGauges(run[m], p))
      <==> (forall i :: last < i < n ==> !Adds(run[i], run[i + 1], p))
  {
    hide IsRun, Next, Exclusive, NoGauges, Adds;
    if forall i :: last < i < n ==> !Adds(run[i], run[i + 1], p) {
      ReturnedPurged(run, t, p, call, last);
      forall m | last < m <= n ensures NoGauges(run[m], p) {
        NoGaugesThroughout(run, p, last + 1, m);
      }
    }
    forall i | last < i < n && Adds(run[i], run[i + 1], p) ensures !NoGauges(run[i + 1], p) {
      RunIsExclusive(run, i);
      StepOfRun(run, i);
      AddingLeavesOne(run[i], run[i + 1], p);
    }
  }

  /** The thread is in an AddImage call for the pod. */
  predicate IsAdding(phase: Phase, p: PodName) {
    !phase.Idle? && phase.call.AddImage? && PodName(phase.call.key.namespace, phase.call.key.pod) == p
  }

  /** No thread is in an AddImage call for the pod. */
  predicate NoneAdding(s: State, p: PodName) {
    forall t :: t in s.phases ==> !IsAdding(s.phases[t], p)
  }

  /** Some thread makes an AddImage call for the pod. */
  ghost predicate CallsAdd(s: State, s': State, p: PodName) {
    exists t: Tid :: s.PhaseOf(t) == Idle && IsAdding(s'.PhaseOf(t), p)
  }

  lemma NoneAddingIsKept(s: State, s': State, p: PodName)
    requires Next(s, s') && NoneAdding(s, p) && !CallsAdd(s, s', p)
    ensures NoneAdding(s', p)
  {
    hide Body, Effect;
    forall t | t in s'.phases ensures !IsAdding(s'.phases[t], p) {
      PhaseMoves(s, s', t);
      assert t in s.phases ==> !IsAdding(s.phases[t], p);
    }
  }

  lemma {:induction false} NoneAddingThroughout(run: seq<State>, p: PodName, from: nat, n: nat)
    requires IsRun(run) && from <= n < |run| && NoneAdding(run[from], p)
    requires forall i :: from <= i < n ==> !CallsAdd(run[i], run[i + 1], p)
    ensures NoneAdding(run[n], p)
    decreases n
  {
    hide IsRun, Next, NoneAdding, CallsAdd;
    if n > from {
      NoneAddingThroughout(run, p, from, n - 1);
      StepOfRun(run, n - 1);
      NoneAddingIsKept(run[n - 1], run[n - 1 + 1], p);
    }
  }

  lemma NotAdding(s: State, s': State, p: PodName)
    requires Exclusive(s) && NoneAdding(s, p)
    ensures !Adds(s, s', p)
  {
  }

  /**
   For a caller: if no AddImage call for the pod is under way when RemovePod returns, and none is made up to a later
   state, no version or last-checked series of the pod exists in that state.
   */
  lemma GaugesStayAway(run: seq<State>, t: Tid, p: PodName, call: nat, last: nat, n: nat)
    requires IsRun(run) && ReturnsAt(run, t, p, call, last) && last < n < |run|
    requires NoneAdding(run[last + 1], p) && forall i :: last < i < n ==> !CallsAdd(run[i], run[i + 1], p)
    ensures NoGauges(run[n], p)
  {
    hide IsRun, Exclusive, NoneAdding, CallsAdd, NoGauges, Adds;
    forall i | last < i < n ensures !Adds(run[i], run[i + 1], p) {
      NoneAddingThroughout(run, p, last + 1, i);
      RunIsExclusive(run, i);
      NotAdding(run[i], run[i + 1], p);
    }
    GaugesStayAwayIff(run, t, p, call, last, n);
  }

  /** The series after the first n instructions. */
  function Exec(series: Store, body: seq<Instruction>, n: nat): Store
    requires n <= |body|
  {
    if n == 0 then series else Effect(Exec(series, body, n - 1), body[n - 1])
  }

  /** A thread in the middle of a call that nothing else interrupts. */
  function Inside(s: State, t: Tid, c: Call, pc: nat): State
    requires pc <= |Body(c)|
  {
    s.Move(t, Running(c, pc)).(holder := Some(t), series := Exec(s.series, Body(c), pc))
  }

  lemma InsideStep(s: State, t: Tid, c: Call, pc: nat)
    requires !IsCheck(c) && pc < 4
    ensures Next(Inside(s, t, c, pc), Inside(s, t, c, pc + 1))
  {
    hide Effect;
    var now, then_ := Inside(s, t, c, pc), Inside(s, t, c, pc + 1);
    assert then_.phases == now.phases[t := Running(c, pc + 1)];
    assert ThreadStep(now, then_, t);
  }

  /** One call that makes no check, from call to return, alone. */
  lemma Alone(s: State, t: Tid, c: Call) returns (run: seq<State>)
    requires s.holder == None && s.PhaseOf(t) == Idle && !IsCheck(c)
    ensures |run| == 8 && run[0] == s && forall i :: 0 <= i < 7 ==> Next(run[i], run[i + 1])
    ensures run[1].PhaseOf(t) == Waiting(c) && forall i :: 1 <= i < 7 ==> run[i].PhaseOf(t) != Idle
    ensures run[7].holder == None && run[7].PhaseOf(t) == Idle
    ensures forall i :: 0 <= i < 8 ==> run[i].present == s.present
    ensures run[7].series == Exec(s.series, Body(c), 4)
  {
    hide Effect, Exec, Next, Body;
    var called := s.Move(t, Waiting(c));
    var done := Inside(s, t, c, 4).Move(t, Idle).(holder := None);
    run := [s, called, Inside(s, t, c, 0), Inside(s, t, c, 1), Inside(s, t, c, 2), Inside(s, t, c, 3),
            Inside(s, t, c, 4), done];
    assert Next(s, called) by { assert Calls(s, called, t, c); IsNext(s, called, t, c); }
    assert Next(called, run[2]) by {
      assert called.Move(t, Running(c, 0)).phases == run[2].phases;
      assert Exec(s.series, Body(c), 0) == s.series by { NoInstructions(s.series, Body(c)); }
      assert ThreadStep(called, run[2], t);
      IsThreadStep(called, run[2], t);
    }
    InsideStep(s, t, c, 0);
    InsideStep(s, t, c, 1);
    InsideStep(s, t, c, 2);
    InsideStep(s, t, c, 3);
    assert Next(run[6], done) by { assert ThreadStep(run[6], done, t); IsThreadStep(run[6], done, t); }
  }

  lemma IsNext(s: State, s': State, t: Tid, c: Call)
    requires Calls(s, s', t, c)
    ensures Next(s, s')
  {
  }

  lemma IsThreadStep(s: State, s': State, t: Tid)
    requires ThreadStep(s, s', t)
    ensures Next(s, s')
  {
  }

  lemma NoInstructions(series: Store, body: seq<Instruction>)
    ensures Exec(series, body, 0) == series
  {
  }

  lemma AddedLast(series: Store, k: Key, r: Record)
    ensures Series(Checked, CheckedRow(k, r).labels) in Exec(series, Body(AddImage(k, r)), 4)
  {
    var body := Body(AddImage(k, r));
    assert Exec(series, body, 4) == Effect(Exec(series, body, 3), body[3]);
  }

  /** AddImage makes no check: a run in which a removed pod's gauges come back, with the pod absent throughout. */
  lemma AddImageResurrects(k: Key, r: Record) returns (run: seq<State>)
    ensures var p := PodName(k.namespace, k.pod);
      && IsRun(run) && |run| == 15 && ReturnsAt(run, 0, p, 0, 6) && !NoGauges(run[14], p)
      && forall i :: 0 <= i < 15 ==> p !in run[i].present
  {
    hide Next, Exec, Effect, Body;
    var p := PodName(k.namespace, k.pod);
    var first := Alone(State({}, None, map[], map[]), 0, RemovePod(p));
    var second := Alone(first[7], 0, AddImage(k, r));
    run := first + second[1..];
    forall i | 0 <= i < 14 ensures Next(run[i], run[i + 1]) {
      if i < 7 {
        assert run[i] == first[i] && run[i + 1] == first[i + 1];
      } else {
        assert run[i] == second[i - 7] && run[i + 1] == second[i - 7 + 1];
      }
    }
    AddedLast(first[7].series, k, r);
    assert run[14] == second[7];
  }
}
