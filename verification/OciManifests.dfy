/** The OCI client's manifest look-ups: one worker per tag of a list, behind one semaphore. */
module OciManifests {
  import opened WorkerPool
  import Runs

  /** The tag list, the worker limit, and how each look-up ends; nothing is recorded for a failed one. */
  datatype Task = Task(tags: seq<string>, numWorkers: nat, outcome: nat -> Outcome)

  ghost predicate ValidTask(t: Task) {
    t.numWorkers > 0 && forall i: nat :: !t.outcome(i).Failure?
  }

  function PoolConfig(t: Task): Config {
    Config(t.numWorkers, (w: Id) => t.outcome(w.index))
  }

  /** Where Manifests is: in its go loop, in wg.Wait, or returned. */
  datatype Main = Starting(next: nat) | Waiting | Returned

  datatype State = State(main: Main, pool: Pool)

  function Initial(t: Task): State {
    State(Starting(0), AddToGroup(EMPTY, |t.tags|))
  }

  predicate MainCanStep(s: State) {
    s.main.Starting? || (s.main.Waiting? && s.pool.wg == 0)
  }

  function MainStep(t: Task, s: State): State
    requires MainCanStep(s)
  {
    match s.main
    case Starting(next) =>
      if next < |t.tags| then State(Starting(next + 1), Spawn(s.pool, Id(0, next))) else s.(main := Waiting)
    case Waiting => s.(main := Returned)
  }

  predicate IsMainStep(t: Task, s: State, s': State) {
    MainCanStep(s) && s' == MainStep(t, s)
  }

  predicate IsWorkerStep(t: Task, s: State, s': State, w: Id) {
    CanStep(PoolConfig(t), s.pool, w) && s' == s.(pool := Step(PoolConfig(t), s.pool, w))
  }

  ghost predicate Next(t: Task, s: State, s': State) {
    IsMainStep(t, s, s') || exists w :: IsWorkerStep(t, s, s', w)
  }

  function IsInitial(t: Task): State -> bool {
    s => s == Initial(t)
  }

  ghost function Steps(t: Task): (State, State) -> bool {
    (s, s') => Next(t, s, s')
  }

  ghost predicate IsRun(t: Task, run: seq<State>) {
    Runs.IsRun(IsInitial(t), Steps(t), run)
  }

  // ---------- what every reachable state keeps ----------

  function ToStart(t: Task, m: Main): nat {
    if m.Starting? && m.next <= |t.tags| then |t.tags| - m.next else 0
  }

  predicate StartedBy(t: Task, m: Main, w: Id) {
    w.page == 0 && w.index < |t.tags| && (m.Starting? ==> w.index < m.next)
  }

  ghost predicate StateInv(t: Task, s: State) {
    && Inv(PoolConfig(t), s.pool, ToStart(t, s.main))
    && (s.main.Starting? ==> s.main.next <= |t.tags|)
    && (forall w: Id :: w in s.pool.stages <==> StartedBy(t, s.main, w))
    && (s.main.Returned? ==> s.pool.wg == 0)
  }

  lemma InitialInv(t: Task)
    ensures StateInv(t, Initial(t))
  {
    EmptyPoolInv(PoolConfig(t));
    AddKeepsInv(PoolConfig(t), EMPTY, |t.tags|);
  }

  lemma MainStepKeepsInv(t: Task, s: State)
    requires StateInv(t, s) && MainCanStep(s)
    ensures StateInv(t, MainStep(t, s))
  {
    hide Inv;
    if s.main.Starting? && s.main.next < |t.tags| {
      SpawnKeepsInv(PoolConfig(t), s.pool, Id(0, s.main.next), |t.tags| - s.main.next);
    }
  }

  lemma AllDone(t: Task, s: State, w: Id)
    requires StateInv(t, s) && s.main.Returned? && w in s.pool.stages
    ensures s.pool.stages[w].Done?
  {
    ZeroMeansDone(PoolConfig(t), s.pool, w);
  }

  lemma WorkerStepKeepsInv(t: Task, s: State, w: Id)
    requires StateInv(t, s) && CanStep(PoolConfig(t), s.pool, w)
    ensures StateInv(t, s.(pool := Step(PoolConfig(t), s.pool, w)))
  {
    StepKeepsInv(PoolConfig(t), s.pool, w, ToStart(t, s.main));
    hide Inv;
    if s.main.Returned? { AllDone(t, s, w); }
  }

  lemma NextKeepsInv(t: Task, s: State, s': State)
    requires StateInv(t, s) && Next(t, s, s')
    ensures StateInv(t, s')
  {
    hide StateInv, MainStep, Step;
    if IsMainStep(t, s, s') {
      MainStepKeepsInv(t, s);
    } else {
      var w :| IsWorkerStep(t, s, s', w);
      WorkerStepKeepsInv(t, s, w);
    }
  }

  ghost function Invariant(t: Task): State -> bool {
    s => StateInv(t, s)
  }

  lemma InvariantIsKept(t: Task)
    ensures Runs.IsInvariant(IsInitial(t), Steps(t), Invariant(t))
  {
    hide StateInv, Next;
    InitialInv(t);
    forall s, s' | Invariant(t)(s) && Steps(t)(s, s') ensures Invariant(t)(s') {
      NextKeepsInv(t, s, s');
    }
  }

  lemma RunKeepsInv(t: Task, run: seq<State>, n: nat)
    requires IsRun(t, run) && n < |run|
    ensures StateInv(t, run[n])
  {
    hide StateInv, Next;
    InvariantIsKept(t);
    Runs.HoldsThroughout(IsInitial(t), Steps(t), Invariant(t), run, n);
  }

  // ---------- the properties ----------

  /** In every reachable state at most numWorkers workers are past the semaphore. */
  lemma BoundedWorkers(t: Task, run: seq<State>, n: nat)
    requires IsRun(t, run) && n < |run|
    ensures var stages := run[n].pool.stages;
      |set w | w in stages && stages[w] in {Fetching, Ready, Locked, Appended, Unlocked}| <= t.numWorkers
  {
    RunKeepsInv(t, run, n);
    var p := run[n].pool;
    assert p.InUse(0) == |Holders(p, 0)|;
    assert (set w | w in p.stages && p.stages[w] in {Fetching, Ready, Locked, Appended, Unlocked}) == Holders(p, 0);
  }

  /** In every reachable state at most one worker is between Lock and Unlock. */
  lemma OneWorkerAppends(t: Task, run: seq<State>, n: nat)
    requires IsRun(t, run) && n < |run|
    ensures var stages := run[n].pool.stages;
      forall v, w :: v in stages && w in stages && stages[v] in {Locked, Appended} && stages[w] in {Locked, Appended}
        ==> v == w
  {
    RunKeepsInv(t, run, n);
  }

  /** Until Manifests has returned some step is enabled. */
  lemma NeverStuck(t: Task, run: seq<State>, n: nat)
    requires ValidTask(t) && IsRun(t, run) && n < |run| && !run[n].main.Returned?
    ensures exists s' :: Next(t, run[n], s')
  {
    hide IsRun, MainStep, Step;
    RunKeepsInv(t, run, n);
    var s := run[n];
    if w :| w in Unfinished(s.pool) {
      var v := SomeWorkerCanStep(PoolConfig(t), s.pool, ToStart(t, s.main), w);
      var s' := s.(pool := Step(PoolConfig(t), s.pool, v));
      assert IsWorkerStep(t, s, s', v);
      assert Next(t, s, s');
    } else {
      assert Unfinished(s.pool) == {};
      assert Next(t, s, MainStep(t, s));
    }
  }

  /**
   On return each input position is in the result exactly once if its worker reached the append, and not
   at all otherwise; the result holds nothing else.
   */
  lemma ResultIsExact(t: Task, run: seq<State>, n: nat, w: Id)
    requires ValidTask(t) && IsRun(t, run) && n < |run| && run[n].main.Returned?
    ensures multiset(run[n].pool.entries)[w] ==
      if w.page == 0 && w.index < |t.tags| && t.outcome(w.index).Success? then 1 else 0
  {
    hide IsRun;
    RunKeepsInv(t, run, n);
    var p := run[n].pool;
    assert w in p.stages <==> StartedBy(t, run[n].main, w);
    if w in p.stages { AllDone(t, run[n], w); }
    assert multiset(p.entries)[w] == RecordedTimes(PoolConfig(t), p, w, Success);
  }

  function NameOf(t: Task, w: Id): string {
    if w.index < |t.tags| then t.tags[w.index] else ""
  }

  /** The tag names of the entries. */
  function Names(t: Task, entries: seq<Id>): seq<string> {
    if entries == [] then [] else Names(t, entries[..|entries| - 1]) + [NameOf(t, entries[|entries| - 1])]
  }

  /** The input positions whose look-up succeeds, in input order. */
  function Succeeding(t: Task, n: nat): seq<Id> {
    if n == 0 then []
    else if t.outcome(n - 1).Success? then Succeeding(t, n - 1) + [Id(0, n - 1)]
    else Succeeding(t, n - 1)
  }

  lemma {:induction false} SucceedingOnce(t: Task, n: nat, w: Id)
    ensures multiset(Succeeding(t, n))[w] == if w.page == 0 && w.index < n && t.outcome(w.index).Success? then 1 else 0
  {
    if n > 0 {
      SucceedingOnce(t, n - 1, w);
      var before := Succeeding(t, n - 1);
      if t.outcome(n - 1).Success? {
        MultisetOfSnoc(before, Id(0, n - 1));
      }
    }
  }

  lemma {:induction false} NamesOfConcat(t: Task, a: seq<Id>, b: seq<Id>)
    ensures Names(t, a + b) == Names(t, a) + Names(t, b)
  {
    if b == [] {
      assert a + b == a;
    } else {
      var n := |a + b| - 1;
      assert (a + b)[..n] == a + b[..|b| - 1] && (a + b)[n] == b[|b| - 1];
      NamesOfConcat(t, a, b[..|b| - 1]);
    }
  }

  /** The names of a permuted list are a permutation of the names. */
  lemma {:induction false} NamesOfPermuted(t: Task, a: seq<Id>, b: seq<Id>)
    requires multiset(a) == multiset(b)
    ensures multiset(Names(t, a)) == multiset(Names(t, b))
    decreases |a|
  {
    if a == [] {
      assert b == [] by { assert |multiset(b)| == 0; }
    } else {
      var front, last := a[..|a| - 1], a[|a| - 1];
      assert a == front + [last];
      var before, after := WithoutOne(front, last, b);
      NamesOfPermuted(t, front, before + after);
      NamesOfConcat(t, before, after);
      NamesOfConcat(t, before, [last] + after);
      NamesOfConcat(t, [last], after);
      assert Names(t, [last]) == [NameOf(t, last)] by { assert [last][..0] == []; }
    }
  }

  lemma MultisetOfSnoc<T>(s: seq<T>, x: T)
    ensures multiset(s + [x]) == multiset(s) + multiset{x}
  {
  }

  lemma MultisetWithout<T>(s: seq<T>, i: nat)
    requires i < |s|
    ensures s == s[..i] + ([s[i]] + s[i + 1..])
    ensures multiset(s) == multiset(s[..i] + s[i + 1..]) + multiset{s[i]}
  {
    assert s == s[..i] + ([s[i]] + s[i + 1..]);
  }

  lemma CancelOne<T>(a: multiset<T>, b: multiset<T>, x: T)
    requires a + multiset{x} == b + multiset{x}
    ensures a == b
  {
    assert a == (a + multiset{x}) - multiset{x};
    assert b == (b + multiset{x}) - multiset{x};
  }

  lemma WithoutOne<T>(front: seq<T>, last: T, b: seq<T>) returns (before: seq<T>, after: seq<T>)
    requires multiset(front + [last]) == multiset(b)
    ensures b == before + ([last] + after) && multiset(front) == multiset(before + after)
  {
    MultisetOfSnoc(front, last);
    assert last in multiset(b);
    var i :| 0 <= i < |b| && b[i] == last;
    before, after := b[..i], b[i + 1..];
    MultisetWithout(b, i);
    CancelOne(multiset(front), multiset(before + after), last);
  }

  /** The result's tag names are, as a multiset, the names of the inputs whose look-up succeeds. */
  lemma ResultNames(t: Task, run: seq<State>, n: nat)
    requires ValidTask(t) && IsRun(t, run) && n < |run| && run[n].main.Returned?
    ensures multiset(Names(t, run[n].pool.entries)) == multiset(Names(t, Succeeding(t, |t.tags|)))
  {
    hide IsRun, ValidTask;
    var entries, expected := run[n].pool.entries, Succeeding(t, |t.tags|);
    forall w: Id ensures multiset(entries)[w] == multiset(expected)[w] {
      ResultIsExact(t, run, n, w);
      SucceedingOnce(t, |t.tags|, w);
    }
    NamesOfPermuted(t, entries, expected);
  }

  // ---------- termination ----------

  function MainWork(t: Task, m: Main): nat {
    match m
    case Starting(_) => 8 * ToStart(t, m) + 2
    case Waiting => 1
    case Returned => 0
  }

  function Rank(t: Task, s: State): nat {
    MainWork(t, s.main) + Work(s.pool)
  }

  lemma NextLowersRank(t: Task, s: State, s': State)
    requires StateInv(t, s) && Next(t, s, s')
    ensures Rank(t, s') < Rank(t, s)
  {
    hide Inv, Work, Step;
    if IsMainStep(t, s, s') {
      if s.main.Starting? && s.main.next < |t.tags| { SpawnAddsWork(s.pool, Id(0, s.main.next)); }
    } else {
      var w :| IsWorkerStep(t, s, s', w);
      StepDoesWork(PoolConfig(t), s.pool, w);
    }
  }

  /** Every run is finite: at most eight steps per tag and two more. */
  lemma RunsAreBounded(t: Task, run: seq<State>)
    requires IsRun(t, run)
    ensures |run| - 1 + Rank(t, run[|run| - 1]) <= 8 * |t.tags| + 2
  {
    hide Rank, StateInv, Next;
    InvariantIsKept(t);
    InitialRank(t);
    var rank := (s: State) => Rank(t, s);
    forall s, s' | Invariant(t)(s) && Steps(t)(s, s') ensures rank(s') < rank(s) {
      NextLowersRank(t, s, s');
    }
    Runs.RankBounds(IsInitial(t), Steps(t), Invariant(t), rank, run, |run| - 1);
  }

  lemma InitialRank(t: Task)
    ensures Rank(t, Initial(t)) == 8 * |t.tags| + 2
  {
    assert forall k: nat :: Left(Initial(t).pool, k) == {};
  }
}
