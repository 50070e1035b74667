/**
 The quay pager: a paging loop that starts one worker per tag of each page, each page with a
 semaphore of its own, and waits for all of them once the last page is in.
 */
module QuayPager {
  import opened WorkerPool
  import Runs

  const PAGE_LIMIT := 60
  const PAGE_WORKERS := 10

  /** What the registry says about a page: an error, or its number of tags and whether more follow. */
  datatype Response = PageError | Page(count: nat, hasAdditional: bool)

  /** The answers of the registry, fixed ahead; fetching a manifest gives an entry or an error, never nothing. */
  datatype Registry = Registry(responses: nat -> Response, manifestFound: Id -> bool)

  function PoolConfig(r: Registry): Config {
    Config(PAGE_WORKERS, w => if r.manifestFound(w) then Success else Failure)
  }

  /** Where fetchTags is. */
  datatype Main =
    | Paging(page: nat, hasAdditional: bool)                           // at the loop head
    | Starting(page: nat, next: nat, count: nat, hasAdditional: bool)  // in the go loop of a page
    | Waiting(pages: int)                                              // in wg.Wait
    | Failed                                                           // returned an error
    | Returned(pages: int)                                             // returned nil

  datatype State = State(main: Main, pool: Pool)

  const INITIAL := State(Paging(1, true), EMPTY)

  /** The loop's own next step; wg.Wait blocks until the group is at zero. */
  predicate MainCanStep(s: State) {
    match s.main
    case Failed => false
    case Returned(_) => false
    case Waiting(_) => s.pool.wg == 0
    case _ => true
  }

  function MainStep(r: Registry, s: State): State
    requires MainCanStep(s)
  {
    match s.main
    case Paging(page, hasAdditional) =>
      if hasAdditional && page < PAGE_LIMIT then
        match r.responses(page)
        case PageError => s.(main := Failed)
        case Page(count, more) => State(Starting(page, 0, count, more), AddToGroup(s.pool, count))
      else s.(main := Waiting(page - 1))
    case Starting(page, next, count, more) =>
      if next < count then State(Starting(page, next + 1, count, more), Spawn(s.pool, Id(page, next)))
      else s.(main := Paging(page + 1, more))
    case Waiting(pages) => s.(main := Returned(pages))
  }

  predicate IsMainStep(r: Registry, s: State, s': State) {
    MainCanStep(s) && s' == MainStep(r, s)
  }

  predicate IsWorkerStep(r: Registry, s: State, s': State, w: Id) {
    CanStep(PoolConfig(r), s.pool, w) && s' == s.(pool := Step(PoolConfig(r), s.pool, w))
  }

  ghost predicate Next(r: Registry, s: State, s': State) {
    IsMainStep(r, s, s') || exists w :: IsWorkerStep(r, s, s', w)
  }

  predicate IsInitial(s: State) {
    s == INITIAL
  }

  ghost function Steps(r: Registry): (State, State) -> bool {
    (s, s') => Next(r, s, s')
  }

  ghost predicate IsRun(r: Registry, run: seq<State>) {
    Runs.IsRun(IsInitial, Steps(r), run)
  }

  // ---------- what every reachable state keeps ----------

  function CountOf(r: Registry, page: nat): nat {
    match r.responses(page)
    case PageError => 0
    case Page(count, _) => count
  }

  predicate MoreAfter(r: Registry, page: nat) {
    r.responses(page).Page? && r.responses(page).hasAdditional
  }

  /** Pages 1 to n came in, and each but perhaps the last promised another. */
  predicate PagesIn(r: Registry, n: int) {
    n < PAGE_LIMIT
    && forall q: nat :: 1 <= q <= n ==> r.responses(q).Page? && (q < n ==> MoreAfter(r, q))
  }

  /** The loop variables are what the pages so far make them. */
  ghost predicate MainInv(r: Registry, m: Main) {
    match m
    case Paging(page, more) => page >= 1 && PagesIn(r, page - 1) && (more <==> page == 1 || MoreAfter(r, page - 1))
    case Starting(page, next, count, more) =>
      page >= 1 && PagesIn(r, page) && r.responses(page) == Page(count, more) && next <= count
    case Waiting(pages) => Complete(r, pages)
    case Returned(pages) => Complete(r, pages)
    case Failed => exists page: nat :: FailsAt(r, page)
  }

  /** The page is asked for and gives an error. */
  predicate FailsAt(r: Registry, page: nat) {
    && 1 <= page < PAGE_LIMIT && PagesIn(r, page - 1) && (page == 1 || MoreAfter(r, page - 1))
    && r.responses(page).PageError?
  }

  /** Paging ended at this page: the limit, or the first page that promises no other. */
  predicate Complete(r: Registry, pages: int) {
    pages >= 1 && PagesIn(r, pages) && (pages == PAGE_LIMIT - 1 || !MoreAfter(r, pages))
  }

  /** The item has been started. */
  predicate StartedBy(r: Registry, m: Main, w: Id) {
    match m
    case Paging(page, _) => 1 <= w.page < page && w.index < CountOf(r, w.page)
    case Starting(page, next, _, _) =>
      (1 <= w.page < page && w.index < CountOf(r, w.page)) || (w.page == page && w.index < next)
    case Waiting(pages) => 1 <= w.page <= pages && w.index < CountOf(r, w.page)
    case Returned(pages) => 1 <= w.page <= pages && w.index < CountOf(r, w.page)
    case Failed => false
  }

  function ToStart(m: Main): nat {
    if m.Starting? && m.next <= m.count then m.count - m.next else 0
  }

  ghost predicate StateInv(r: Registry, s: State) {
    && Inv(PoolConfig(r), s.pool, ToStart(s.main))
    && MainInv(r, s.main)
    && (!s.main.Failed? ==> forall w: Id :: w in s.pool.stages <==> StartedBy(r, s.main, w))
    && (s.main.Returned? ==> s.pool.wg == 0)
  }

  lemma InitialInv(r: Registry)
    ensures StateInv(r, INITIAL)
  {
    EmptyPoolInv(PoolConfig(r));
  }

  lemma MainStepKeepsInv(r: Registry, s: State)
    requires StateInv(r, s) && MainCanStep(s)
    ensures StateInv(r, MainStep(r, s))
  {
    hide Inv;
    var cfg := PoolConfig(r);
    match s.main {
      case Paging(page, more) =>
        if more && page < PAGE_LIMIT && r.responses(page).Page? {
          AddKeepsInv(cfg, s.pool, r.responses(page).count);
        } else if more && page < PAGE_LIMIT {
          assert FailsAt(r, page);
        }
      case Starting(page, next, count, more) =>
        if next < count { SpawnKeepsInv(cfg, s.pool, Id(page, next), count - next); }
      case Waiting(pages) =>
    }
  }

  lemma WorkerStepKeepsInv(r: Registry, s: State, w: Id)
    requires StateInv(r, s) && CanStep(PoolConfig(r), s.pool, w)
    ensures StateInv(r, s.(pool := Step(PoolConfig(r), s.pool, w)))
  {
    StepKeepsInv(PoolConfig(r), s.pool, w, ToStart(s.main));
    hide Inv;
    if s.main.Returned? {
      NoStepAfterReturn(r, s, w);
    }
  }

  lemma NoStepAfterReturn(r: Registry, s: State, w: Id)
    requires StateInv(r, s) && s.main.Returned? && w in s.pool.stages
    ensures s.pool.stages[w].Done?
  {
    ZeroMeansDone(PoolConfig(r), s.pool, w);
  }

  lemma NextKeepsInv(r: Registry, s: State, s': State)
    requires StateInv(r, s) && Next(r, s, s')
    ensures StateInv(r, s')
  {
    hide StateInv, MainStep, Step;
    if IsMainStep(r, s, s') {
      MainStepKeepsInv(r, s);
    } else {
      var w :| IsWorkerStep(r, s, s', w);
      WorkerStepKeepsInv(r, s, w);
    }
  }

  ghost function Invariant(r: Registry): State -> bool {
    s => StateInv(r, s)
  }

  lemma InvariantIsKept(r: Registry)
    ensures Runs.IsInvariant(IsInitial, Steps(r), Invariant(r))
  {
    hide StateInv, Next;
    InitialInv(r);
    forall s, s' | Invariant(r)(s) && Steps(r)(s, s') ensures Invariant(r)(s') {
      NextKeepsInv(r, s, s');
    }
  }

  lemma RunKeepsInv(r: Registry, run: seq<State>, n: nat)
    requires IsRun(r, run) && n < |run|
    ensures StateInv(r, run[n])
  {
    hide StateInv, Next;
    InvariantIsKept(r);
    Runs.HoldsThroughout(IsInitial, Steps(r), Invariant(r), run, n);
  }

  // ---------- the properties ----------

  /** In every reachable state at most ten workers of a page hold its semaphore and at most one worker appends. */
  lemma BoundedAndExclusive(r: Registry, run: seq<State>, n: nat, page: nat)
    requires IsRun(r, run) && n < |run|
    ensures var stages := run[n].pool.stages;
      |set w | w in stages && w.page == page && stages[w] in {Fetching, Ready, Locked, Appended, Unlocked}| <= 10
    ensures var stages := run[n].pool.stages;
      forall v, w :: v in stages && w in stages && stages[v] in {Locked, Appended} && stages[w] in {Locked, Appended}
        ==> v == w
  {
    RunKeepsInv(r, run, n);
    var p := run[n].pool;
    assert p.InUse(page) == |Holders(p, page)|;
    HoldersAre(p, page);
  }

  /** No reachable state is stuck: while the loop runs or a worker is unfinished, some step is enabled. */
  lemma NeverStuck(r: Registry, run: seq<State>, n: nat)
    requires IsRun(r, run) && n < |run|
    requires Unfinished(run[n].pool) != {} || !(run[n].main.Failed? || run[n].main.Returned?)
    ensures exists s' :: Next(r, run[n], s')
  {
    hide IsRun, MainStep, Step;
    RunKeepsInv(r, run, n);
    var s := run[n];
    if w :| w in Unfinished(s.pool) {
      var v := SomeWorkerCanStep(PoolConfig(r), s.pool, ToStart(s.main), w);
      var s' := s.(pool := Step(PoolConfig(r), s.pool, v));
      assert IsWorkerStep(r, s, s', v);
      assert Next(r, s, s');
    } else {
      assert Unfinished(s.pool) == {};
      assert Next(r, s, MainStep(r, s));
    }
  }

  /**
   When fetchTags returns nil it has read at most 59 pages, up to the first that promises no other, and
   each item of each of those pages is recorded exactly once: among the tags if its manifest was found,
   else among the errors. Nothing else is recorded.
   */
  lemma EachItemOnce(r: Registry, run: seq<State>, n: nat, w: Id)
    requires IsRun(r, run) && n < |run| && run[n].main.Returned?
    ensures var pages := run[n].main.pages; var p := run[n].pool;
      var due := 1 <= w.page <= pages && w.index < CountOf(r, w.page);
      && pages <= 59 && Complete(r, pages)
      && multiset(p.entries)[w] == (if due && r.manifestFound(w) then 1 else 0)
      && multiset(p.errs)[w] == (if due && !r.manifestFound(w) then 1 else 0)
  {
    hide IsRun;
    RunKeepsInv(r, run, n);
    var p := run[n].pool;
    assert w in p.stages <==> StartedBy(r, run[n].main, w);
    if w in p.stages { NoStepAfterReturn(r, run[n], w); }
    assert multiset(p.entries)[w] == RecordedTimes(PoolConfig(r), p, w, Success);
    assert multiset(p.errs)[w] == RecordedTimes(PoolConfig(r), p, w, Failure);
  }

  /** Which pages were read: each before the last promised another, and the last is number 59 or promises none. */
  lemma PagesRead(r: Registry, run: seq<State>, n: nat)
    requires IsRun(r, run) && n < |run| && run[n].main.Returned?
    ensures var pages := run[n].main.pages;
      && 1 <= pages <= 59
      && (forall q: nat :: 1 <= q < pages ==> r.responses(q).Page? && r.responses(q).hasAdditional)
      && r.responses(pages).Page? && (pages == 59 || !r.responses(pages).hasAdditional)
  {
    hide IsRun, Inv;
    RunKeepsInv(r, run, n);
  }

  /** An error is returned only for a page that gave one, and only if no page before it gave one or was the last. */
  lemma FailsOnlyOnPageError(r: Registry, run: seq<State>, n: nat)
    requires IsRun(r, run) && n < |run| && run[n].main.Failed?
    ensures exists page: nat ::
      && 1 <= page < 60 && r.responses(page).PageError?
      && forall q: nat :: 1 <= q < page ==> r.responses(q).Page? && r.responses(q).hasAdditional
  {
    hide IsRun, Inv;
    RunKeepsInv(r, run, n);
    var page: nat :| FailsAt(r, page);
  }

  // ---------- termination ----------

  /** What the loop and its workers can still do from the head of a page on. */
  function WorkFrom(r: Registry, page: nat): nat
    decreases PAGE_LIMIT - page
  {
    if page >= PAGE_LIMIT then 2 else 8 * CountOf(r, page) + 2 + WorkFrom(r, page + 1)
  }

  function MainWork(r: Registry, m: Main): nat {
    match m
    case Paging(page, _) => WorkFrom(r, page)
    case Starting(page, _, _, _) => 8 * ToStart(m) + 1 + WorkFrom(r, page + 1)
    case Waiting(_) => 1
    case Failed => 0
    case Returned(_) => 0
  }

  function Rank(r: Registry, s: State): nat {
    MainWork(r, s.main) + Work(s.pool)
  }

  lemma MainStepLowersRank(r: Registry, s: State)
    requires StateInv(r, s) && MainCanStep(s)
    ensures Rank(r, MainStep(r, s)) < Rank(r, s)
  {
    hide Inv, Left;
    match s.main {
      case Paging(page, more) =>
        if more && page < PAGE_LIMIT && r.responses(page).Page? {
          SameWork(s.pool, AddToGroup(s.pool, r.responses(page).count));
        }
      case Starting(page, next, count, more) =>
        if next < count {
          SpawnAddsWork(s.pool, Id(page, next));
        }
      case Waiting(_) =>
    }
  }

  lemma SameWork(p: Pool, q: Pool)
    requires p.stages == q.stages
    ensures Work(p) == Work(q)
  {
    assert forall n: nat :: Left(p, n) == Left(q, n);
  }

  lemma NextLowersRank(r: Registry, s: State, s': State)
    requires StateInv(r, s) && Next(r, s, s')
    ensures Rank(r, s') < Rank(r, s)
  {
    hide StateInv, Work, MainStep, Step;
    if IsMainStep(r, s, s') {
      MainStepLowersRank(r, s);
    } else {
      var w :| IsWorkerStep(r, s, s', w);
      StepDoesWork(PoolConfig(r), s.pool, w);
    }
  }

  /** Every run is finite: it is no longer than the work its pages hold. */
  lemma RunsAreBounded(r: Registry, run: seq<State>)
    requires IsRun(r, run)
    ensures |run| - 1 + Rank(r, run[|run| - 1]) <= WorkFrom(r, 1)
  {
    hide Rank, StateInv, Next;
    InvariantIsKept(r);
    InitialRank(r);
    var rank := (s: State) => Rank(r, s);
    forall s, s' | Invariant(r)(s) && Steps(r)(s, s') ensures rank(s') < rank(s) {
      NextLowersRank(r, s, s');
    }
    Runs.RankBounds(IsInitial, Steps(r), Invariant(r), rank, run, |run| - 1);
  }

  lemma InitialRank(r: Registry)
    ensures Rank(r, INITIAL) == WorkFrom(r, 1)
  {
    assert forall k: nat :: Left(EMPTY, k) == {};
  }
}
