/**
 A bounded pool of goroutines: each takes a slot of its page's semaphore, fetches, appends its
 result under a mutex, and signals a wait group. Both registry clients with a pool run this program.
 */
module WorkerPool {
  import opened Wrappers

  /** A work item: its page and its place on the page. */
  datatype Id = Id(page: nat, index: nat)

  /** What a worker's fetch comes to: an entry, a recorded error, or a return before or inside the lock. */
  datatype Outcome = Success | Failure | DropEarly | DropLate

  /** Where a worker is. It holds its semaphore slot from Fetching to Unlocked, the mutex while Locked or Appended. */
  datatype Stage = Queued | Fetching | Ready | Locked | Appended | Unlocked | Released | Done

  predicate HoldsSlot(s: Stage) {
    s.Fetching? || s.Ready? || s.Locked? || s.Appended? || s.Unlocked?
  }

  predicate HoldsMutex(s: Stage) {
    s.Locked? || s.Appended?
  }

  predicate PastAppend(s: Stage) {
    s.Appended? || s.Unlocked? || s.Released? || s.Done?
  }

  datatype Config = Config(capacity: nat, outcome: Id -> Outcome)

  datatype Pool = Pool(
    stages: map<Id, Stage>,
    sem: map<nat, nat>,
    mutex: Option<Id>,
    wg: int,
    entries: seq<Id>,
    errs: seq<Id>)
  {
    /** How full a page's semaphore channel is. */
    function InUse(page: nat): nat {
      if page in sem then sem[page] else 0
    }
  }

  const EMPTY := Pool(map[], map[], None, 0, [], [])

  // ---------- steps ----------

  /** What one worker does next, where the semaphore and the mutex let it. */
  predicate CanStep(cfg: Config, p: Pool, w: Id) {
    && w in p.stages && !p.stages[w].Done?
    && (p.stages[w].Queued? ==> p.InUse(w.page) < cfg.capacity)
    && (p.stages[w].Ready? ==> p.mutex == None)
  }

  function NextStage(s: Stage, o: Outcome): Stage {
    match s
    case Queued => Fetching
    case Fetching => if o.DropEarly? then Unlocked else Ready
    case Ready => Locked
    case Locked => Appended
    case Appended => Unlocked
    case Unlocked => Released
    case Released => Done
    case Done => Done
  }

  /** One step: taking a slot, fetching, Lock, append, Unlock, giving the slot back, wg.Done. */
  function Step(cfg: Config, p: Pool, w: Id): Pool
    requires CanStep(cfg, p, w)
  {
    var s, o, used := p.stages[w], cfg.outcome(w), p.InUse(w.page);
    Pool(
      p.stages[w := NextStage(s, o)],
      if s.Queued? then p.sem[w.page := used + 1]
      else if s.Unlocked? && used > 0 then p.sem[w.page := used - 1]
      else p.sem,
      if s.Ready? then Some(w) else if s.Appended? then None else p.mutex,
      if s.Released? then p.wg - 1 else p.wg,
      if s.Locked? && o.Success? then p.entries + [w] else p.entries,
      if s.Locked? && o.Failure? then p.errs + [w] else p.errs)
  }

  /** wg.Add before a page's workers are started. */
  function AddToGroup(p: Pool, n: nat): Pool {
    p.(wg := p.wg + n)
  }

  /** The go statement for one item. */
  function Spawn(p: Pool, w: Id): Pool {
    p.(stages := p.stages[w := Queued])
  }

  // ---------- the invariant ----------

  function Holders(p: Pool, page: nat): set<Id> {
    set w | w in p.stages && w.page == page && HoldsSlot(p.stages[w])
  }

  function Unfinished(p: Pool): set<Id> {
    set w | w in p.stages && !p.stages[w].Done?
  }

  /** Once from a worker's append on, if its fetch came to the given outcome. */
  function RecordedTimes(cfg: Config, p: Pool, w: Id, o: Outcome): nat {
    if w in p.stages && PastAppend(p.stages[w]) && cfg.outcome(w) == o then 1 else 0
  }

  /** How often each item is in the entries and in the errors. */
  ghost predicate Recorded(cfg: Config, p: Pool) {
    forall w: Id ::
      && multiset(p.entries)[w] == RecordedTimes(cfg, p, w, Success)
      && multiset(p.errs)[w] == RecordedTimes(cfg, p, w, Failure)
  }

  /** The semaphore counts its holders and never exceeds its capacity. */
  ghost predicate SlotsCounted(cfg: Config, p: Pool) {
    forall page: nat :: p.InUse(page) == |Holders(p, page)| && |Holders(p, page)| <= cfg.capacity
  }

  /** The mutex is held by exactly the worker between its Lock and its Unlock. */
  predicate MutexHeld(p: Pool) {
    && (forall w :: w in p.stages ==> (HoldsMutex(p.stages[w]) <==> p.mutex == Some(w)))
    && (p.mutex.Some? ==> p.mutex.value in p.stages)
  }

  /** The wait group counts the unfinished workers and those still to be started. */
  predicate GroupCounted(p: Pool, toStart: nat) {
    p.wg == |Unfinished(p)| + toStart
  }

  ghost predicate Inv(cfg: Config, p: Pool, toStart: nat) {
    SlotsCounted(cfg, p) && MutexHeld(p) && GroupCounted(p, toStart) && Recorded(cfg, p)
  }

  lemma EmptyPoolInv(cfg: Config)
    ensures Inv(cfg, EMPTY, 0)
  {
    assert Unfinished(EMPTY) == {};
    assert forall page: nat :: Holders(EMPTY, page) == {};
  }

  lemma StepMovesHolder(cfg: Config, p: Pool, w: Id, page: nat)
    requires CanStep(cfg, p, w)
    ensures Holders(Step(cfg, p, w), page) ==
      if page == w.page && p.stages[w].Queued? then Holders(p, page) + {w}
      else if page == w.page && p.stages[w].Unlocked? then Holders(p, page) - {w}
      else Holders(p, page)
    ensures w in Holders(p, page) <==> page == w.page && HoldsSlot(p.stages[w])
  {
    var s' := NextStage(p.stages[w], cfg.outcome(w));
    assert Step(cfg, p, w).stages == p.stages[w := s'];
  }

  lemma StepKeepsSlots(cfg: Config, p: Pool, w: Id)
    requires SlotsCounted(cfg, p) && CanStep(cfg, p, w)
    ensures SlotsCounted(cfg, Step(cfg, p, w))
  {
    hide Holders;
    var p' := Step(cfg, p, w);
    forall page: nat
      ensures p'.InUse(page) == |Holders(p', page)| && |Holders(p', page)| <= cfg.capacity
    {
      assert p.InUse(page) == |Holders(p, page)|;
      StepMovesHolder(cfg, p, w, page);
    }
  }

  lemma StepKeepsMutex(cfg: Config, p: Pool, w: Id)
    requires MutexHeld(p) && CanStep(cfg, p, w)
    ensures MutexHeld(Step(cfg, p, w))
  {
  }

  lemma StepKeepsGroup(cfg: Config, p: Pool, w: Id, toStart: nat)
    requires GroupCounted(p, toStart) && CanStep(cfg, p, w)
    ensures GroupCounted(Step(cfg, p, w), toStart)
  {
    var p' := Step(cfg, p, w);
    if p.stages[w].Released? {
      assert Unfinished(p') == Unfinished(p) - {w} && w in Unfinished(p);
    } else {
      assert Unfinished(p') == Unfinished(p);
    }
  }

  lemma StepKeepsRecord(cfg: Config, p: Pool, w: Id)
    requires Recorded(cfg, p) && CanStep(cfg, p, w)
    ensures Recorded(cfg, Step(cfg, p, w))
  {
    var p' := Step(cfg, p, w);
    forall v: Id
      ensures multiset(p'.entries)[v] == RecordedTimes(cfg, p', v, Success)
      ensures multiset(p'.errs)[v] == RecordedTimes(cfg, p', v, Failure)
    {
      assert multiset(p.entries)[v] == RecordedTimes(cfg, p, v, Success);
      assert multiset(p.errs)[v] == RecordedTimes(cfg, p, v, Failure);
    }
  }

  lemma StepKeepsInv(cfg: Config, p: Pool, w: Id, toStart: nat)
    requires Inv(cfg, p, toStart) && CanStep(cfg, p, w)
    ensures Inv(cfg, Step(cfg, p, w), toStart)
  {
    StepKeepsSlots(cfg, p, w);
    StepKeepsMutex(cfg, p, w);
    StepKeepsGroup(cfg, p, w, toStart);
    StepKeepsRecord(cfg, p, w);
  }

  lemma AddKeepsInv(cfg: Config, p: Pool, n: nat)
    requires Inv(cfg, p, 0)
    ensures Inv(cfg, AddToGroup(p, n), n)
  {
    var p' := AddToGroup(p, n);
    assert Unfinished(p') == Unfinished(p);
    assert forall page: nat :: Holders(p', page) == Holders(p, page) && p'.InUse(page) == p.InUse(page);
  }

  lemma SpawnKeepsSlots(cfg: Config, p: Pool, w: Id)
    requires SlotsCounted(cfg, p) && w !in p.stages
    ensures SlotsCounted(cfg, Spawn(p, w))
  {
    var p' := Spawn(p, w);
    assert forall page: nat :: Holders(p', page) == Holders(p, page) && p'.InUse(page) == p.InUse(page);
  }

  lemma SpawnKeepsRecord(cfg: Config, p: Pool, w: Id)
    requires Recorded(cfg, p) && w !in p.stages
    ensures Recorded(cfg, Spawn(p, w))
  {
    var p' := Spawn(p, w);
    forall v: Id
      ensures multiset(p'.entries)[v] == RecordedTimes(cfg, p', v, Success)
      ensures multiset(p'.errs)[v] == RecordedTimes(cfg, p', v, Failure)
    {
      assert RecordedTimes(cfg, p', v, Success) == RecordedTimes(cfg, p, v, Success);
    }
  }

  lemma SpawnKeepsInv(cfg: Config, p: Pool, w: Id, toStart: nat)
    requires Inv(cfg, p, toStart) && toStart > 0 && w !in p.stages
    ensures Inv(cfg, Spawn(p, w), toStart - 1)
  {
    hide SlotsCounted, Recorded;
    SpawnKeepsSlots(cfg, p, w);
    SpawnKeepsRecord(cfg, p, w);
    assert Unfinished(Spawn(p, w)) == Unfinished(p) + {w};
  }

  /** At most one worker is between its Lock and its Unlock. */
  lemma OneAppender(cfg: Config, p: Pool, toStart: nat, v: Id, w: Id)
    requires Inv(cfg, p, toStart)
    requires v in p.stages && HoldsMutex(p.stages[v]) && w in p.stages && HoldsMutex(p.stages[w])
    ensures v == w
  {
  }

  /** The slots of a page are held by those that fetch, wait for the mutex, append, or have not given theirs back. */
  lemma HoldersAre(p: Pool, page: nat)
    ensures Holders(p, page) == set w | w in p.stages && w.page == page &&
      p.stages[w] in {Fetching, Ready, Locked, Appended, Unlocked}
  {
  }

  // ---------- progress ----------

  /** While a worker is unfinished, some worker can take a step. */
  lemma SomeWorkerCanStep(cfg: Config, p: Pool, toStart: nat, w: Id) returns (v: Id)
    requires Inv(cfg, p, toStart) && cfg.capacity > 0 && w in Unfinished(p)
    ensures CanStep(cfg, p, v)
  {
    if p.mutex.Some? {
      return p.mutex.value;
    }
    if CanStep(cfg, p, w) {
      return w;
    }
    assert p.InUse(w.page) == |Holders(p, w.page)|;
    v :| v in Holders(p, w.page);
  }

  // ---------- termination ----------

  /** The steps a worker has left. */
  function StepsLeft(s: Stage): nat {
    match s
    case Queued => 7
    case Fetching => 6
    case Ready => 5
    case Locked => 4
    case Appended => 3
    case Unlocked => 2
    case Released => 1
    case Done => 0
  }

  /** The workers with at least n steps left. */
  function Left(p: Pool, n: nat): set<Id> {
    set w | w in p.stages && StepsLeft(p.stages[w]) >= n
  }

  /** The steps all workers have left together. */
  function Work(p: Pool): nat {
    |Left(p, 1)| + |Left(p, 2)| + |Left(p, 3)| + |Left(p, 4)| + |Left(p, 5)| + |Left(p, 6)| + |Left(p, 7)|
  }

  lemma LeftShrinks(cfg: Config, p: Pool, w: Id, n: nat)
    requires CanStep(cfg, p, w)
    ensures |Left(Step(cfg, p, w), n)| <= |Left(p, n)|
    ensures n == StepsLeft(p.stages[w]) ==> |Left(Step(cfg, p, w), n)| < |Left(p, n)|
  {
    var p' := Step(cfg, p, w);
    assert p'.stages == p.stages[w := p'.stages[w]];
    if w in Left(p, n) && w !in Left(p', n) {
      assert Left(p', n) == Left(p, n) - {w};
    } else {
      assert Left(p', n) == Left(p, n);
    }
  }

  lemma StepDoesWork(cfg: Config, p: Pool, w: Id)
    requires CanStep(cfg, p, w)
    ensures Work(Step(cfg, p, w)) < Work(p)
  {
    hide Left, Step;
    LeftShrinks(cfg, p, w, 1);
    LeftShrinks(cfg, p, w, 2);
    LeftShrinks(cfg, p, w, 3);
    LeftShrinks(cfg, p, w, 4);
    LeftShrinks(cfg, p, w, 5);
    LeftShrinks(cfg, p, w, 6);
    LeftShrinks(cfg, p, w, 7);
  }

  lemma SpawnAddsWork(p: Pool, w: Id)
    requires w !in p.stages
    ensures Work(Spawn(p, w)) == Work(p) + 7
  {
    hide Left, Spawn;
    LeftGrows(p, w, 1);
    LeftGrows(p, w, 2);
    LeftGrows(p, w, 3);
    LeftGrows(p, w, 4);
    LeftGrows(p, w, 5);
    LeftGrows(p, w, 6);
    LeftGrows(p, w, 7);
  }

  lemma LeftGrows(p: Pool, w: Id, n: nat)
    requires w !in p.stages && n <= 7
    ensures |Left(Spawn(p, w), n)| == |Left(p, n)| + 1
  {
    assert Left(Spawn(p, w), n) == Left(p, n) + {w};
  }

  /** A wait group at zero means that every started worker is done. */
  lemma ZeroMeansDone(cfg: Config, p: Pool, w: Id)
    requires Inv(cfg, p, 0) && p.wg == 0 && w in p.stages
    ensures p.stages[w].Done?
  {
    assert w !in Unfinished(p);
  }
}
