/** The training-session lifecycle: the `TrainingSession` entity
    (`src/lib/domain/training_sessions/entities/TrainingSession.ts`), the
    in-memory repository
    (`src/lib/infrastructure/in_memory/InMemoryTrainingSessionRepository.ts`)
    and the Start, Pause, Resume and Complete use cases. Dates are
    milliseconds; `new Date()` is the parameter `now`. */
module TrainingSessions {
  import opened Wrappers

  /** `TrainingSessionStatus`. */
  datatype SessionStatus = Active | Paused | Completed

  /** A `PauseInterval`; `end == None` means the pause is still open. */
  datatype PauseInterval = PauseInterval(start: int, end: Option<int>)

  /** What the entity's methods throw: a `TrainingSessionStatusError` with
      its `context.method`, or a plain `Error`. */
  datatype SessionError =
    | StatusError(message: string, contextMethod: string)
    | PlainError(message: string)

  // ---------------------------------------------------------------------
  // Time arithmetic

  /** One interval's length, an open one measured up to `now`. */
  function Span(p: PauseInterval, now: int): int {
    p.end.GetOr(now) - p.start
  }

  /** `getTotalPausedMs`: the `reduce` over the intervals, from the left. */
  function TotalPaused(intervals: seq<PauseInterval>, now: int): int
    decreases |intervals|
  {
    if intervals == [] then 0
    else TotalPaused(intervals[..|intervals| - 1], now) + Span(intervals[|intervals| - 1], now)
  }

  /** Every interval has an `end`. */
  predicate AllClosed(intervals: seq<PauseInterval>) {
    forall i :: 0 <= i < |intervals| ==> intervals[i].end.Some?
  }

  /** No interval ends before it starts, an open one measured up to `now`. */
  predicate Ordered(intervals: seq<PauseInterval>, now: int) {
    forall i :: 0 <= i < |intervals| ==> intervals[i].start <= intervals[i].end.GetOr(now)
  }

  /** With every pause closed the total no longer depends on the clock. */
  lemma {:induction false} ClosedTotalFixed(intervals: seq<PauseInterval>, now1: int, now2: int)
    requires AllClosed(intervals)
    ensures TotalPaused(intervals, now1) == TotalPaused(intervals, now2)
    decreases |intervals|
  {
    if intervals != [] {
      ClosedTotalFixed(intervals[..|intervals| - 1], now1, now2);
    }
  }

  /** The total is the sum of the interval lengths, so it is never negative
      when no interval ends before it starts. */
  lemma {:induction false} TotalPausedNonNegative(intervals: seq<PauseInterval>, now: int)
    requires Ordered(intervals, now)
    ensures TotalPaused(intervals, now) >= 0
    decreases |intervals|
  {
    if intervals != [] {
      TotalPausedNonNegative(intervals[..|intervals| - 1], now);
    }
  }

  /** An open last pause grows the total by the time since it started. */
  lemma OpenPauseCounts(closed: seq<PauseInterval>, start: int, now: int)
    requires AllClosed(closed)
    ensures TotalPaused(closed + [PauseInterval(start, None)], now) == TotalPaused(closed, start) + (now - start)
  {
    var s := closed + [PauseInterval(start, None)];
    assert s[..|s| - 1] == closed;
    ClosedTotalFixed(closed, now, start);
  }

  /** `getElapsedMs`: time since the start, up to `completed_at` or `now`,
      less the paused time. */
  function Elapsed(startedAt: int, completedAt: Option<int>, intervals: seq<PauseInterval>, now: int): int {
    (completedAt.GetOr(now) - startedAt) - TotalPaused(intervals, now)
  }

  /** The pauses lie between `from` and `until` in the order they were taken,
      none overlapping the next, an open one measured up to `now`. */
  predicate Chronological(intervals: seq<PauseInterval>, from: int, until: int, now: int) {
    (forall i :: 0 <= i < |intervals| ==>
      from <= intervals[i].start <= intervals[i].end.GetOr(now) <= until) &&
    (forall i, j :: 0 <= i < j < |intervals| ==> intervals[i].end.GetOr(now) <= intervals[j].start)
  }

  /** Pauses taken one after another inside a stretch of time add up to no
      more than that stretch. */
  lemma {:induction false} PausedWithin(intervals: seq<PauseInterval>, from: int, until: int, now: int)
    requires from <= until && Chronological(intervals, from, until, now)
    ensures 0 <= TotalPaused(intervals, now) <= until - from
    decreases |intervals|
  {
    if intervals != [] {
      var init, last := intervals[..|intervals| - 1], intervals[|intervals| - 1];
      assert forall i :: 0 <= i < |init| ==> init[i] == intervals[i];
      PausedWithin(init, from, last.start, now);
    }
  }

  /** While a session is active (every pause closed, not completed) its
      elapsed time advances with the clock. */
  lemma ActiveElapsedAdvances(startedAt: int, intervals: seq<PauseInterval>, now1: int, now2: int)
    requires AllClosed(intervals)
    ensures Elapsed(startedAt, None, intervals, now2) - Elapsed(startedAt, None, intervals, now1) == now2 - now1
  {
    ClosedTotalFixed(intervals, now1, now2);
  }

  /** While a session is paused (its last pause open) its elapsed time stays
      where it was when the pause began. */
  lemma PausedElapsedFrozen(startedAt: int, closed: seq<PauseInterval>, start: int, now: int)
    requires AllClosed(closed)
    ensures Elapsed(startedAt, None, closed + [PauseInterval(start, None)], now) == Elapsed(startedAt, None, closed, start)
  {
    OpenPauseCounts(closed, start, now);
  }

  /** A completed session with every pause closed has a fixed elapsed time. */
  lemma CompletedElapsedFixed(startedAt: int, completedAt: int, intervals: seq<PauseInterval>, now1: int, now2: int)
    requires AllClosed(intervals)
    ensures Elapsed(startedAt, Some(completedAt), intervals, now1) == Elapsed(startedAt, Some(completedAt), intervals, now2)
  {
    ClosedTotalFixed(intervals, now1, now2);
  }

  /** A session started at `t`, paused from `t + 1000` to `t + 4000` and
      completed at `t + 6000` has paused 3000 ms and been active 3000 ms. */
  lemma TimeTrackingExample(t: int, now: int)
    ensures TotalPaused([PauseInterval(t + 1000, Some(t + 4000))], now) == 3000
    ensures Elapsed(t, Some(t + 6000), [PauseInterval(t + 1000, Some(t + 4000))], now) == 3000
  {
    assert [PauseInterval(t + 1000, Some(t + 4000))][..0] == [];
  }

  // ---------------------------------------------------------------------
  // The entity

  const PauseError := StatusError("Can only pause an active session", "pause")
  const ResumeError := StatusError("Can only resume a paused session", "resume")
  const NoOpenPauseError := StatusError("No open pause interval to resume", "resume")
  const AlreadyCompletedError := PlainError("Session is already completed")

  /** `TrainingSession`. */
  class TrainingSession {
    const id: string
    const startedAt: int
    var status: SessionStatus
    var completedAt: Option<int>
    var pauseIntervals: seq<PauseInterval>

    /** Only the last interval can be open, it is open exactly while the
        session is paused, and `completed_at` is set exactly once it is
        completed. */
    predicate Consistent()
      reads this`status, this`completedAt, this`pauseIntervals
    {
      (forall i :: 0 <= i < |pauseIntervals| - 1 ==> pauseIntervals[i].end.Some?) &&
      ((|pauseIntervals| > 0 && pauseIntervals[|pauseIntervals| - 1].end.None?) <==> status == Paused) &&
      (completedAt.Some? <==> status == Completed)
    }

    /** `new TrainingSession(id, started_at, status = ACTIVE, completed_at)`. */
    constructor (id: string, startedAt: int, status: SessionStatus := Active, completedAt: Option<int> := None)
      ensures this.id == id && this.startedAt == startedAt
      ensures this.status == status && this.completedAt == completedAt && pauseIntervals == []
      ensures status == Active && completedAt == None ==> Consistent()
    {
      this.id := id;
      this.startedAt := startedAt;
      this.status := status;
      this.completedAt := completedAt;
      pauseIntervals := [];
    }

    /** `pause()`: only an active session pauses, opening a new interval. */
    method Pause(now: int) returns (err: Option<SessionError>)
      modifies this`status, this`pauseIntervals
      ensures old(status) == Active ==>
        err == None && status == Paused && pauseIntervals == old(pauseIntervals) + [PauseInterval(now, None)]
      ensures old(status) != Active ==>
        err == Some(PauseError) && status == old(status) && pauseIntervals == old(pauseIntervals)
      ensures old(Consistent()) ==> Consistent()
    {
      if status != Active {
        return Some(PauseError);
      }
      status := Paused;
      pauseIntervals := pauseIntervals + [PauseInterval(now, None)];
      err := None;
    }

    /** `resume()`: only a paused session resumes. The status becomes active
        before the last interval is checked, so a paused session without an
        open interval is left active and the error is thrown. */
    method Resume(now: int) returns (err: Option<SessionError>)
      modifies this`status, this`pauseIntervals
      ensures old(status) != Paused ==>
        err == Some(ResumeError) && status == old(status) && pauseIntervals == old(pauseIntervals)
      ensures old(status) == Paused ==> status == Active
      ensures old(status) == Paused && OpenLast(old(pauseIntervals)) ==>
        err == None && pauseIntervals == Closed(old(pauseIntervals), now)
      ensures old(status) == Paused && !OpenLast(old(pauseIntervals)) ==>
        err == Some(NoOpenPauseError) && pauseIntervals == old(pauseIntervals)
      ensures old(Consistent()) ==> Consistent() && (old(status) == Paused ==> err == None)
      ensures old(Consistent()) && old(status) == Paused ==> AllClosed(pauseIntervals)
    {
      if status != Paused {
        return Some(ResumeError);
      }
      status := Active;
      if |pauseIntervals| == 0 || pauseIntervals[|pauseIntervals| - 1].end.Some? {
        return Some(NoOpenPauseError);
      }
      pauseIntervals := Closed(pauseIntervals, now);
      err := None;
    }

    /** `complete()`: a completed session throws; a paused one is resumed
        first, and an error from that propagates; otherwise the session is
        completed at `now`. */
    method Complete(now: int) returns (err: Option<SessionError>)
      modifies this`status, this`completedAt, this`pauseIntervals
      ensures old(status) == Completed ==> (err == Some(AlreadyCompletedError) &&
        status == Completed && completedAt == old(completedAt) && pauseIntervals == old(pauseIntervals))
      ensures old(status) == Active ==>
        err == None && status == Completed && completedAt == Some(now) && pauseIntervals == old(pauseIntervals)
      ensures old(status) == Paused && OpenLast(old(pauseIntervals)) ==>
        err == None && status == Completed && completedAt == Some(now) && pauseIntervals == Closed(old(pauseIntervals), now)
      ensures old(status) == Paused && !OpenLast(old(pauseIntervals)) ==> (err == Some(NoOpenPauseError) &&
        status == Active && completedAt == old(completedAt) && pauseIntervals == old(pauseIntervals))
      ensures old(Consistent()) ==> Consistent()
      ensures old(Consistent()) && old(status) != Completed ==> err == None && AllClosed(pauseIntervals)
    {
      if status == Completed {
        return Some(AlreadyCompletedError);
      }
      if status == Paused {
        err := Resume(now);
        if err.Some? {
          return;
        }
      }
      status := Completed;
      completedAt := Some(now);
      err := None;
    }

    /** `getTotalPausedMs()`, with the clock as `now`. */
    function TotalPausedMs(now: int): (t: int)
      reads this`pauseIntervals
      ensures Ordered(pauseIntervals, now) ==> t >= 0
      ensures AllClosed(pauseIntervals) ==> t == TotalPaused(pauseIntervals, startedAt)
    {
      var t := TotalPaused(pauseIntervals, now);
      assert AllClosed(pauseIntervals) ==> t == TotalPaused(pauseIntervals, startedAt) by {
        if AllClosed(pauseIntervals) {
          ClosedTotalFixed(pauseIntervals, now, startedAt);
        }
      }
      assert Ordered(pauseIntervals, now) ==> t >= 0 by {
        if Ordered(pauseIntervals, now) {
          TotalPausedNonNegative(pauseIntervals, now);
        }
      }
      t
    }

    /** `getElapsedMs()`, with the clock as `now`. */
    function ElapsedMs(now: int): (e: int)
      reads this`completedAt, this`pauseIntervals
      ensures (startedAt <= completedAt.GetOr(now) &&
               Chronological(pauseIntervals, startedAt, completedAt.GetOr(now), now)) ==>
        0 <= e <= completedAt.GetOr(now) - startedAt
    {
      var e := Elapsed(startedAt, completedAt, pauseIntervals, now);
      assert (startedAt <= completedAt.GetOr(now) &&
              Chronological(pauseIntervals, startedAt, completedAt.GetOr(now), now)) ==>
        0 <= e <= completedAt.GetOr(now) - startedAt by {
        if startedAt <= completedAt.GetOr(now) && Chronological(pauseIntervals, startedAt, completedAt.GetOr(now), now) {
          PausedWithin(pauseIntervals, startedAt, completedAt.GetOr(now), now);
        }
      }
      e
    }
  }

  /** The last interval is open. */
  predicate OpenLast(intervals: seq<PauseInterval>) {
    |intervals| > 0 && intervals[|intervals| - 1].end.None?
  }

  /** `current.end = new Date()` on the last interval. */
  function Closed(intervals: seq<PauseInterval>, now: int): (r: seq<PauseInterval>)
    requires |intervals| > 0
    ensures |r| == |intervals| && r[..|r| - 1] == intervals[..|intervals| - 1]
    ensures r[|r| - 1] == PauseInterval(intervals[|intervals| - 1].start, Some(now))
    ensures (forall i :: 0 <= i < |intervals| - 1 ==> intervals[i].end.Some?) ==> AllClosed(r)
  {
    intervals[|intervals| - 1 := intervals[|intervals| - 1].(end := Some(now))]
  }

  // ---------------------------------------------------------------------
  // The repository

  /** `InMemoryTrainingSessionRepository`: a `Map` from id to session;
      `order` is the map's insertion order, which `list` follows. `saves`
      records the id of every `save` call. */
  class InMemoryTrainingSessionRepository {
    var store: map<string, TrainingSession>
    var order: seq<string>
    ghost var saves: seq<string>

    /** Each session is stored under its own id, and `order` lists every
        key once. */
    ghost predicate Valid()
      reads this`store, this`order
    {
      (forall k :: k in store ==> store[k].id == k) &&
      Distinct(order) &&
      (forall k :: k in store <==> k in order)
    }

    constructor ()
      ensures store == map[] && order == [] && saves == [] && Valid()
    {
      store := map[];
      order := [];
      saves := [];
    }

    /** `list()`: the stored sessions in insertion order. */
    function List(): (r: seq<TrainingSession>)
      reads this`store, this`order
      requires Valid()
      ensures |r| == |store|
      ensures forall i :: 0 <= i < |r| ==> r[i] in store.Values
      ensures forall k :: k in store ==> store[k] in r
    {
      KeysCount(store, order);
      var keys, sessions := order, store;
      assert forall i :: 0 <= i < |keys| ==> keys[i] in sessions;
      var r := seq(|keys|, i requires 0 <= i < |keys| && keys[i] in sessions => sessions[keys[i]]);
      assert forall k :: k in store ==> store[k] in r by {
        forall k | k in store
          ensures store[k] in r
        {
          var i :| 0 <= i < |order| && order[i] == k;
          assert r[i] == store[k];
        }
      }
      r
    }

    /** `get(id)`: the session stored under `id`, or `None` (`null`). */
    function Get(id: string): (r: Option<TrainingSession>)
      reads this`store
      ensures r.Some? <==> id in store
      ensures r.Some? ==> r.value == store[id]
    {
      if id in store then Some(store[id]) else None
    }

    /** `save(entity)`: stores `entity` under its id, replacing what was
        there; a new id goes to the end of the insertion order. */
    method Save(entity: TrainingSession)
      requires Valid()
      modifies this`store, this`order, this`saves
      ensures store == old(store)[entity.id := entity]
      ensures order == if entity.id in old(store) then old(order) else old(order) + [entity.id]
      ensures saves == old(saves) + [entity.id]
      ensures Get(entity.id) == Some(entity)
      ensures forall k :: k != entity.id ==> Get(k) == old(Get(k))
      ensures Valid()
    {
      if entity.id !in store {
        order := order + [entity.id];
      }
      store := store[entity.id := entity];
      saves := saves + [entity.id];
    }

    /** `delete(id)`: true exactly when `id` was stored; afterwards it is
        not. */
    method Delete(id: string) returns (deleted: bool)
      requires Valid()
      modifies this`store, this`order
      ensures deleted <==> id in old(store)
      ensures store == old(store) - {id} && Get(id) == None
      ensures order == Without(old(order), id)
      ensures forall k :: k != id ==> Get(k) == old(Get(k))
      ensures Valid()
    {
      deleted := id in store;
      store := store - {id};
      order := Without(order, id);
    }

    /** The sessions an operation on `id` may change: the one stored there. */
    function At(id: string): set<TrainingSession>
      reads this`store
    {
      if id in store then {store[id]} else {}
    }
  }

  /** There are as many stored sessions as keys in the order. */
  lemma KeysCount(store: map<string, TrainingSession>, order: seq<string>)
    requires Distinct(order) && forall k :: k in store <==> k in order
    ensures |store| == |order|
  {
    DistinctCard(order);
    assert store.Keys == set k | k in order;
  }

  lemma {:induction false} DistinctCard(s: seq<string>)
    requires Distinct(s)
    ensures |set k | k in s| == |s|
  {
    if s != [] {
      DistinctCard(s[1..]);
      assert (set k | k in s) == (set k | k in s[1..]) + {s[0]};
      assert s[0] !in s[1..];
    }
  }

  /** `order` without `id`. */
  function Without(order: seq<string>, id: string): (r: seq<string>)
    ensures forall k :: k in r <==> k in order && k != id
    ensures Distinct(order) ==> Distinct(r)
  {
    if order == [] then []
    else if order[0] == id then Without(order[1..], id)
    else
      var rest := Without(order[1..], id);
      assert Distinct(order) ==> order[0] !in rest;
      [order[0]] + rest
  }

  // ---------------------------------------------------------------------
  // Use cases

  /** What a use case throws. The lookup failure of Pause, Resume and
      Complete is an `EntityNotFoundError` whose context names the use case
      "CompleteTrainingSession" in all three. */
  datatype UseCaseError =
    | EntityNotFound(id: string, entityName: string, message: string, useCase: string)
    | SessionFailed(error: SessionError)

  datatype Outcome = Done(session: TrainingSession) | Failed(error: UseCaseError)

  /** `new EntityNotFoundError(id, TrainingSession, { context: { useCase } })`. */
  function NotFound(id: string): (e: UseCaseError)
    ensures e.EntityNotFound? && e.message == "TrainingSession with id " + id + " not found"
    ensures e.useCase == "CompleteTrainingSession" && e.id == id
  {
    EntityNotFound(id, "TrainingSession", "TrainingSession with id " + id + " not found", "CompleteTrainingSession")
  }

  /** `StartTrainingSession`; the id generator's result is `newId`. */
  class StartTrainingSession {
    const repo: InMemoryTrainingSessionRepository

    constructor (repo: InMemoryTrainingSessionRepository)
      ensures this.repo == repo
    {
      this.repo := repo;
    }

    /** `execute()`: saves and returns a new active session. */
    method Execute(newId: string, now: int) returns (session: TrainingSession)
      requires repo.Valid()
      modifies repo`store, repo`order, repo`saves
      ensures fresh(session) && session.id == newId && session.startedAt == now
      ensures session.status == Active && session.pauseIntervals == [] && session.completedAt == None
      ensures session.Consistent()
      ensures repo.store == old(repo.store)[newId := session] && repo.saves == old(repo.saves) + [newId]
      ensures repo.Get(session.id) == Some(session) && repo.Valid()
    {
      session := new TrainingSession(newId, now);
      repo.Save(session);
    }
  }

  /** `PauseTrainingSession`. */
  class PauseTrainingSession {
    const repo: InMemoryTrainingSessionRepository

    constructor (repo: InMemoryTrainingSessionRepository)
      ensures this.repo == repo
    {
      this.repo := repo;
    }

    /** `execute(session_id)`: pauses the stored session and saves it. */
    method Execute(sessionId: string, now: int) returns (outcome: Outcome)
      requires repo.Valid()
      modifies repo`store, repo`order, repo`saves, repo.At(sessionId)
      ensures sessionId !in repo.store ==> outcome == Failed(NotFound(sessionId)) && repo.saves == old(repo.saves)
      ensures sessionId in old(repo.store) ==> var s := old(repo.store)[sessionId];
        if old(s.status) == Active then
          outcome == Done(s) && s.status == Paused &&
          s.pauseIntervals == old(s.pauseIntervals) + [PauseInterval(now, None)] &&
          s.completedAt == old(s.completedAt) && repo.saves == old(repo.saves) + [sessionId]
        else
          outcome == Failed(SessionFailed(PauseError)) && s.status == old(s.status) &&
          s.pauseIntervals == old(s.pauseIntervals) && s.completedAt == old(s.completedAt) &&
          repo.saves == old(repo.saves)
      ensures sessionId in old(repo.store) ==> var s := old(repo.store)[sessionId];
        old(s.Consistent()) ==> s.Consistent()
      ensures repo.store == old(repo.store) && repo.order == old(repo.order) && repo.Valid()
    {
      var found := repo.Get(sessionId);
      if found.None? {
        return Failed(NotFound(sessionId));
      }
      var session := found.value;
      var err := session.Pause(now);
      if err.Some? {
        return Failed(SessionFailed(err.value));
      }
      repo.Save(session);
      outcome := Done(session);
    }
  }

  /** `ResumeTrainingSession`. */
  class ResumeTrainingSession {
    const repo: InMemoryTrainingSessionRepository

    constructor (repo: InMemoryTrainingSessionRepository)
      ensures this.repo == repo
    {
      this.repo := repo;
    }

    /** `execute(session_id)`: resumes the stored session and saves it. */
    method Execute(sessionId: string, now: int) returns (outcome: Outcome)
      requires repo.Valid()
      modifies repo`store, repo`order, repo`saves, repo.At(sessionId)
      ensures sessionId !in repo.store ==> outcome == Failed(NotFound(sessionId)) && repo.saves == old(repo.saves)
      ensures sessionId in old(repo.store) ==> var s := old(repo.store)[sessionId];
        if old(s.status) == Paused && OpenLast(old(s.pauseIntervals)) then
          outcome == Done(s) && s.status == Active &&
          s.pauseIntervals == Closed(old(s.pauseIntervals), now) &&
          s.completedAt == old(s.completedAt) && repo.saves == old(repo.saves) + [sessionId]
        else
          outcome == Failed(SessionFailed(if old(s.status) == Paused then NoOpenPauseError else ResumeError)) &&
          s.status == (if old(s.status) == Paused then Active else old(s.status)) &&
          s.pauseIntervals == old(s.pauseIntervals) && s.completedAt == old(s.completedAt) &&
          repo.saves == old(repo.saves)
      ensures sessionId in old(repo.store) ==> var s := old(repo.store)[sessionId];
        old(s.Consistent()) ==> s.Consistent()
      ensures repo.store == old(repo.store) && repo.order == old(repo.order) && repo.Valid()
    {
      var found := repo.Get(sessionId);
      if found.None? {
        return Failed(NotFound(sessionId));
      }
      var session := found.value;
      var err := session.Resume(now);
      if err.Some? {
        return Failed(SessionFailed(err.value));
      }
      repo.Save(session);
      outcome := Done(session);
    }
  }

  /** `CompleteTrainingSession`. */
  class CompleteTrainingSession {
    const repo: InMemoryTrainingSessionRepository

    constructor (repo: InMemoryTrainingSessionRepository)
      ensures this.repo == repo
    {
      this.repo := repo;
    }

    /** `execute(session_id)`: completes the stored session and saves it. */
    method Execute(sessionId: string, now: int) returns (outcome: Outcome)
      requires repo.Valid()
      modifies repo`store, repo`order, repo`saves, repo.At(sessionId)
      ensures sessionId !in repo.store ==> outcome == Failed(NotFound(sessionId)) && repo.saves == old(repo.saves)
      ensures sessionId in old(repo.store) ==> var s := old(repo.store)[sessionId];
        if old(s.status) == Completed then
          outcome == Failed(SessionFailed(AlreadyCompletedError)) && repo.saves == old(repo.saves) &&
          s.status == Completed && s.completedAt == old(s.completedAt) && s.pauseIntervals == old(s.pauseIntervals)
        else if old(s.status) == Paused && !OpenLast(old(s.pauseIntervals)) then
          outcome == Failed(SessionFailed(NoOpenPauseError)) && repo.saves == old(repo.saves) &&
          s.status == Active && s.completedAt == old(s.completedAt) && s.pauseIntervals == old(s.pauseIntervals)
        else
          outcome == Done(s) && s.status == Completed && s.completedAt == Some(now) &&
          repo.saves == old(repo.saves) + [sessionId] &&
          s.pauseIntervals == (if old(s.status) == Paused then Closed(old(s.pauseIntervals), now) else old(s.pauseIntervals))
      ensures sessionId in old(repo.store) ==> var s := old(repo.store)[sessionId];
        old(s.Consistent()) ==> s.Consistent()
      ensures repo.store == old(repo.store) && repo.order == old(repo.order) && repo.Valid()
    {
      var found := repo.Get(sessionId);
      if found.None? {
        return Failed(NotFound(sessionId));
      }
      var session := found.value;
      var err := session.Complete(now);
      if err.Some? {
        return Failed(SessionFailed(err.value));
      }
      repo.Save(session);
      outcome := Done(session);
    }
  }
}
