/** The active-workout cursor of `src/lib/state/workout.svelte.ts`
    (`createWorkout`): the workout being performed, the position of the
    active set, the rest timer and the `done` flag, all reassigned by the
    functions the cursor returns. */
module WorkoutState {
  import opened Wrappers

  // ---------------------------------------------------------------------
  // Data model

  /** `SetStatusType`; a missing status is `None`. */
  datatype SetStatus = Success | Failed

  /** `SetGroupType`. */
  datatype SetGroupType = Straight | Superset | Circuit

  /** An `AttemptedSet`. `measures` stands for the remaining numeric fields
      (`attemptedReps`, `weightInKilograms`, ...), which the cursor copies
      unchanged. */
  datatype AttemptedSet = AttemptedSet(
    id: Option<string>,
    exerciseGuid: string,
    setType: string,
    status: Option<SetStatus>,
    startedAt: Option<int>,
    completedAt: Option<int>,
    durationInSeconds: Option<int>,
    restAfterInSeconds: Option<int>,
    measures: map<string, int>)

  /** An `AttemptedSetGroup`. */
  datatype SetGroup = SetGroup(id: string, setGroupType: SetGroupType, sets: seq<AttemptedSet>)

  /** A `Workout`; `details` stands for its other fields (template id,
      translations, notes, dates), which the cursor copies unchanged. */
  datatype Workout = Workout(setGroups: seq<SetGroup>, durationInSeconds: Option<int>, details: map<string, int>)

  /** A position `[setGroupIndex, setIndex]`. */
  datatype Pos = Pos(group: nat, index: nat)

  /** `p` names a set of `w`. */
  predicate Valid(w: Workout, p: Pos) {
    p.group < |w.setGroups| && p.index < |w.setGroups[p.group].sets|
  }

  /** The set at `p` has a (truthy) status. */
  predicate HasStatus(w: Workout, p: Pos)
    requires Valid(w, p)
  {
    w.setGroups[p.group].sets[p.index].status.Some?
  }

  /** `w.setGroups.every((sg) => sg.sets.every((s) => s.status))`. */
  predicate AllDone(w: Workout) {
    forall g, i :: 0 <= g < |w.setGroups| && 0 <= i < |w.setGroups[g].sets| ==>
      w.setGroups[g].sets[i].status.Some?
  }

  /** Every set group holds a set, so stepping into a group always finds one. */
  predicate NoEmptyGroups(w: Workout) {
    forall g :: 0 <= g < |w.setGroups| ==> |w.setGroups[g].sets| > 0
  }

  /** Positions in the order the workout is performed: group by group,
      set by set. */
  predicate Lt(p: Pos, q: Pos) {
    p.group < q.group || (p.group == q.group && p.index < q.index)
  }

  predicate Le(p: Pos, q: Pos) {
    Lt(p, q) || p == q
  }

  /** `p` comes strictly before `q` in the scan that starts just after
      `start`, runs to the last set and wraps around to the first. */
  predicate CyclicBefore(start: Pos, p: Pos, q: Pos) {
    if Lt(start, q) then Lt(start, p) && Lt(p, q) else Lt(start, p) || Lt(p, q)
  }

  /** `q` is what `getNext(w, start.group, start.index)` finds: a set without
      a status, and every set the scan passes before reaching it has one. */
  ghost predicate IsNext(w: Workout, start: Pos, q: Pos) {
    Valid(w, q) && !HasStatus(w, q) &&
    forall p :: Valid(w, p) && CyclicBefore(start, p, q) ==> HasStatus(w, p)
  }

  // ---------------------------------------------------------------------
  // getNext

  /** `getNext(workout, setGroupIndex, setIndex)`: steps forward from the
      given position, wrapping once past the last set, until it meets a set
      with no status; `None` stands for `undefined`. A start index past the
      end of its group behaves as the group's last set. */
  method GetNext(w: Workout, setGroupIndex: nat, setIndex: nat) returns (r: Option<Pos>)
    requires setGroupIndex < |w.setGroups|
    requires NoEmptyGroups(w)
    ensures r.None? <==> AllDone(w)
    ensures r.Some? ==> IsNext(w, Pos(setGroupIndex, setIndex), r.value)
  {
    ghost var start := Pos(setGroupIndex, setIndex);
    var g: nat, s: nat := setGroupIndex, setIndex;
    var shouldBreakOnEnd := false;
    while true
      invariant g < |w.setGroups|
      invariant !shouldBreakOnEnd ==> Le(start, Pos(g, s))
      invariant !shouldBreakOnEnd ==> Scanned(w, start, Pos(g, s))
      invariant shouldBreakOnEnd ==> AfterStartDone(w, start) && PrefixDone(w, Pos(g, s))
      decreases (if shouldBreakOnEnd then 0 else 1), |w.setGroups| - g,
        (if s < |w.setGroups[g].sets| then |w.setGroups[g].sets| - s else 0)
    {
      ghost var prev := Pos(g, s);
      s := s + 1;
      if s >= |w.setGroups[g].sets| {
        g := g + 1;
        if g >= |w.setGroups| {
          if shouldBreakOnEnd {
            LastPrefixAll(w, prev);
            return None;
          }
          LastScannedAll(w, start, prev);
          shouldBreakOnEnd := true;
          g := 0;
        }
        s := 0;
      }
      if w.setGroups[g].sets[s].status.None? {
        if shouldBreakOnEnd && prev.group + 1 >= |w.setGroups| && prev.index + 1 >= |w.setGroups[prev.group].sets| {
          FoundAfterWrap(w, start, Pos(g, s));
        } else if shouldBreakOnEnd {
          FoundSecondPass(w, start, prev, Pos(g, s));
        } else {
          FoundFirstPass(w, start, prev, Pos(g, s));
        }
        r := Some(Pos(g, s));
        return;
      }
      StepKeeps(w, start, prev, Pos(g, s), shouldBreakOnEnd);
    }
  }

  /** Every set strictly after `start` and up to `cur` has a status. */
  ghost predicate Scanned(w: Workout, start: Pos, cur: Pos) {
    forall p :: Valid(w, p) && Lt(start, p) && Le(p, cur) ==> HasStatus(w, p)
  }

  /** Every set strictly after `start` has a status. */
  ghost predicate AfterStartDone(w: Workout, start: Pos) {
    forall p :: Valid(w, p) && Lt(start, p) ==> HasStatus(w, p)
  }

  /** Every set up to `cur` has a status. */
  ghost predicate PrefixDone(w: Workout, cur: Pos) {
    forall p :: Valid(w, p) && Le(p, cur) ==> HasStatus(w, p)
  }

  /** The position after `prev` in the scan, not wrapping: the next set of
      its group, or else the first set of the next group. */
  predicate Succ(w: Workout, prev: Pos, q: Pos)
    requires prev.group < |w.setGroups|
  {
    if prev.index + 1 < |w.setGroups[prev.group].sets| then q == Pos(prev.group, prev.index + 1)
    else q == Pos(prev.group + 1, 0)
  }

  /** Nothing lies strictly between `prev` and its successor. */
  lemma SuccTight(w: Workout, prev: Pos, q: Pos, p: Pos)
    requires prev.group < |w.setGroups| && Succ(w, prev, q)
    requires Valid(w, p) && Lt(p, q)
    ensures Le(p, prev)
  {
  }

  /** When the scan falls off the last set, every set lies at or before it. */
  lemma LastPrefixAll(w: Workout, prev: Pos)
    requires prev.group + 1 >= |w.setGroups| && prev.group < |w.setGroups|
    requires prev.index + 1 >= |w.setGroups[prev.group].sets|
    requires PrefixDone(w, prev)
    ensures AllDone(w)
  {
    forall g, i | 0 <= g < |w.setGroups| && 0 <= i < |w.setGroups[g].sets|
      ensures w.setGroups[g].sets[i].status.Some?
    {
      assert Valid(w, Pos(g, i)) && Le(Pos(g, i), prev);
    }
  }

  /** Falling off the last set in the first pass: everything after `start`
      has been scanned. */
  lemma LastScannedAll(w: Workout, start: Pos, prev: Pos)
    requires prev.group + 1 >= |w.setGroups| && prev.group < |w.setGroups|
    requires prev.index + 1 >= |w.setGroups[prev.group].sets|
    requires Scanned(w, start, prev)
    ensures AfterStartDone(w, start)
  {
    forall p | Valid(w, p) && Lt(start, p)
      ensures HasStatus(w, p)
    {
      assert Le(p, prev);
    }
  }

  /** The set found is the first without status in the first pass. */
  lemma FoundFirstPass(w: Workout, start: Pos, prev: Pos, q: Pos)
    requires prev.group < |w.setGroups| && Succ(w, prev, q)
    requires Le(start, prev) && Scanned(w, start, prev)
    requires Valid(w, q) && !HasStatus(w, q)
    ensures IsNext(w, start, q)
  {
    assert Lt(start, q);
    forall p | Valid(w, p) && CyclicBefore(start, p, q)
      ensures HasStatus(w, p)
    {
      SuccTight(w, prev, q, p);
    }
  }

  /** The set found is the first set of the workout, just after the wrap. */
  lemma FoundAfterWrap(w: Workout, start: Pos, q: Pos)
    requires q == Pos(0, 0) && AfterStartDone(w, start)
    requires Valid(w, q) && !HasStatus(w, q)
    ensures IsNext(w, start, q)
  {
  }

  /** The set found in the second pass, after `prev`. */
  lemma FoundSecondPass(w: Workout, start: Pos, prev: Pos, q: Pos)
    requires prev.group < |w.setGroups| && Succ(w, prev, q)
    requires AfterStartDone(w, start) && PrefixDone(w, prev)
    requires Valid(w, q) && !HasStatus(w, q)
    ensures IsNext(w, start, q)
  {
    forall p | Valid(w, p) && CyclicBefore(start, p, q)
      ensures HasStatus(w, p)
    {
      if !Lt(start, p) {
        SuccTight(w, prev, q, p);
      }
    }
  }

  /** One step of the scan over a set that has a status keeps the loop's
      invariant. */
  lemma StepKeeps(w: Workout, start: Pos, prev: Pos, q: Pos, wrapped: bool)
    requires prev.group < |w.setGroups| && Valid(w, q) && HasStatus(w, q)
    requires Succ(w, prev, q) || (q == Pos(0, 0) && wrapped)
    requires !wrapped ==> Le(start, prev) && Scanned(w, start, prev)
    requires wrapped ==> AfterStartDone(w, start) && (q == Pos(0, 0) || PrefixDone(w, prev))
    ensures !wrapped ==> Le(start, q) && Scanned(w, start, q)
    ensures wrapped ==> AfterStartDone(w, start) && PrefixDone(w, q)
  {
    if !wrapped {
      forall p | Valid(w, p) && Lt(start, p) && Le(p, q)
        ensures HasStatus(w, p)
      {
        if p != q {
          SuccTight(w, prev, q, p);
        }
      }
    } else if q == Pos(0, 0) {
    } else {
      forall p | Valid(w, p) && Le(p, q)
        ensures HasStatus(w, p)
      {
        if p != q {
          SuccTight(w, prev, q, p);
        }
      }
    }
  }

  /** Of two distinct positions, one comes first in any scan. */
  lemma CyclicTotal(start: Pos, p: Pos, q: Pos)
    requires p != q
    ensures CyclicBefore(start, p, q) || CyclicBefore(start, q, p)
  {
  }

  /** The scan's result is determined: at most one position is what
      `getNext` finds from `start`. */
  lemma {:induction false} IsNextUnique(w: Workout, start: Pos, q1: Pos, q2: Pos)
    requires IsNext(w, start, q1) && IsNext(w, start, q2)
    ensures q1 == q2
  {
    if q1 != q2 {
      CyclicTotal(start, q1, q2);
    }
  }

  /** The cursor starts with `getNext(w, 0, 0)`, which begins its scan just
      after the first set: in a group whose first two sets have no status,
      the second one is found, and the first is reached only after the
      wrap. */
  lemma InitialScanSkipsFirst(w: Workout)
    requires |w.setGroups| > 0 && |w.setGroups[0].sets| >= 2
    requires w.setGroups[0].sets[0].status.None? && w.setGroups[0].sets[1].status.None?
    ensures IsNext(w, Pos(0, 0), Pos(0, 1))
    ensures !IsNext(w, Pos(0, 0), Pos(0, 0))
  {
    assert CyclicBefore(Pos(0, 0), Pos(0, 1), Pos(0, 0));
  }

  // ---------------------------------------------------------------------
  // Copies of the workout

  /** The set at `p`. */
  function SetAt(w: Workout, p: Pos): AttemptedSet
    requires Valid(w, p)
  {
    w.setGroups[p.group].sets[p.index]
  }

  /** `r` has the groups of `w`, with the same ids, types and number of sets. */
  predicate SameShape(w: Workout, r: Workout) {
    |r.setGroups| == |w.setGroups| &&
    forall g :: 0 <= g < |w.setGroups| ==>
      r.setGroups[g].id == w.setGroups[g].id &&
      r.setGroups[g].setGroupType == w.setGroups[g].setGroupType &&
      |r.setGroups[g].sets| == |w.setGroups[g].sets|
  }

  /** The workout `internalUpdateSet` builds: copies of the group list and of
      the group's sets, with the set at `p` replaced by `x`. */
  function WithSet(w: Workout, p: Pos, x: AttemptedSet): (r: Workout)
    requires Valid(w, p)
    ensures SameShape(w, r)
    ensures Valid(r, p) && SetAt(r, p) == x
    ensures forall q :: Valid(w, q) && q != p ==> SetAt(r, q) == SetAt(w, q)
    ensures r.durationInSeconds == w.durationInSeconds && r.details == w.details
  {
    var group := w.setGroups[p.group];
    w.(setGroups := w.setGroups[p.group := group.(sets := group.sets[p.index := x])])
  }

  /** After the update every set is done exactly when the new set has a
      status and every other set already had one. */
  lemma WithSetDone(w: Workout, p: Pos, x: AttemptedSet)
    requires Valid(w, p)
    ensures AllDone(WithSet(w, p, x)) <==>
      x.status.Some? && forall q :: Valid(w, q) && q != p ==> HasStatus(w, q)
  {
    var r := WithSet(w, p, x);
    if AllDone(r) {
      assert SetAt(r, p) == x;
      forall q | Valid(w, q) && q != p
        ensures HasStatus(w, q)
      {
        assert SetAt(r, q) == SetAt(w, q);
      }
    }
    if x.status.Some? && forall q :: Valid(w, q) && q != p ==> HasStatus(w, q) {
      forall g, i | 0 <= g < |r.setGroups| && 0 <= i < |r.setGroups[g].sets|
        ensures r.setGroups[g].sets[i].status.Some?
      {
        assert Valid(w, Pos(g, i));
        if Pos(g, i) != p {
          assert SetAt(r, Pos(g, i)) == SetAt(w, Pos(g, i));
        }
      }
    }
  }

  /** Where `s.splice(to, 0, x)` lands `x` after one element was removed
      from `s`. */
  function Landing(n: nat, to: nat): nat
    requires n > 0
  {
    if to < n - 1 then to else n - 1
  }

  /** `moveSets`' splices: `x = s[from]; s.splice(from, 1); s.splice(to, 0, x)`. */
  function MoveItem<T>(s: seq<T>, from: nat, to: nat): (r: seq<T>)
    requires from < |s|
    ensures |r| == |s|
    ensures r[Landing(|s|, to)] == s[from]
    ensures SpliceRemove(r, Landing(|s|, to)) == SpliceRemove(s, from)
  {
    var rest := SpliceRemove(s, from);
    assert |rest| == |s| - 1;
    var r := SpliceInsert(rest, to, s[from]);
    assert SpliceRemove(r, Landing(|s|, to)) == rest;
    r
  }

  /** Moving a set keeps the multiset of sets. */
  lemma MoveItemPermutes<T>(s: seq<T>, from: nat, to: nat)
    requires from < |s|
    ensures multiset(MoveItem(s, from, to)) == multiset(s)
  {
    var r := MoveItem(s, from, to);
    var k := Landing(|s|, to);
    assert r == r[..k] + [r[k]] + r[k + 1..];
    assert s == s[..from] + [s[from]] + s[from + 1..];
    assert SpliceRemove(r, k) == r[..k] + r[k + 1..];
    assert SpliceRemove(s, from) == s[..from] + s[from + 1..];
    calc {
      multiset(r);
      multiset(r[..k]) + multiset([r[k]]) + multiset(r[k + 1..]);
      multiset(SpliceRemove(r, k)) + multiset([s[from]]);
      multiset(SpliceRemove(s, from)) + multiset([s[from]]);
      multiset(s[..from]) + multiset([s[from]]) + multiset(s[from + 1..]);
      multiset(s);
    }
  }

  /** Every set has a status after the move exactly when it had before. */
  lemma MoveItemDone(s: seq<AttemptedSet>, from: nat, to: nat)
    requires from < |s|
    ensures (forall i :: 0 <= i < |s| ==> s[i].status.Some?) <==>
      (forall i :: 0 <= i < |s| ==> MoveItem(s, from, to)[i].status.Some?)
  {
    var r := MoveItem(s, from, to);
    MoveItemPermutes(s, from, to);
    if forall i :: 0 <= i < |s| ==> s[i].status.Some? {
      forall i | 0 <= i < |r|
        ensures r[i].status.Some?
      {
        assert r[i] in multiset(r);
        var j :| 0 <= j < |s| && s[j] == r[i];
      }
    }
    if forall i :: 0 <= i < |r| ==> r[i].status.Some? {
      forall i | 0 <= i < |s|
        ensures s[i].status.Some?
      {
        assert s[i] in multiset(s);
        var j :| 0 <= j < |r| && r[j] == s[i];
      }
    }
  }

  /** The copy `copySet` inserts: the set with `id`, `startedAt`,
      `completedAt` and `status` cleared. */
  function Cleared(x: AttemptedSet): AttemptedSet {
    x.(id := None, startedAt := None, completedAt := None, status := None)
  }

  /** What `{ ...set, id: undefined, ... }` gives when `set` is `undefined`
      (a `setIndex` past the end): an object with nothing but the four
      cleared fields. Its missing exercise and set type are empty strings
      here, and it has no measures. */
  const BlankSet := AttemptedSet(None, "", "", None, None, None, None, None, map[])

  /** `newSets.splice(setIndex + 1, 0, newSet)`: the cleared copy directly
      after the original, every other set where it was or one further on.
      Past the end, the splice appends a blank set. */
  function CopiedSets(s: seq<AttemptedSet>, i: nat): (r: seq<AttemptedSet>)
    ensures |r| == |s| + 1
    ensures i < |s| ==> r[..i + 1] == s[..i + 1] && r[i + 2..] == s[i + 1..] && r[i + 1] == Cleared(s[i])
    ensures i < |s| ==> r[i + 1].exerciseGuid == s[i].exerciseGuid && r[i + 1].measures == s[i].measures
    ensures i >= |s| ==> r == s + [BlankSet]
    ensures r[if i < |s| then i + 1 else |s|].status.None?
  {
    SpliceInsert(s, i + 1, if i < |s| then Cleared(s[i]) else BlankSet)
  }

  /** `workout` with group `g`'s sets replaced by `sets`. */
  function WithSets(w: Workout, g: nat, sets: seq<AttemptedSet>): Workout
    requires g < |w.setGroups|
  {
    w.(setGroups := w.setGroups[g := w.setGroups[g].(sets := sets)])
  }

  // ---------------------------------------------------------------------
  // createSets

  /** The exercises of `sets`: `new Set(sets.map((s) => s.exerciseGuid))`. */
  function Exercises(sets: seq<AttemptedSet>): set<string> {
    set k | 0 <= k < |sets| :: sets[k].exerciseGuid
  }

  /** All sets belong to one exercise. */
  predicate OneExercise(sets: seq<AttemptedSet>) {
    |sets| > 0 && forall i :: 0 <= i < |sets| ==> sets[i].exerciseGuid == sets[0].exerciseGuid
  }

  /** The sets belong to exactly two exercises: that of the first set and
      that of some set `j`. */
  predicate TwoExercises(sets: seq<AttemptedSet>) {
    exists j :: 0 <= j < |sets| && sets[j].exerciseGuid != sets[0].exerciseGuid &&
      forall i :: 0 <= i < |sets| ==>
        sets[i].exerciseGuid == sets[0].exerciseGuid || sets[i].exerciseGuid == sets[j].exerciseGuid
  }

  /** One distinct exercise means every set has the first set's. */
  lemma {:induction false} OneExerciseCount(sets: seq<AttemptedSet>)
    ensures |Exercises(sets)| == 1 <==> OneExercise(sets)
  {
    var e := Exercises(sets);
    if |sets| > 0 {
      var g0 := sets[0].exerciseGuid;
      assert g0 in e;
      if OneExercise(sets) {
        assert e == {g0};
      }
      if |e| == 1 {
        assert |e - {g0}| == 0;
        forall i | 0 <= i < |sets|
          ensures sets[i].exerciseGuid == g0
        {
          assert sets[i].exerciseGuid in e;
          assert sets[i].exerciseGuid !in e - {g0};
        }
      }
    } else {
      assert e == {};
    }
  }

  /** Two distinct exercises: the first set's and one other. */
  lemma TwoExercisesCount(sets: seq<AttemptedSet>)
    ensures |Exercises(sets)| == 2 <==> TwoExercises(sets)
  {
    if TwoExercises(sets) {
      TwoExercisesHasTwo(sets);
    }
    if |Exercises(sets)| == 2 {
      HasTwoExercises(sets);
    }
  }

  lemma TwoExercisesHasTwo(sets: seq<AttemptedSet>)
    requires TwoExercises(sets)
    ensures |Exercises(sets)| == 2
  {
    var g0 := sets[0].exerciseGuid;
    var j :| 0 <= j < |sets| && sets[j].exerciseGuid != g0 &&
      forall i :: 0 <= i < |sets| ==> sets[i].exerciseGuid == g0 || sets[i].exerciseGuid == sets[j].exerciseGuid;
    var e := Exercises(sets);
    assert g0 in e && sets[j].exerciseGuid in e;
    assert e == {g0, sets[j].exerciseGuid};
  }

  lemma HasTwoExercises(sets: seq<AttemptedSet>)
    requires |Exercises(sets)| == 2
    ensures TwoExercises(sets)
  {
    var e := Exercises(sets);
    var g0 := sets[0].exerciseGuid;
    assert g0 in e;
    var rest := e - {g0};
    assert |rest| == 1;
    var x :| x in rest;
    assert |rest - {x}| == 0;
    var j :| 0 <= j < |sets| && sets[j].exerciseGuid == x;
    forall i | 0 <= i < |sets|
      ensures sets[i].exerciseGuid == g0 || sets[i].exerciseGuid == x
    {
      assert sets[i].exerciseGuid in e;
      if sets[i].exerciseGuid != g0 {
        assert sets[i].exerciseGuid in rest;
        assert sets[i].exerciseGuid !in rest - {x};
      }
    }
  }

  // ---------------------------------------------------------------------
  // moveSets and copySet as written

  /** A set group as `moveSets` and `copySet` write it back: `setGroupType`
      and `sets` may be missing. */
  datatype WrittenGroup = WrittenGroup(id: string, setGroupType: Option<SetGroupType>, sets: Option<seq<AttemptedSet>>)

  /** `workout.setGroups.map((sg) => ({ id: sg.id }))`. */
  function IdsOnly(groups: seq<SetGroup>): (r: seq<WrittenGroup>)
    ensures |r| == |groups|
    ensures forall k :: 0 <= k < |r| ==> r[k] == WrittenGroup(groups[k].id, None, None)
  {
    seq(|groups|, k requires 0 <= k < |groups| => WrittenGroup(groups[k].id, None, None))
  }

  /** The group list `moveSets` (lines 162-171) assigns to `workout`: every
      group but `g` loses its type and its sets, and `g` keeps its id and
      the moved sets but loses its type. */
  function MoveSetsAsWritten(w: Workout, g: nat, from: nat, to: nat): (r: seq<WrittenGroup>)
    requires g < |w.setGroups| && from < |w.setGroups[g].sets|
    ensures |r| == |w.setGroups|
    ensures forall k :: 0 <= k < |r| && k != g ==> r[k].sets.None? && r[k].setGroupType.None?
    ensures r[g] == WrittenGroup(w.setGroups[g].id, None, Some(MoveItem(w.setGroups[g].sets, from, to)))
  {
    IdsOnly(w.setGroups)[g := WrittenGroup(w.setGroups[g].id, None, Some(MoveItem(w.setGroups[g].sets, from, to)))]
  }

  /** The group list `copySet` (lines 244-260) assigns to `workout`, with
      the same loss. */
  function CopySetAsWritten(w: Workout, g: nat, i: nat): (r: seq<WrittenGroup>)
    requires g < |w.setGroups|
    ensures |r| == |w.setGroups|
    ensures forall k :: 0 <= k < |r| && k != g ==> r[k].sets.None? && r[k].setGroupType.None?
    ensures r[g] == WrittenGroup(w.setGroups[g].id, None, Some(CopiedSets(w.setGroups[g].sets, i)))
  {
    IdsOnly(w.setGroups)[g := WrittenGroup(w.setGroups[g].id, None, Some(CopiedSets(w.setGroups[g].sets, i)))]
  }

  /** A two-group workout whose second group holds a set: moving a set of
      the first group leaves the second group without sets. */
  lemma MoveSetsAsWrittenLosesSets(w: Workout)
    requires |w.setGroups| == 2 && |w.setGroups[0].sets| > 0 && |w.setGroups[1].sets| > 0
    ensures MoveSetsAsWritten(w, 0, 0, 0)[1].sets.None?
    ensures WithSets(w, 0, MoveItem(w.setGroups[0].sets, 0, 0)).setGroups[1].sets != []
  {
  }

  // ---------------------------------------------------------------------
  // The cursor

  /** The state `createWorkout` closes over. */
  class ActiveWorkout {
    var workout: Workout
    var duration: int
    var restTimer: int
    var paused: bool
    var done: bool
    var setGroupIndex: nat
    var setIndex: nat
    var activeSetDuration: int

    /** `getNext` can run from the active group. */
    predicate Scannable()
      reads this`workout, this`setGroupIndex
    {
      setGroupIndex < |workout.setGroups| && NoEmptyGroups(workout)
    }

    /** `done` says whether every set has a status. */
    predicate DoneCurrent()
      reads this`workout, this`done
    {
      done == AllDone(workout)
    }

    /** `createWorkout(w, workoutId)`: the cursor starts where
        `getNext(w, 0, 0)` points, or at `[0, 0]` when every set is done. */
    constructor (w: Workout)
      requires |w.setGroups| > 0 && NoEmptyGroups(w)
      ensures workout == w && restTimer == 0 && !paused
      ensures duration == w.durationInSeconds.GetOr(0)
      ensures done == AllDone(w)
      ensures AllDone(w) ==> setGroupIndex == 0 && setIndex == 0
      ensures !AllDone(w) ==> IsNext(w, Pos(0, 0), Pos(setGroupIndex, setIndex))
      ensures Valid(w, Pos(setGroupIndex, setIndex))
      ensures activeSetDuration == SetAt(w, Pos(setGroupIndex, setIndex)).durationInSeconds.GetOr(0)
      ensures Scannable() && DoneCurrent()
    {
      var initialIndexes := GetNext(w, 0, 0);
      workout := w;
      duration := w.durationInSeconds.GetOr(0);
      restTimer := 0;
      paused := false;
      done := AllDone(w);
      var g, i := 0, 0;
      if initialIndexes.Some? {
        g, i := initialIndexes.value.group, initialIndexes.value.index;
      }
      setGroupIndex, setIndex := g, i;
      activeSetDuration := w.setGroups[g].sets[i].durationInSeconds.GetOr(0);
    }

    /** `next()`: moves to the next set without a status, unless every set
        is done or `done` is already set. */
    method Next() returns (moved: bool)
      requires done || Scannable()
      modifies this`setGroupIndex, this`setIndex, this`activeSetDuration, this`restTimer, this`paused
      ensures moved <==> !done && !AllDone(workout)
      ensures moved ==> IsNext(workout, Pos(old(setGroupIndex), old(setIndex)), Pos(setGroupIndex, setIndex))
      ensures moved ==> (restTimer == 0 && !paused &&
        activeSetDuration == SetAt(workout, Pos(setGroupIndex, setIndex)).durationInSeconds.GetOr(0))
      ensures !moved ==> (setGroupIndex == old(setGroupIndex) && setIndex == old(setIndex) &&
        activeSetDuration == old(activeSetDuration) && restTimer == old(restTimer) && paused == old(paused))
    {
      if done {
        return false;
      }
      var result := GetNext(workout, setGroupIndex, setIndex);
      if result.None? {
        return false;
      }
      SetSet(result.value.group, result.value.index);
      moved := true;
    }

    /** `setSet(g, s)`: makes `[g, s]` active and restarts its timers. */
    method SetSet(newSetGroupIndex: nat, newSetIndex: nat)
      requires Valid(workout, Pos(newSetGroupIndex, newSetIndex))
      modifies this`setGroupIndex, this`setIndex, this`activeSetDuration, this`restTimer, this`paused
      ensures setGroupIndex == newSetGroupIndex && setIndex == newSetIndex
      ensures activeSetDuration == SetAt(workout, Pos(newSetGroupIndex, newSetIndex)).durationInSeconds.GetOr(0)
      ensures restTimer == 0 && !paused
    {
      setGroupIndex := newSetGroupIndex;
      setIndex := newSetIndex;
      activeSetDuration := workout.setGroups[setGroupIndex].sets[setIndex].durationInSeconds.GetOr(0);
      restTimer := 0;
      paused := false;
    }

    /** `update(updateFn)`. */
    method Update(updateFn: Workout -> Workout) returns (updated: Workout)
      modifies this`workout
      ensures updated == updateFn(old(workout)) && workout == updated
    {
      updated := updateFn(workout);
      workout := updated;
    }

    /** `internalUpdateSet(g, s, updateFn)`: replaces the set at `[g, s]` by
        `updateFn` of it, recomputes `done`, and starts the rest timer when
        the set just got a status. */
    method InternalUpdateSet(g: nat, s: nat, updateFn: AttemptedSet -> AttemptedSet) returns (newSet: AttemptedSet)
      requires Valid(workout, Pos(g, s))
      modifies this`workout, this`done, this`restTimer
      ensures newSet == updateFn(SetAt(old(workout), Pos(g, s)))
      ensures workout == WithSet(old(workout), Pos(g, s), newSet)
      ensures DoneCurrent()
      ensures old(SetAt(workout, Pos(g, s))).status.None? && newSet.status.Some? ==>
        restTimer == newSet.restAfterInSeconds.GetOr(0)
      ensures !(old(SetAt(workout, Pos(g, s))).status.None? && newSet.status.Some?) ==>
        restTimer == old(restTimer)
      ensures old(Scannable()) ==> Scannable()
    {
      var setGroup := workout.setGroups[g];
      var oldSet := setGroup.sets[s];
      newSet := updateFn(oldSet);
      var newSets := setGroup.sets[s := newSet];
      var newSetGroups := workout.setGroups[g := setGroup.(sets := newSets)];
      var updatedWorkout := workout.(setGroups := newSetGroups);
      done := AllDone(updatedWorkout);
      workout := updatedWorkout;
      if oldSet.status.None? && newSet.status.Some? {
        restTimer := newSet.restAfterInSeconds.GetOr(0);
      }
    }

    /** The set-group type `createSets(g, newSets)` computes for group `g`
        with `newSets` appended: `'straight'` for one exercise, `'superset'`
        for two, `'circuit'` otherwise. */
    method CreateSets(g: nat, newSets: seq<AttemptedSet>) returns (setGroupType: SetGroupType)
      requires g < |workout.setGroups|
      ensures setGroupType == Straight <==> OneExercise(workout.setGroups[g].sets + newSets)
      ensures setGroupType == Superset <==> TwoExercises(workout.setGroups[g].sets + newSets)
      ensures setGroupType == Circuit <==>
        !OneExercise(workout.setGroups[g].sets + newSets) && !TwoExercises(workout.setGroups[g].sets + newSets)
    {
      var sets := workout.setGroups[g].sets + newSets;
      var exercises: set<string> := {};
      for k := 0 to |sets|
        invariant exercises == Exercises(sets[..k])
      {
        assert sets[..k + 1] == sets[..k] + [sets[k]];
        exercises := exercises + {sets[k].exerciseGuid};
      }
      assert sets[..|sets|] == sets;
      OneExerciseCount(sets);
      TwoExercisesCount(sets);
      if |exercises| == 1 {
        setGroupType := Straight;
      } else if |exercises| == 2 {
        setGroupType := Superset;
      } else {
        setGroupType := Circuit;
      }
    }

    /** `moveSets(g, from, to)`, keeping the other groups as they are: the
        set moves within group `g`, and the active index follows it when
        `from` is the active index, whichever group is active (the group
        test at line 174 compares the parameter with itself). */
    method MoveSets(g: nat, from: nat, to: nat)
      requires g < |workout.setGroups| && from < |workout.setGroups[g].sets|
      modifies this`workout, this`setIndex
      ensures workout == WithSets(old(workout), g, MoveItem(old(workout).setGroups[g].sets, from, to))
      ensures setIndex == if from == old(setIndex) then to else old(setIndex)
      ensures old(Scannable()) ==> Scannable()
      ensures old(DoneCurrent()) ==> DoneCurrent()
    {
      var setGroup := workout.setGroups[g];
      var newSets := MoveItem(setGroup.sets, from, to);
      ghost var before := workout;
      workout := workout.(setGroups := workout.setGroups[g := setGroup.(sets := newSets)]);
      MoveKeepsDone(before, g, from, to);
      if from == setIndex {
        setIndex := to;
      }
    }

    /** `copySet(g, i)`, keeping the other groups as they are: a cleared
        copy of the set goes directly after it, or a blank set at the end
        when `i` is past the end. `done` is not recomputed, although the
        copy has no status. */
    method CopySet(g: nat, i: nat)
      requires g < |workout.setGroups|
      modifies this`workout
      ensures workout == WithSets(old(workout), g, CopiedSets(old(workout).setGroups[g].sets, i))
      ensures !AllDone(workout)
      ensures old(Scannable()) ==> Scannable()
    {
      var setGroup := workout.setGroups[g];
      var newSets := CopiedSets(setGroup.sets, i);
      workout := workout.(setGroups := workout.setGroups[g := setGroup.(sets := newSets)]);
      assert workout.setGroups[g].sets[if i < |setGroup.sets| then i + 1 else |setGroup.sets|].status.None?;
    }
  }

  /** Moving a set within a group changes neither whether every set is done
      nor the group sizes. */
  lemma MoveKeepsDone(w: Workout, g: nat, from: nat, to: nat)
    requires g < |w.setGroups| && from < |w.setGroups[g].sets|
    ensures SameShape(w, WithSets(w, g, MoveItem(w.setGroups[g].sets, from, to)))
    ensures AllDone(WithSets(w, g, MoveItem(w.setGroups[g].sets, from, to))) <==> AllDone(w)
  {
    var s := w.setGroups[g].sets;
    var r := WithSets(w, g, MoveItem(s, from, to));
    MoveItemDone(s, from, to);
    if AllDone(w) {
      assert forall i :: 0 <= i < |s| ==> s[i].status.Some?;
    }
    if AllDone(r) {
      assert forall i :: 0 <= i < |s| ==> r.setGroups[g].sets[i].status.Some?;
    }
  }
}
