/** The helpers of `src/lib/components/workout/util.ts`: the position of a
    set among the working sets, and exercise lookups keyed by id. */
module WorkoutUtil {
  import opened WorkoutState

  // ---------------------------------------------------------------------
  // getRealSetPosition

  /** The number of `"working"` sets in `sets`. */
  function WorkingCount(sets: seq<AttemptedSet>): (n: nat)
    ensures n <= |sets|
    decreases |sets|
  {
    if sets == [] then 0
    else WorkingCount(sets[..|sets| - 1]) + (if sets[|sets| - 1].setType == "working" then 1 else 0)
  }

  /** `getRealSetPosition(sets, set, index = sets.length)`: -1 for a set that
      is not a working set, otherwise the number of working sets before
      `index`. An `index` past the end would read `undefined.setType`, so it
      is excluded; a negative one counts nothing. */
  method GetRealSetPosition(sets: seq<AttemptedSet>, target: AttemptedSet, index: int := |sets|) returns (position: int)
    requires index <= |sets|
    ensures target.setType != "working" ==> position == -1
    ensures target.setType == "working" ==> position == WorkingCount(sets[..if index < 0 then 0 else index])
  {
    if target.setType != "working" {
      return -1;
    }
    var realIndex := 0;
    var i := 0;
    while i < index
      invariant 0 <= i <= (if index < 0 then 0 else index)
      invariant realIndex == WorkingCount(sets[..i])
    {
      assert sets[..i + 1][..i] == sets[..i];
      if sets[i].setType == "working" {
        realIndex := realIndex + 1;
      }
      i := i + 1;
    }
    position := realIndex;
  }

  /** The count grows by at most one per set, so a working set's position
      lies in `[0, index]`, and every set before `index` that is a working
      set is counted. */
  lemma {:induction false} WorkingCountAll(sets: seq<AttemptedSet>)
    ensures WorkingCount(sets) == |sets| <==> forall i :: 0 <= i < |sets| ==> sets[i].setType == "working"
    ensures WorkingCount(sets) == 0 <==> forall i :: 0 <= i < |sets| ==> sets[i].setType != "working"
    decreases |sets|
  {
    if sets != [] {
      var init := sets[..|sets| - 1];
      WorkingCountAll(init);
      assert forall i :: 0 <= i < |init| ==> init[i] == sets[i];
    }
  }

  /** Adding sets never lowers the count: positions grow with the index. */
  lemma {:induction false} WorkingCountMonotone(sets: seq<AttemptedSet>, i: nat, j: nat)
    requires i <= j <= |sets|
    ensures WorkingCount(sets[..i]) <= WorkingCount(sets[..j])
    decreases j - i
  {
    if i < j {
      WorkingCountMonotone(sets, i, j - 1);
      assert sets[..j][..j - 1] == sets[..j - 1];
    }
  }

  // ---------------------------------------------------------------------
  // getUniqueExerciseMap, getUniqueExercises, createExercisesById

  /** An `Exercise`: its numeric id and its other fields. */
  datatype Exercise = Exercise(id: nat, details: map<string, string>)

  /** An item of a list passed to `getUniqueExerciseMap`. */
  datatype Item = Item(exercise: Exercise)

  /** `exercisesById[exercise.id] = exercise` for each exercise in turn. */
  function ById(exercises: seq<Exercise>): map<nat, Exercise>
    decreases |exercises|
  {
    if exercises == [] then map[]
    else
      var last := exercises[|exercises| - 1];
      ById(exercises[..|exercises| - 1])[last.id := last]
  }

  /** The exercises of `items`, in order. */
  function ExercisesOf(items: seq<Item>): (r: seq<Exercise>)
    ensures |r| == |items| && forall i :: 0 <= i < |items| ==> r[i] == items[i].exercise
  {
    seq(|items|, i requires 0 <= i < |items| => items[i].exercise)
  }

  /** The ids of `exercises`. */
  function IdsOf(exercises: seq<Exercise>): set<nat> {
    set i | 0 <= i < |exercises| :: exercises[i].id
  }

  /** The map has a key for every id in the list and no other. */
  lemma {:induction false} ByIdKeys(exercises: seq<Exercise>)
    ensures ById(exercises).Keys == IdsOf(exercises)
    decreases |exercises|
  {
    if exercises != [] {
      var init := exercises[..|exercises| - 1];
      ByIdKeys(init);
      assert IdsOf(exercises) == IdsOf(init) + {exercises[|exercises| - 1].id} by {
        assert forall i :: 0 <= i < |init| ==> init[i] == exercises[i];
      }
    }
  }

  /** On a duplicate id the later exercise wins: an exercise that no later
      one shares its id with is what the map holds. */
  lemma {:induction false} ByIdLastWins(exercises: seq<Exercise>, i: nat)
    requires i < |exercises|
    requires forall j :: i < j < |exercises| ==> exercises[j].id != exercises[i].id
    ensures exercises[i].id in ById(exercises) && ById(exercises)[exercises[i].id] == exercises[i]
    decreases |exercises|
  {
    if i < |exercises| - 1 {
      var init := exercises[..|exercises| - 1];
      assert init[i] == exercises[i];
      ByIdLastWins(init, i);
    }
  }

  /** `getUniqueExerciseMap(items)`. */
  method GetUniqueExerciseMap(items: seq<Item>) returns (exercises: map<nat, Exercise>)
    ensures exercises == ById(ExercisesOf(items))
  {
    exercises := map[];
    for i := 0 to |items|
      invariant exercises == ById(ExercisesOf(items)[..i])
    {
      assert ExercisesOf(items)[..i + 1][..i] == ExercisesOf(items)[..i];
      exercises := exercises[items[i].exercise.id := items[i].exercise];
    }
    assert ExercisesOf(items)[..|items|] == ExercisesOf(items);
  }

  /** `createExercisesById(exercises)`: the `reduce` that fills the map. */
  method CreateExercisesById(exercises: seq<Exercise>) returns (exercisesById: map<nat, Exercise>)
    ensures exercisesById == ById(exercises)
  {
    exercisesById := map[];
    for i := 0 to |exercises|
      invariant exercisesById == ById(exercises[..i])
    {
      assert exercises[..i + 1][..i] == exercises[..i];
      exercisesById := exercisesById[exercises[i].id := exercises[i]];
    }
    assert exercises[..|exercises|] == exercises;
  }

  /** The ids of `s` in ascending order, the order `Object.values` visits
      the integer keys of an object. */
  function SortedKeys(s: set<nat>): (r: seq<nat>)
    ensures forall k :: k in r <==> k in s
    ensures forall i, j :: 0 <= i < j < |r| ==> r[i] < r[j]
    decreases |s|
  {
    if s == {} then []
    else
      var m := Least(s);
      [m] + SortedKeys(s - {m})
  }

  /** The smallest element of a non-empty set. */
  function Least(s: set<nat>): (m: nat)
    requires s != {}
    ensures m in s && forall k :: k in s ==> m <= k
  {
    HasLeast(s);
    var m :| IsLeast(m, s); m
  }

  lemma {:induction false} HasLeast(s: set<nat>)
    requires s != {}
    ensures exists m :: IsLeast(m, s)
    decreases |s|
  {
    var x :| x in s;
    var rest := s - {x};
    if rest == {} {
      LeastOfAdded(x, x, rest, s);
    } else {
      HasLeast(rest);
      var m :| IsLeast(m, rest);
      LeastOfAdded(x, m, rest, s);
    }
  }

  predicate IsLeast(m: nat, s: set<nat>) {
    m in s && forall k :: k in s ==> m <= k
  }

  /** Adding `x` to a set whose least element is `m` (or, for an empty
      set, is `x` itself) gives the smaller of the two as least. */
  lemma LeastOfAdded(x: nat, m: nat, rest: set<nat>, s: set<nat>)
    requires s == rest + {x}
    requires IsLeast(m, rest) || (rest == {} && m == x)
    ensures IsLeast(if x < m then x else m, s)
  {
    var least := if x < m then x else m;
    forall k | k in s
      ensures least <= k
    {
      if k != x {
        assert k in rest;
      }
    }
  }

  /** `getUniqueExercises(items)`: `Object.values` of the map, so one
      exercise per distinct id, ascending by id, each the one the map holds
      for its id. */
  method GetUniqueExercises(items: seq<Item>) returns (unique: seq<Exercise>)
    ensures forall i, j :: 0 <= i < j < |unique| ==> unique[i].id < unique[j].id
    ensures IdsOf(unique) == IdsOf(ExercisesOf(items))
    ensures forall i :: 0 <= i < |unique| ==>
      unique[i].id in ById(ExercisesOf(items)) && unique[i] == ById(ExercisesOf(items))[unique[i].id]
  {
    var byId := GetUniqueExerciseMap(items);
    ByIdKeys(ExercisesOf(items));
    ByIdKeyed(ExercisesOf(items));
    var keys := SortedKeys(byId.Keys);
    unique := seq(|keys|, i requires 0 <= i < |keys| => byId[keys[i]]);
    ValuesInKeyOrder(byId, keys, unique);
  }

  /** The values of an id-keyed map listed in ascending key order are
      ascending by id and carry exactly the map's keys as ids. */
  lemma ValuesInKeyOrder(m: map<nat, Exercise>, keys: seq<nat>, values: seq<Exercise>)
    requires forall k :: k in m ==> m[k].id == k
    requires keys == SortedKeys(m.Keys)
    requires |values| == |keys| && forall i :: 0 <= i < |keys| ==> values[i] == m[keys[i]]
    ensures forall i, j :: 0 <= i < j < |values| ==> values[i].id < values[j].id
    ensures IdsOf(values) == m.Keys
    ensures forall i :: 0 <= i < |values| ==> values[i].id in m && values[i] == m[values[i].id]
  {
    assert forall i :: 0 <= i < |values| ==> values[i].id == keys[i];
    forall k | k in m.Keys
      ensures k in IdsOf(values)
    {
      var j :| 0 <= j < |keys| && keys[j] == k;
      assert values[j].id == k;
    }
  }

  /** Each exercise in a map built by `ById` sits under its own id. */
  lemma {:induction false} ByIdKeyed(es: seq<Exercise>)
    ensures forall k :: k in ById(es) ==> ById(es)[k].id == k
    decreases |es|
  {
    if es != [] {
      ByIdKeyed(es[..|es| - 1]);
    }
  }
}
