/** The loops of `src/lib/diff.ts` as methods, each proved to compute its
    function in module `Diff`. */
module DiffLoops {
  import opened Wrappers
  import opened Diff
  import opened DiffFields
  import opened DiffProofs

  /** The entry `getChanges` of two elements yields, as the loops of
      `getObjectChanges` and `getArrayChanges` push it. */
  function EntryFor(d: Diff, edits: seq<Change> -> Change, replace: Value -> Change): seq<Change> {
    match d
    case Replace(v) => [replace(v)]
    case Edits(cs) => if |cs| > 0 then [edits(cs)] else []
  }

  /** `getObjectChanges(a, b, getKey)`: one pass over the keys of `a` and
      then `b`, each key once. */
  method GetObjectChanges(a: Value, b: Value, getKey: Value -> Key) returns (changes: seq<Change>)
    requires a.Arr? || a.Obj?
    requires b.Arr? || b.Obj?
    ensures changes == ObjectDiff(a, b, getKey)
  {
    changes := [];
    var keys := Dedup(FieldKeys(Entries(a)) + FieldKeys(Entries(b)));
    var i := 0;
    while i < |keys|
      invariant i <= |keys|
      invariant changes + ObjectChangesOver(a, b, keys[i..], getKey) == ObjectChangesOver(a, b, keys, getKey)
    {
      var key := keys[i];
      var step := KeyEntry(a, b, key, getKey);
      ChangesOverStep(a, b, keys, i, changes, getKey);
      changes := changes + step;
      i := i + 1;
    }
    assert keys[|keys|..] == [];
  }

  /** One turn of the loop of `getObjectChanges` keeps its invariant: the
      changes emitted so far, then those still to come, are all of them. */
  lemma ChangesOverStep(a: Value, b: Value, keys: seq<string>, i: nat, changes: seq<Change>, getKey: Value -> Key)
    requires a.Arr? || a.Obj?
    requires b.Arr? || b.Obj?
    requires i < |keys|
    requires changes + ObjectChangesOver(a, b, keys[i..], getKey) == ObjectChangesOver(a, b, keys, getKey)
    ensures (changes + KeyChange(a, b, keys[i], getKey)) + ObjectChangesOver(a, b, keys[i + 1..], getKey) == ObjectChangesOver(a, b, keys, getKey)
  {
    var step, rest := KeyChange(a, b, keys[i], getKey), ObjectChangesOver(a, b, keys[i + 1..], getKey);
    assert keys[i..][0] == keys[i] && keys[i..][1..] == keys[i + 1..];
    assert ObjectChangesOver(a, b, keys[i..], getKey) == step + rest;
    assert (changes + step) + rest == changes + (step + rest);
  }

  /** One iteration of the loop of `getObjectChanges`, for `key`. */
  method KeyEntry(a: Value, b: Value, key: string, getKey: Value -> Key) returns (step: seq<Change>)
    requires a.Arr? || a.Obj?
    requires b.Arr? || b.Obj?
    ensures step == KeyChange(a, b, key, getKey)
  {
    var aLookup := Lookup(Entries(a), key);
    var bLookup := Lookup(Entries(b), key);
    if aLookup.Some? {
      if bLookup.Some? {
        LookupSmaller(a, key);
        var keyChanges := GetChanges(aLookup.value, bLookup.value, getKey);
        if keyChanges.Edits? {
          if |keyChanges.changes| > 0 {
            step := [ObjectChanges(key, keyChanges)];
          } else {
            step := [];
          }
        } else {
          step := [ObjectSet(key, keyChanges.value)];
        }
      } else {
        step := [ObjectDelete(key)];
      }
    } else {
      step := if bLookup.Some? then [ObjectSet(key, bLookup.value)] else [];
    }
  }

  /** `getArrayChanges(arrayA, arrayB, getKey)`: the key-list simulation
      over a copy of the keys of `arrayA`, then all structural ops followed
      by the per-element changes. */
  method GetArrayChanges(a: Value, b: Value, getKey: Value -> Key) returns (result: seq<Change>)
    requires a.Arr? && b.Arr?
    ensures result == ArrayDiff(a, b, getKey)
  {
    var arrayA, arrayB := a.items, b.items;
    var moves: seq<Change> := [];
    var changes: seq<Change> := [];
    var bKeys := KeysOf(arrayB, getKey);

    var aKeys: seq<Key> := [];
    var aKeyToIndex: map<Key, nat> := map[];
    for i := 0 to |arrayA|
      invariant aKeys == KeysOf(arrayA, getKey)[..i]
      invariant aKeyToIndex == IndexMap(aKeys)
    {
      var key := getKey(arrayA[i]);
      assert (aKeys + [key])[..i] == aKeys;
      aKeys := aKeys + [key];
      aKeyToIndex := aKeyToIndex[key := i];
    }
    assert aKeys == KeysOf(arrayA, getKey);
    ghost var s0 := ArrayState(aKeys, [], []);

    var bKeySet := set k | k in bKeys;
    var i: int := |aKeys| - 1;
    while i >= 0
      invariant -1 <= i < |aKeys|
      invariant changes == []
      invariant DeleteAbsent(ArrayState(aKeys, moves, changes), bKeySet, i + 1)
             == DeleteAbsent(s0, bKeySet, |s0.keys|)
    {
      var currentKey := aKeys[i];
      if currentKey !in bKeySet {
        moves := moves + [ArrayDelete(i)];
        aKeys := aKeys[..i] + aKeys[i + 1..];
      }
      i := i - 1;
    }
    ghost var s1 := ArrayState(aKeys, moves, changes);

    for j := 0 to |bKeys|
      invariant Scan(arrayA, arrayB, aKeyToIndex, j, ArrayState(aKeys, moves, changes), getKey)
             == Scan(arrayA, arrayB, aKeyToIndex, 0, s1, getKey)
    {
      var desiredKey := bKeys[j];
      ghost var before := ArrayState(aKeys, moves, changes);
      if j < |aKeys| && aKeys[j] == desiredKey {
        var itemChanges := ItemChanges(arrayA, arrayB, aKeyToIndex, j, getKey);
        changes := changes + itemChanges;
      } else {
        var existingIndex := IndexOfFrom(aKeys, desiredKey, j + 1);
        if existingIndex != -1 {
          var itemChanges := ItemChanges(arrayA, arrayB, aKeyToIndex, j, getKey);
          changes := changes + itemChanges;
          moves := moves + [ArrayMove(existingIndex, j)];
          var moved := aKeys[existingIndex];
          aKeys := SpliceInsert(SpliceRemove(aKeys, existingIndex), j, moved);
        } else {
          moves := moves + [ArrayInsert(j, arrayB[j])];
          aKeys := SpliceInsert(aKeys, j, desiredKey);
        }
      }
      assert ArrayState(aKeys, moves, changes) == ScanStep(arrayA, arrayB, aKeyToIndex, j, before, getKey);
    }

    while |aKeys| > |bKeys|
      invariant PopSurplus(ArrayState(aKeys, moves, changes), |bKeys|)
             == PopSurplus(Scan(arrayA, arrayB, aKeyToIndex, 0, s1, getKey), |bKeys|)
      decreases |aKeys|
    {
      moves := moves + [ArrayDelete(|aKeys| - 1)];
      aKeys := aKeys[..|aKeys| - 1];
    }
    assert ArrayState(aKeys, moves, changes) == ArrayPhases(arrayA, arrayB, getKey);
    result := moves + changes;
  }

  /** The entry for `arrayB[i]`: `getChanges` of the element of `arrayA`
      with the same key, where `arrayA[aKeyToIndex[k]]` is `undefined`, and
      so replaced, when `k` is not a key of `arrayA`. */
  method ItemChanges(arrayA: seq<Value>, arrayB: seq<Value>, aKeyToIndex: map<Key, nat>, i: nat, getKey: Value -> Key)
    returns (itemChanges: seq<Change>)
    requires i < |arrayB|
    ensures itemChanges == ItemChange(arrayA, arrayB, aKeyToIndex, i, getKey)
  {
    var desiredKey := getKey(arrayB[i]);
    if desiredKey in aKeyToIndex && aKeyToIndex[desiredKey] < |arrayA| {
      ItemSmaller(arrayA, aKeyToIndex[desiredKey]);
      var d := GetChanges(arrayA[aKeyToIndex[desiredKey]], arrayB[i], getKey);
      itemChanges := EntryFor(d, cs => ArrayChanges(i, Edits(cs)), v => ArrayReplace(i, v));
    } else {
      itemChanges := [ArrayReplace(i, arrayB[i])];
    }
  }

  /** `applyChanges(a, changes)`: the `switch` applied to each change in
      turn; a nested change list is applied by a recursive call. */
  method ApplyChangeList(a: Value, changes: seq<Change>) returns (r: Value)
    ensures r == ApplyChanges(a, changes)
    decreases changes
  {
    r := a;
    for n := 0 to |changes|
      invariant ApplyChanges(r, changes[n..]) == ApplyChanges(a, changes)
    {
      var change := changes[n];
      assert change in changes;
      ghost var before := r;
      match change {
        case ArrayInsert(i, item) =>
          if r.Arr? {
            r := Arr(SpliceInsert(r.items, i, item));
          }
        case ArrayDelete(i) =>
          if r.Arr? {
            r := Arr(SpliceRemove(r.items, i));
          }
        case ArrayMove(from, to) =>
          if r.Arr? && from < |r.items| {
            var moved := r.items[from];
            r := Arr(SpliceInsert(SpliceRemove(r.items, from), to, moved));
          }
        case ArrayReplace(i, value) =>
          if r.Arr? && i < |r.items| {
            r := Arr(r.items[i := value]);
          }
        case ArrayChanges(i, d) =>
          if r.Arr? && i < |r.items| {
            assert d < change;
            var item := ApplyNested(r.items[i], d);
            r := Arr(r.items[i := item]);
          }
        case ObjectSet(key, value) =>
          if r.Obj? {
            r := Obj(SetField(r.fields, key, value));
          }
        case ObjectDelete(key) =>
          if r.Obj? {
            r := Obj(RemoveField(r.fields, key));
          }
        case ObjectChanges(key, d) =>
          if r.Obj? {
            var current := Lookup(r.fields, key);
            if d.Replace? || current.Some? {
              assert d < change;
              var item := ApplyNested(if current.Some? then current.value else Null, d);
              r := Obj(SetField(r.fields, key, item));
            }
          }
      }
      assert r == ApplyChange(before, change);
      assert changes[n..] == [change] + changes[n + 1..];
    }
    assert changes[|changes|..] == [];
  }

  /** A nested `changes` field: a replacement is assigned, a change list
      applied by a recursive call. */
  method ApplyNested(v: Value, d: Diff) returns (r: Value)
    ensures r == ApplyDiff(v, d)
    decreases d
  {
    if d.Edits? {
      r := ApplyChangeList(v, d.changes);
    } else {
      r := d.value;
    }
  }

  /** `getAndApplyChanges(a, b, getKey)`: a non-empty change list is applied
      to `a` and `undefined` returned (`result == None`); otherwise `b` is
      returned and `a` left as it is. Either way the value the caller ends
      up with is deeply equal to `b` when the two are well formed and
      compatible. */
  method GetAndApplyChanges(a: Value, b: Value, getKey: Value -> Key) returns (applied: Value, result: Option<Value>)
    ensures var d := GetChanges(a, b, getKey);
      if d.Edits? && |d.changes| > 0 then applied == ApplyChanges(a, d.changes) && result == None
      else applied == a && result == Some(b)
    ensures WellFormed(a, getKey) && WellFormed(b, getKey) && Compatible(a, b, getKey) ==>
      DeepEq(result.GetOr(applied), b)
  {
    var changes := GetChanges(a, b, getKey);
    applied := a;
    result := Some(b);
    if changes.Edits? {
      if |changes.changes| > 0 {
        applied := ApplyChangeList(a, changes.changes);
        result := None;
      }
    }
    if WellFormed(a, getKey) && WellFormed(b, getKey) && Compatible(a, b, getKey) {
      RoundTrip(a, b, getKey);
      DeepEqRefl(b, getKey);
    }
  }
}
