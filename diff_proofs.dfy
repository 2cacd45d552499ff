/** The round trip of `src/lib/diff.ts`: applying `getChanges(a, b)` to `a`
    gives a value deeply equal to `b`, when both values key their array
    elements and object fields uniquely and agree in shape where their
    keys meet. */
module DiffProofs {
  import opened Wrappers
  import opened Diff
  import opened DiffFields
  import opened DiffKeys

  // ---------------------------------------------------------------------
  // The conditions and the notion of equality

  /** Object keys are unique, and the `getKey` keys of every array are
      unique, all the way down. */
  predicate WellFormed(v: Value, getKey: Value -> Key) {
    match v
    case Arr(xs) => Distinct(KeysOf(xs, getKey)) && forall i :: 0 <= i < |xs| ==> WellFormed(xs[i], getKey)
    case Obj(fs) => Distinct(FieldKeys(fs)) && forall i :: 0 <= i < |fs| ==> WellFormed(fs[i].value, getKey)
    case _ => true
  }

  /** Where `a` and `b` meet, they agree in shape: an array is never paired
      with a plain object, scalars equal after `valueOf` are equal, and the
      elements with equal keys and the fields with equal names are
      compatible in turn. */
  predicate Compatible(a: Value, b: Value, getKey: Value -> Key) {
    if TypeOf(Unwrap(a)) != TypeOf(Unwrap(b)) then true
    else match a
      case Arr(xs) =>
        && !b.Obj?
        && (b.Arr? ==> forall i, j :: 0 <= i < |xs| && 0 <= j < |b.items| && getKey(xs[i]) == getKey(b.items[j]) ==>
                                  Compatible(xs[i], b.items[j], getKey))
      case Obj(fs) =>
        && !b.Arr?
        && (b.Obj? ==> forall i :: 0 <= i < |fs| && Lookup(b.fields, fs[i].key).Some? ==>
                                Compatible(fs[i].value, Lookup(b.fields, fs[i].key).value, getKey))
      case _ => Unwrap(a) == Unwrap(b) ==> a == b
  }

  /** Deep equality: arrays element by element, objects field by field in
      any order. */
  predicate DeepEq(a: Value, b: Value) {
    match a
    case Arr(xs) => b.Arr? && |xs| == |b.items| && forall i :: 0 <= i < |xs| ==> DeepEq(xs[i], b.items[i])
    case Obj(fs) =>
      && b.Obj?
      && (forall i :: 0 <= i < |fs| ==>
            Lookup(b.fields, fs[i].key).Some? && DeepEq(fs[i].value, Lookup(b.fields, fs[i].key).value))
      && (forall j :: 0 <= j < |b.fields| ==> Lookup(fs, b.fields[j].key).Some?)
    case _ => a == b
  }

  lemma {:induction false} DeepEqRefl(v: Value, getKey: Value -> Key)
    requires WellFormed(v, getKey)
    ensures DeepEq(v, v)
    decreases v
  {
    match v
    case Arr(xs) =>
      forall i | 0 <= i < |xs|
        ensures DeepEq(xs[i], xs[i])
      {
        DeepEqRefl(xs[i], getKey);
      }
    case Obj(fs) =>
      forall i | 0 <= i < |fs|
        ensures Lookup(fs, fs[i].key) == Some(fs[i].value) && DeepEq(fs[i].value, fs[i].value)
      {
        LookupAt(fs, i);
        DeepEqRefl(fs[i].value, getKey);
      }
    case _ =>
  }

  lemma {:induction false} ApplyChangesAppend(v: Value, c1: seq<Change>, c2: seq<Change>)
    ensures ApplyChanges(v, c1 + c2) == ApplyChanges(ApplyChanges(v, c1), c2)
    decreases c1
  {
    if c1 == [] {
      assert c1 + c2 == c2;
    } else {
      assert (c1 + c2)[0] == c1[0];
      assert (c1 + c2)[1..] == c1[1..] + c2;
      ApplyChangesAppend(ApplyChange(v, c1[0]), c1[1..], c2);
    }
  }

  lemma ApplyOne(v: Value, c: Change)
    ensures ApplyChanges(v, [c]) == ApplyChange(v, c)
  {
    assert [c][1..] == [];
  }

  // ---------------------------------------------------------------------
  // The round trip

  /** `applyChanges(a, getChanges(a, b))` is deeply equal to `b`; a
      replacement carries `b` itself. */
  lemma {:induction false} RoundTrip(a: Value, b: Value, getKey: Value -> Key)
    requires WellFormed(a, getKey) && WellFormed(b, getKey) && Compatible(a, b, getKey)
    ensures GetChanges(a, b, getKey).Replace? ==> GetChanges(a, b, getKey).value == b
    ensures GetChanges(a, b, getKey).Edits? ==> DeepEq(ApplyChanges(a, GetChanges(a, b, getKey).changes), b)
    decreases Size(a), 3
  {
    var av, bv := Unwrap(a), Unwrap(b);
    if TypeOf(av) != TypeOf(bv) {
    } else if av.Arr? && bv.Arr? {
      ArrayRoundTrip(a, b, getKey);
    } else if TypeOf(av) == TObject && !av.Null? && !bv.Null? {
      ObjectRoundTrip(a, b, getKey);
    } else if av != bv {
    } else {
      assert a == b;
      DeepEqRefl(a, getKey);
    }
  }

  // ---------------------------------------------------------------------
  // Objects

  /** The field `k` of `r` agrees with that of `b`. */
  predicate Settled(r: seq<Field>, b: seq<Field>, k: string) {
    && (Lookup(b, k).None? ==> Lookup(r, k).None?)
    && (Lookup(b, k).Some? ==> Lookup(r, k).Some? && DeepEq(Lookup(r, k).value, Lookup(b, k).value))
  }

  lemma {:induction false} ObjectRoundTrip(a: Value, b: Value, getKey: Value -> Key)
    requires a.Obj? && b.Obj?
    requires WellFormed(a, getKey) && WellFormed(b, getKey) && Compatible(a, b, getKey)
    ensures DeepEq(ApplyChanges(a, ObjectDiff(a, b, getKey)), b)
    decreases Size(a), 2
  {
    var keys := Dedup(FieldKeys(a.fields) + FieldKeys(b.fields));
    DedupMembers(FieldKeys(a.fields) + FieldKeys(b.fields));
    ObjectOver(a, b, keys, a, getKey);
    var r := ApplyChanges(a, ObjectDiff(a, b, getKey));
    forall k | k !in keys
      ensures Lookup(r.fields, k).None?
    {
      LookupSomeIff(a.fields, k);
    }
    SettledDeepEq(r, b, keys);
  }

  /** An object whose every field outside `keys` is absent, and every key
      of `keys` settled against `b`, is deeply equal to `b` when `keys`
      covers the keys of `b`. */
  lemma SettledDeepEq(r: Value, b: Value, keys: seq<string>)
    requires r.Obj? && b.Obj? && Distinct(FieldKeys(r.fields))
    requires forall k :: k in keys ==> Settled(r.fields, b.fields, k)
    requires forall k :: k !in keys ==> Lookup(r.fields, k).None?
    requires forall k :: k in FieldKeys(b.fields) ==> k in keys
    ensures DeepEq(r, b)
  {
    forall i | 0 <= i < |r.fields|
      ensures Lookup(b.fields, r.fields[i].key).Some?
      ensures DeepEq(r.fields[i].value, Lookup(b.fields, r.fields[i].key).value)
    {
      LookupAt(r.fields, i);
      assert r.fields[i].key in keys;
    }
    forall j | 0 <= j < |b.fields|
      ensures Lookup(r.fields, b.fields[j].key).Some?
    {
      var k := b.fields[j].key;
      assert FieldKeys(b.fields)[j] == k;
      assert Settled(r.fields, b.fields, k);
      LookupSomeIff(b.fields, k);
    }
  }

  /** The loop of `getObjectChanges` over `keys`, applied to `cur`, settles
      every key of `keys` and leaves the others alone. */
  lemma {:induction false} ObjectOver(a: Value, b: Value, keys: seq<string>, cur: Value, getKey: Value -> Key)
    requires a.Obj? && b.Obj?
    requires WellFormed(a, getKey) && WellFormed(b, getKey) && Compatible(a, b, getKey)
    requires cur.Obj? && Distinct(FieldKeys(cur.fields)) && Distinct(keys)
    requires forall k :: k in keys ==> Lookup(cur.fields, k) == Lookup(a.fields, k)
    ensures var r := ApplyChanges(cur, ObjectChangesOver(a, b, keys, getKey));
      && r.Obj? && Distinct(FieldKeys(r.fields))
      && (forall k :: k in keys ==> Settled(r.fields, b.fields, k))
      && (forall k :: k !in keys ==> Lookup(r.fields, k) == Lookup(cur.fields, k))
    decreases Size(a), 1, |keys|
  {
    if keys != [] {
      var k0 := keys[0];
      var c0 := KeyChange(a, b, k0, getKey);
      var cur' := ApplyChanges(cur, c0);
      KeyChangeSettles(a, b, k0, cur, getKey);
      ApplyChangesAppend(cur, c0, ObjectChangesOver(a, b, keys[1..], getKey));
      assert keys == [k0] + keys[1..];
      assert k0 !in keys[1..];
      ObjectOver(a, b, keys[1..], cur', getKey);
    }
  }

  /** One iteration of the loop of `getObjectChanges`, applied to `cur`. */
  lemma {:induction false} KeyChangeSettles(a: Value, b: Value, k: string, cur: Value, getKey: Value -> Key)
    requires a.Obj? && b.Obj?
    requires WellFormed(a, getKey) && WellFormed(b, getKey) && Compatible(a, b, getKey)
    requires cur.Obj? && Distinct(FieldKeys(cur.fields))
    requires Lookup(cur.fields, k) == Lookup(a.fields, k)
    ensures var r := ApplyChanges(cur, KeyChange(a, b, k, getKey));
      && r.Obj? && Distinct(FieldKeys(r.fields))
      && Settled(r.fields, b.fields, k)
      && (forall k' :: k' != k ==> Lookup(r.fields, k') == Lookup(cur.fields, k'))
    decreases Size(a), 0, 1
  {
    var la, lb := Lookup(a.fields, k), Lookup(b.fields, k);
    if la.Some? && lb.Some? {
      KeyBothSettles(a, b, k, cur, getKey);
    } else if la.Some? {
      KeyDeleteSettles(a, b, k, cur, getKey);
    } else if lb.Some? {
      KeySetSettles(a, b, k, cur, getKey);
    } else {
      assert KeyChange(a, b, k, getKey) == [];
    }
  }

  /** A key of both objects: its value is replaced, edited in place or
      left alone, and then agrees with that of `b`. */
  lemma {:induction false} KeyBothSettles(a: Value, b: Value, k: string, cur: Value, getKey: Value -> Key)
    requires a.Obj? && b.Obj?
    requires WellFormed(a, getKey) && WellFormed(b, getKey) && Compatible(a, b, getKey)
    requires cur.Obj? && Distinct(FieldKeys(cur.fields))
    requires Lookup(cur.fields, k) == Lookup(a.fields, k)
    requires Lookup(a.fields, k).Some? && Lookup(b.fields, k).Some?
    ensures var r := ApplyChanges(cur, KeyChange(a, b, k, getKey));
      && r.Obj? && Distinct(FieldKeys(r.fields))
      && Settled(r.fields, b.fields, k)
      && (forall k' :: k' != k ==> Lookup(r.fields, k') == Lookup(cur.fields, k'))
    decreases Size(a), 0, 0
  {
    var fs := cur.fields;
    var c := KeyChange(a, b, k, getKey);
    var av, bv := Lookup(a.fields, k).value, Lookup(b.fields, k).value;
    var i := LookupIndex(a.fields, k);
    var j := LookupIndex(b.fields, k);
    LookupSmaller(a, k);
    assert WellFormed(a.fields[i].value, getKey);
    assert WellFormed(b.fields[j].value, getKey);
    RoundTrip(av, bv, getKey);
    var d := GetChanges(av, bv, getKey);
    if d.Replace? {
      assert c == [ObjectSet(k, d.value)];
      ApplyOne(cur, ObjectSet(k, d.value));
      SetFieldSettles(fs, k, d.value);
      DeepEqRefl(bv, getKey);
    } else if |d.changes| > 0 {
      assert c == [ObjectChanges(k, d)];
      ApplyOne(cur, ObjectChanges(k, d));
      SetFieldSettles(fs, k, ApplyDiff(av, d));
    } else {
      assert c == [];
    }
  }

  /** A key of `a` only: it is deleted. */
  lemma KeyDeleteSettles(a: Value, b: Value, k: string, cur: Value, getKey: Value -> Key)
    requires a.Obj? && b.Obj?
    requires WellFormed(a, getKey) && WellFormed(b, getKey) && Compatible(a, b, getKey)
    requires cur.Obj? && Distinct(FieldKeys(cur.fields))
    requires Lookup(cur.fields, k) == Lookup(a.fields, k)
    requires Lookup(a.fields, k).Some? && Lookup(b.fields, k).None?
    ensures var r := ApplyChanges(cur, KeyChange(a, b, k, getKey));
      && r.Obj? && Distinct(FieldKeys(r.fields))
      && Settled(r.fields, b.fields, k)
      && (forall k' :: k' != k ==> Lookup(r.fields, k') == Lookup(cur.fields, k'))
  {
    var fs := cur.fields;
    assert KeyChange(a, b, k, getKey) == [ObjectDelete(k)];
    ApplyOne(cur, ObjectDelete(k));
    var r := ApplyChanges(cur, KeyChange(a, b, k, getKey));
    assert r == Obj(RemoveField(fs, k));
    forall k' | k' != k
      ensures Lookup(RemoveField(fs, k), k') == Lookup(fs, k')
    {
      LookupRemoveField(fs, k, k');
    }
    LookupRemoveField(fs, k, k);
    RemoveFieldUnique(fs, k);
  }

  /** A key of `b` only: it is set to the value of `b`. */
  lemma KeySetSettles(a: Value, b: Value, k: string, cur: Value, getKey: Value -> Key)
    requires a.Obj? && b.Obj?
    requires WellFormed(a, getKey) && WellFormed(b, getKey) && Compatible(a, b, getKey)
    requires cur.Obj? && Distinct(FieldKeys(cur.fields))
    requires Lookup(cur.fields, k) == Lookup(a.fields, k)
    requires Lookup(a.fields, k).None? && Lookup(b.fields, k).Some?
    ensures var r := ApplyChanges(cur, KeyChange(a, b, k, getKey));
      && r.Obj? && Distinct(FieldKeys(r.fields))
      && Settled(r.fields, b.fields, k)
      && (forall k' :: k' != k ==> Lookup(r.fields, k') == Lookup(cur.fields, k'))
  {
    var fs := cur.fields;
    var bv := Lookup(b.fields, k).value;
    assert KeyChange(a, b, k, getKey) == [ObjectSet(k, bv)];
    var j := LookupIndex(b.fields, k);
    assert WellFormed(b.fields[j].value, getKey);
    ApplyOne(cur, ObjectSet(k, bv));
    assert ApplyChanges(cur, KeyChange(a, b, k, getKey)) == Obj(SetField(fs, k, bv));
    SetFieldSettles(fs, k, bv);
    DeepEqRefl(bv, getKey);
  }

  lemma SetFieldSettles(fs: seq<Field>, k: string, x: Value)
    requires Distinct(FieldKeys(fs))
    ensures Distinct(FieldKeys(SetField(fs, k, x)))
    ensures Lookup(SetField(fs, k, x), k) == Some(x)
    ensures forall k' :: k' != k ==> Lookup(SetField(fs, k, x), k') == Lookup(fs, k')
  {
    forall k' {
      LookupSetField(fs, k, x, k');
    }
    SetFieldUnique(fs, k, x);
  }

  // ---------------------------------------------------------------------
  // Arrays

  /** The element of `a` with key `k`, or else the element of `b`: what the
      structural ops leave at each position. */
  ghost function Expected(xs: seq<Value>, ys: seq<Value>, getKey: Value -> Key, k: Key): Value {
    var idxA := IndexMap(KeysOf(xs, getKey));
    var idxB := IndexMap(KeysOf(ys, getKey));
    if k in idxA && idxA[k] < |xs| then xs[idxA[k]]
    else if k in idxB && idxB[k] < |ys| then ys[idxB[k]]
    else Null
  }

  /** Every element of `cur` is the one `Expected` names for its key. */
  ghost predicate Canonical(cur: seq<Value>, xs: seq<Value>, ys: seq<Value>, getKey: Value -> Key) {
    forall y :: y in cur ==> y == Expected(xs, ys, getKey, getKey(y))
  }

  /** The structural ops, with every inserted element the expected one. */
  ghost predicate GoodOps(ops: seq<Change>, xs: seq<Value>, ys: seq<Value>, getKey: Value -> Key) {
    forall p :: 0 <= p < |ops| ==>
      IsStructural(ops[p]) && (ops[p].ArrayInsert? ==> ops[p].item == Expected(xs, ys, getKey, getKey(ops[p].item)))
  }

  /** The per-element entries of the scan from index `i` on: one for each
      element of `b` whose key is a key of `a`. */
  function ElemChanges(xs: seq<Value>, ys: seq<Value>, idx: map<Key, nat>, i: nat, getKey: Value -> Key): seq<Change>
    decreases |ys| - i
  {
    if i >= |ys| then []
    else ElemChange(xs, ys, idx, i, getKey) + ElemChanges(xs, ys, idx, i + 1, getKey)
  }

  /** The per-element entry for index `i`, when its key is in `a`. */
  function ElemChange(xs: seq<Value>, ys: seq<Value>, idx: map<Key, nat>, i: nat, getKey: Value -> Key): seq<Change>
    requires i < |ys|
  {
    if getKey(ys[i]) in idx then ItemChange(xs, ys, idx, i, getKey) else []
  }

  /** Structural ops act on an array as `KeyStep` acts on its key list, and
      keep it canonical. */
  lemma {:induction false} ApplyStructural(cur: seq<Value>, ops: seq<Change>, xs: seq<Value>, ys: seq<Value>, getKey: Value -> Key)
    requires GoodOps(ops, xs, ys, getKey) && Canonical(cur, xs, ys, getKey)
    ensures var r := ApplyChanges(Arr(cur), ops);
      && r.Arr?
      && KeysOf(r.items, getKey) == ReplayKeys(KeysOf(cur, getKey), ops, getKey)
      && Canonical(r.items, xs, ys, getKey)
    decreases ops
  {
    if ops != [] {
      var c := ops[0];
      var keys := KeysOf(cur, getKey);
      var next := ApplyChange(Arr(cur), c);
      assert next.Arr?;
      match c {
      case ArrayInsert(i, x) =>
        KeysOfSpliceInsert(cur, i, x, getKey);
        SpliceInsertMembers(cur, i, x);
      case ArrayDelete(i) =>
        KeysOfSpliceRemove(cur, i, getKey);
        SpliceRemoveMembers(cur, i);
      case ArrayMove(f, t) =>
        if f < |cur| {
          KeysOfSpliceRemove(cur, f, getKey);
          KeysOfSpliceInsert(SpliceRemove(cur, f), t, cur[f], getKey);
          SpliceRemoveMembers(cur, f);
          SpliceInsertMembers(SpliceRemove(cur, f), t, cur[f]);
        }
      case _ =>
        assert false;
      }
      assert KeysOf(next.items, getKey) == KeyStep(keys, c, getKey);
      assert GoodOps(ops[1..], xs, ys, getKey) by {
        forall p | 0 <= p < |ops| - 1
          ensures IsStructural(ops[1..][p])
        {
          assert ops[1..][p] == ops[p + 1];
        }
      }
      ApplyStructural(next.items, ops[1..], xs, ys, getKey);
    }
  }

  lemma {:induction false} InitialCanonical(xs: seq<Value>, ys: seq<Value>, getKey: Value -> Key)
    requires Distinct(KeysOf(xs, getKey))
    ensures Canonical(xs, xs, ys, getKey)
  {
    forall y | y in xs
      ensures y == Expected(xs, ys, getKey, getKey(y))
    {
      var t :| 0 <= t < |xs| && xs[t] == y;
      IndexMapAt(KeysOf(xs, getKey), t);
    }
  }

  /** The deletion loop keeps the keys of `a` that are keys of `b`. */
  lemma {:induction false} DeleteKeys(s: ArrayState, bKeySet: set<Key>, i: nat)
    requires i <= |s.keys| && Distinct(s.keys)
    ensures var r := DeleteAbsent(s, bKeySet, i);
      && Distinct(r.keys)
      && forall k :: k in r.keys <==> (k in s.keys[..i] && k in bKeySet) || k in s.keys[i..]
    decreases i
  {
    if i == 0 {
      assert s.keys[0..] == s.keys;
    } else {
      assert s.keys[..i] == s.keys[..i - 1] + [s.keys[i - 1]];
      if s.keys[i - 1] !in bKeySet {
        var s' := s.(keys := s.keys[..i - 1] + s.keys[i..], moves := s.moves + [ArrayDelete(i - 1)]);
        SpliceRemoveUnique(s.keys, i - 1);
        assert s'.keys == SpliceRemove(s.keys, i - 1);
        DeleteKeys(s', bKeySet, i - 1);
        assert s'.keys[..i - 1] == s.keys[..i - 1];
        assert s'.keys[i - 1..] == s.keys[i..];
      } else {
        DeleteKeys(s, bKeySet, i - 1);
        assert s.keys[i - 1..] == [s.keys[i - 1]] + s.keys[i..];
      }
    }
  }

  /** The invariant of the scan: the first `i` keys are those of `b`, the
      keys are unique, and they are the keys common to `a` and `b` together
      with the first `i` keys of `b`. */
  ghost predicate ScanInv(xs: seq<Value>, ys: seq<Value>, i: nat, s: ArrayState, getKey: Value -> Key) {
    var aKeys, bKeys := KeysOf(xs, getKey), KeysOf(ys, getKey);
    && i <= |ys| && i <= |s.keys| && s.keys[..i] == bKeys[..i] && Distinct(s.keys)
    && forall k :: k in s.keys <==> (k in aKeys && k in bKeys) || k in bKeys[..i]
  }

  /** One scan step keeps the invariant; it moves or keeps an element of
      `a` and emits its per-element entry, or it inserts the element of `b`
      when its key is not a key of `a`. */
  lemma {:induction false} ScanStepCanon(xs: seq<Value>, ys: seq<Value>, i: nat, s: ArrayState, getKey: Value -> Key)
    requires Distinct(KeysOf(xs, getKey)) && Distinct(KeysOf(ys, getKey))
    requires i < |ys| && ScanInv(xs, ys, i, s, getKey)
    ensures var idx := IndexMap(KeysOf(xs, getKey));
      var s' := ScanStep(xs, ys, idx, i, s, getKey);
      && ScanInv(xs, ys, i + 1, s', getKey)
      && s'.changes == s.changes + ElemChange(xs, ys, idx, i, getKey)
      && Extends(s.moves, s'.moves)
      && InsertsExpected(s'.moves, |s.moves|, xs, ys, getKey)
  {
    var aKeys, bKeys := KeysOf(xs, getKey), KeysOf(ys, getKey);
    var idx := IndexMap(aKeys);
    var k := getKey(ys[i]);
    assert k == bKeys[i];
    IndexMapFacts(aKeys);
    assert k !in bKeys[..i] by {
      forall j | 0 <= j < i
        ensures bKeys[j] != k
      {
        assert bKeys[j] != bKeys[i];
      }
    }
    assert bKeys[..i + 1] == bKeys[..i] + [k];
    if i < |s.keys| && s.keys[i] == k {
      ScanKeepCanon(xs, ys, i, s, getKey);
    } else if IndexOfFrom(s.keys, k, i + 1) != -1 {
      ScanMoveCanon(xs, ys, i, s, getKey);
    } else {
      ScanInsertCanon(xs, ys, i, s, getKey);
    }
  }

  /** The scan step that finds the key already in place. */
  lemma ScanKeepCanon(xs: seq<Value>, ys: seq<Value>, i: nat, s: ArrayState, getKey: Value -> Key)
    requires Distinct(KeysOf(xs, getKey)) && Distinct(KeysOf(ys, getKey))
    requires i < |ys| && ScanInv(xs, ys, i, s, getKey)
    requires i < |s.keys| && s.keys[i] == getKey(ys[i])
    requires KeysOf(ys, getKey)[..i + 1] == KeysOf(ys, getKey)[..i] + [getKey(ys[i])]
    ensures var idx := IndexMap(KeysOf(xs, getKey));
      var s' := ScanStep(xs, ys, idx, i, s, getKey);
      && ScanInv(xs, ys, i + 1, s', getKey)
      && s'.changes == s.changes + ElemChange(xs, ys, idx, i, getKey)
      && Extends(s.moves, s'.moves)
      && InsertsExpected(s'.moves, |s.moves|, xs, ys, getKey)
  {
    var aKeys := KeysOf(xs, getKey);
    var idx := IndexMap(aKeys);
    var k := getKey(ys[i]);
    IndexMapFacts(aKeys);
    assert k in aKeys;
    var s' := ScanStep(xs, ys, idx, i, s, getKey);
    assert s' == s.(changes := s.changes + ItemChange(xs, ys, idx, i, getKey));
    assert ElemChange(xs, ys, idx, i, getKey) == ItemChange(xs, ys, idx, i, getKey);
    ScanStepReplay(xs, ys, idx, i, s, getKey);
  }

  /** The scan step that moves the key from a later position. */
  lemma ScanMoveCanon(xs: seq<Value>, ys: seq<Value>, i: nat, s: ArrayState, getKey: Value -> Key)
    requires Distinct(KeysOf(xs, getKey)) && Distinct(KeysOf(ys, getKey))
    requires i < |ys| && ScanInv(xs, ys, i, s, getKey)
    requires !(i < |s.keys| && s.keys[i] == getKey(ys[i]))
    requires IndexOfFrom(s.keys, getKey(ys[i]), i + 1) != -1
    requires getKey(ys[i]) !in KeysOf(ys, getKey)[..i]
    requires KeysOf(ys, getKey)[..i + 1] == KeysOf(ys, getKey)[..i] + [getKey(ys[i])]
    ensures var idx := IndexMap(KeysOf(xs, getKey));
      var s' := ScanStep(xs, ys, idx, i, s, getKey);
      && ScanInv(xs, ys, i + 1, s', getKey)
      && s'.changes == s.changes + ElemChange(xs, ys, idx, i, getKey)
      && Extends(s.moves, s'.moves)
      && InsertsExpected(s'.moves, |s.moves|, xs, ys, getKey)
  {
    var aKeys := KeysOf(xs, getKey);
    var idx := IndexMap(aKeys);
    var k := getKey(ys[i]);
    var e := IndexOfFrom(s.keys, k, i + 1);
    assert s.keys[e] == k;
    IndexMapFacts(aKeys);
    assert k in aKeys;
    var removed := SpliceRemove(s.keys, e);
    var s' := ScanStep(xs, ys, idx, i, s, getKey);
    assert s' == ArrayState(SpliceInsert(removed, i, k), s.moves + [ArrayMove(e, i)], s.changes + ItemChange(xs, ys, idx, i, getKey));
    assert ElemChange(xs, ys, idx, i, getKey) == ItemChange(xs, ys, idx, i, getKey);
    SpliceRemoveUnique(s.keys, e);
    SpliceInsertUnique(removed, i, k);
    SpliceInsertMembers(removed, i, k);
    ScanStepReplay(xs, ys, idx, i, s, getKey);
    assert s'.moves[|s.moves|] == ArrayMove(e, i);
  }

  /** The scan step that inserts an element whose key is not in `a`. */
  lemma ScanInsertCanon(xs: seq<Value>, ys: seq<Value>, i: nat, s: ArrayState, getKey: Value -> Key)
    requires Distinct(KeysOf(xs, getKey)) && Distinct(KeysOf(ys, getKey))
    requires i < |ys| && ScanInv(xs, ys, i, s, getKey)
    requires !(i < |s.keys| && s.keys[i] == getKey(ys[i]))
    requires IndexOfFrom(s.keys, getKey(ys[i]), i + 1) == -1
    requires getKey(ys[i]) !in KeysOf(ys, getKey)[..i]
    requires KeysOf(ys, getKey)[..i + 1] == KeysOf(ys, getKey)[..i] + [getKey(ys[i])]
    ensures var idx := IndexMap(KeysOf(xs, getKey));
      var s' := ScanStep(xs, ys, idx, i, s, getKey);
      && ScanInv(xs, ys, i + 1, s', getKey)
      && s'.changes == s.changes + ElemChange(xs, ys, idx, i, getKey)
      && Extends(s.moves, s'.moves)
      && InsertsExpected(s'.moves, |s.moves|, xs, ys, getKey)
  {
    var aKeys, bKeys := KeysOf(xs, getKey), KeysOf(ys, getKey);
    var idx := IndexMap(aKeys);
    var k := getKey(ys[i]);
    assert k == bKeys[i];
    assert k !in s.keys by {
      forall t | 0 <= t < |s.keys|
        ensures s.keys[t] != k
      {
        if t < i {
          assert s.keys[t] == s.keys[..i][t] == bKeys[..i][t];
        }
      }
    }
    assert k !in aKeys;
    IndexMapFacts(aKeys);
    assert k !in idx;
    var s' := ScanStep(xs, ys, idx, i, s, getKey);
    assert s' == s.(keys := SpliceInsert(s.keys, i, k), moves := s.moves + [ArrayInsert(i, ys[i])]);
    assert ElemChange(xs, ys, idx, i, getKey) == [];
    SpliceInsertUnique(s.keys, i, k);
    SpliceInsertMembers(s.keys, i, k);
    IndexMapAt(bKeys, i);
    assert ys[i] == Expected(xs, ys, getKey, k);
    ScanStepReplay(xs, ys, idx, i, s, getKey);
    assert s'.moves[|s.moves|] == ArrayInsert(i, ys[i]);
  }

  /** The scan from index `i` on keeps its invariant, emits the per-element
      entries `ElemChanges` and inserts only expected elements. */
  lemma {:induction false} ScanCanon(xs: seq<Value>, ys: seq<Value>, i: nat, s: ArrayState, getKey: Value -> Key)
    requires Distinct(KeysOf(xs, getKey)) && Distinct(KeysOf(ys, getKey))
    requires ScanInv(xs, ys, i, s, getKey)
    ensures var idx := IndexMap(KeysOf(xs, getKey));
      var r := Scan(xs, ys, idx, i, s, getKey);
      && r.changes == s.changes + ElemChanges(xs, ys, idx, i, getKey)
      && Extends(s.moves, r.moves)
      && InsertsExpected(r.moves, |s.moves|, xs, ys, getKey)
    decreases |ys| - i
  {
    var idx := IndexMap(KeysOf(xs, getKey));
    if i < |ys| {
      var s' := ScanStep(xs, ys, idx, i, s, getKey);
      ScanStepCanon(xs, ys, i, s, getKey);
      ScanCanon(xs, ys, i + 1, s', getKey);
      var r := Scan(xs, ys, idx, i, s, getKey);
      assert r == Scan(xs, ys, idx, i + 1, s', getKey);
      var x := ElemChange(xs, ys, idx, i, getKey);
      assert ElemChanges(xs, ys, idx, i, getKey) == x + ElemChanges(xs, ys, idx, i + 1, getKey);
      assert r.changes == (s.changes + x) + ElemChanges(xs, ys, idx, i + 1, getKey);
      InsertsGlue(s.moves, s'.moves, r.moves, xs, ys, getKey);
    } else {
      assert s.changes + [] == s.changes;
    }
  }

  /** The inserts of `ops` from position `from` on carry expected elements. */
  ghost predicate InsertsExpected(ops: seq<Change>, from: nat, xs: seq<Value>, ys: seq<Value>, getKey: Value -> Key) {
    forall p :: from <= p < |ops| && ops[p].ArrayInsert? ==> ops[p].item == Expected(xs, ys, getKey, getKey(ops[p].item))
  }

  lemma InsertsGlue(m0: seq<Change>, m1: seq<Change>, m2: seq<Change>, xs: seq<Value>, ys: seq<Value>, getKey: Value -> Key)
    requires Extends(m0, m1) && Extends(m1, m2)
    requires InsertsExpected(m1, |m0|, xs, ys, getKey) && InsertsExpected(m2, |m1|, xs, ys, getKey)
    ensures Extends(m0, m2) && InsertsExpected(m2, |m0|, xs, ys, getKey)
  {
    assert forall p :: 0 <= p < |m1| ==> m2[p] == m1[p];
    assert m2[..|m0|] == m1[..|m0|];
  }

  /** All the structural ops of the three phases are good ones. */
  lemma {:induction false} PhasesGood(xs: seq<Value>, ys: seq<Value>, getKey: Value -> Key)
    requires Distinct(KeysOf(xs, getKey)) && Distinct(KeysOf(ys, getKey))
    ensures GoodOps(ArrayPhases(xs, ys, getKey).moves, xs, ys, getKey)
    ensures Phase2(xs, ys, getKey).changes == ElemChanges(xs, ys, IndexMap(KeysOf(xs, getKey)), 0, getKey)
  {
    var aKeys, bKeys := KeysOf(xs, getKey), KeysOf(ys, getKey);
    var bSet := set k | k in bKeys;
    var s0 := ArrayState(aKeys, [], []);
    var s1, s2, s3 := Phase1(xs, ys, getKey), Phase2(xs, ys, getKey), ArrayPhases(xs, ys, getKey);
    PhaseFacts(xs, ys, getKey);
    DeleteOps(s0, bSet, |aKeys|);
    DeleteKeys(s0, bSet, |aKeys|);
    assert aKeys[..|aKeys|] == aKeys;
    assert ScanInv(xs, ys, 0, s1, getKey);
    ScanCanon(xs, ys, 0, s1, getKey);
    ScanReplay(xs, ys, IndexMap(aKeys), 0, s1, getKey);
    PopPhase(s2, |ys|, getKey);
    forall p | 0 <= p < |s3.moves|
      ensures IsStructural(s3.moves[p])
      ensures s3.moves[p].ArrayInsert? ==> s3.moves[p].item == Expected(xs, ys, getKey, getKey(s3.moves[p].item))
    {
      if p < |s1.moves| {
        assert s3.moves[p] == s1.moves[p];
      } else if p < |s2.moves| {
        assert s3.moves[p] == s2.moves[p];
      }
    }
  }

  /** Two well-formed, compatible arrays. */
  ghost predicate ArrPair(a: Value, b: Value, getKey: Value -> Key) {
    a.Arr? && b.Arr? && WellFormed(a, getKey) && WellFormed(b, getKey) && Compatible(a, b, getKey)
  }

  /** The per-element entry for index `i`, applied, makes the element at
      `i` deeply equal to that of `b` and leaves the others alone. */
  lemma {:induction false} ElemStep(a: Value, b: Value, cur: seq<Value>, i: nat, getKey: Value -> Key)
    requires a.Arr? && b.Arr?
    requires ArrPair(a, b, getKey)
    requires |cur| == |b.items| && i < |b.items|
    requires cur[i] == Expected(a.items, b.items, getKey, getKey(b.items[i]))
    ensures var idx := IndexMap(KeysOf(a.items, getKey));
      var next := ApplyChanges(Arr(cur), ElemChange(a.items, b.items, idx, i, getKey));
      && next.Arr? && |next.items| == |cur|
      && (forall t :: 0 <= t < |cur| && t != i ==> next.items[t] == cur[t])
      && DeepEq(next.items[i], b.items[i])
    decreases Size(a), 0, 0
  {
    var xs, ys := a.items, b.items;
    var aKeys, bKeys := KeysOf(xs, getKey), KeysOf(ys, getKey);
    var idx := IndexMap(aKeys);
    var k := getKey(ys[i]);
    var ec := ElemChange(xs, ys, idx, i, getKey);
    var next := ApplyChanges(Arr(cur), ec);
    assert WellFormed(ys[i], getKey);
    IndexMapFacts(aKeys);
    if k in idx {
      var j := idx[k];
      assert aKeys[j] == k;
      assert cur[i] == xs[j];
      assert WellFormed(xs[j], getKey);
      assert Compatible(xs[j], ys[i], getKey);
      ItemSmaller(xs, j);
      RoundTrip(xs[j], ys[i], getKey);
      var d := GetChanges(xs[j], ys[i], getKey);
      if d.Replace? {
        assert ec == [ArrayReplace(i, d.value)];
        ApplyOne(Arr(cur), ArrayReplace(i, d.value));
        assert next == Arr(cur[i := ys[i]]);
        DeepEqRefl(ys[i], getKey);
      } else if |d.changes| > 0 {
        assert ec == [ArrayChanges(i, d)];
        ApplyOne(Arr(cur), ArrayChanges(i, d));
        assert next == Arr(cur[i := ApplyChanges(xs[j], d.changes)]);
      } else {
        assert ec == [];
        assert next == Arr(cur);
        assert ApplyChanges(xs[j], d.changes) == xs[j];
      }
    } else {
      assert ec == [];
      assert next == Arr(cur);
      IndexMapAt(bKeys, i);
      DeepEqRefl(ys[i], getKey);
    }
  }

  /** The per-element entries, applied after the structural ops, make every
      element from index `i` on deeply equal to that of `b`. */
  lemma {:induction false} ApplyElems(a: Value, b: Value, cur: seq<Value>, i: nat, getKey: Value -> Key)
    requires a.Arr? && b.Arr?
    requires ArrPair(a, b, getKey)
    requires |cur| == |b.items| && i <= |b.items|
    requires ExpectedFrom(cur, a.items, b.items, getKey, i)
    ensures var r := ApplyChanges(Arr(cur), ElemChanges(a.items, b.items, IndexMap(KeysOf(a.items, getKey)), i, getKey));
      && r.Arr? && |r.items| == |cur|
      && (forall t :: 0 <= t < i ==> r.items[t] == cur[t])
      && (forall t :: i <= t < |cur| ==> DeepEq(r.items[t], b.items[t]))
    decreases Size(a), 1, |b.items| - i
  {
    var xs, ys := a.items, b.items;
    var idx := IndexMap(KeysOf(xs, getKey));
    if i < |ys| {
      var x := ElemChange(xs, ys, idx, i, getKey);
      var later := ElemChanges(xs, ys, idx, i + 1, getKey);
      assert ElemChanges(xs, ys, idx, i, getKey) == x + later;
      var next := ApplyChanges(Arr(cur), x);
      ExpectedAt(cur, xs, ys, getKey, i);
      ElemStep(a, b, cur, i, getKey);
      assert Arr(next.items) == next;
      ExpectedShift(cur, next.items, xs, ys, getKey, i);
      ApplyElems(a, b, next.items, i + 1, getKey);
      ApplyChangesAppend(Arr(cur), x, later);
      var r := ApplyChanges(next, later);
      ElemsCombine(cur, next.items, r.items, ys, i);
    }
  }

  /** Every element of `cur` from `i` on is the one `Expected` names for
      the key `b` has there. */
  ghost predicate ExpectedFrom(cur: seq<Value>, xs: seq<Value>, ys: seq<Value>, getKey: Value -> Key, i: nat) {
    |cur| == |ys| && forall t :: i <= t < |ys| ==> cur[t] == Expected(xs, ys, getKey, getKey(ys[t]))
  }

  lemma ExpectedAt(cur: seq<Value>, xs: seq<Value>, ys: seq<Value>, getKey: Value -> Key, i: nat)
    requires ExpectedFrom(cur, xs, ys, getKey, i) && i < |ys|
    ensures cur[i] == Expected(xs, ys, getKey, getKey(ys[i]))
  {
  }

  /** Changing only the element at `i` keeps the later ones expected. */
  lemma ExpectedShift(cur: seq<Value>, next: seq<Value>, xs: seq<Value>, ys: seq<Value>, getKey: Value -> Key, i: nat)
    requires ExpectedFrom(cur, xs, ys, getKey, i) && i < |ys|
    requires |next| == |cur| && forall t :: 0 <= t < |cur| && t != i ==> next[t] == cur[t]
    ensures ExpectedFrom(next, xs, ys, getKey, i + 1)
  {
  }

  /** Gluing one element's step to the steps after it. */
  lemma ElemsCombine(cur: seq<Value>, next: seq<Value>, r: seq<Value>, ys: seq<Value>, i: nat)
    requires |next| == |cur| == |r| == |ys| && i < |cur|
    requires forall t :: 0 <= t < |cur| && t != i ==> next[t] == cur[t]
    requires DeepEq(next[i], ys[i])
    requires forall t :: 0 <= t < i + 1 ==> r[t] == next[t]
    requires forall t :: i + 1 <= t < |r| ==> DeepEq(r[t], ys[t])
    ensures forall t :: 0 <= t < i ==> r[t] == cur[t]
    ensures forall t :: i <= t < |r| ==> DeepEq(r[t], ys[t])
  {
    assert r[i] == next[i];
  }

  lemma {:induction false} ArrayRoundTrip(a: Value, b: Value, getKey: Value -> Key)
    requires a.Arr? && b.Arr?
    requires WellFormed(a, getKey) && WellFormed(b, getKey) && Compatible(a, b, getKey)
    ensures DeepEq(ApplyChanges(a, ArrayDiff(a, b, getKey)), b)
    decreases Size(a), 2
  {
    var xs, ys := a.items, b.items;
    var s2, s3 := Phase2(xs, ys, getKey), ArrayPhases(xs, ys, getKey);
    ArrayDiffLayout(a, b, getKey);
    PhasesGood(xs, ys, getKey);
    MovesReplay(xs, ys, getKey);
    InitialCanonical(xs, ys, getKey);
    ApplyStructural(xs, s3.moves, xs, ys, getKey);
    var cur := ApplyChanges(a, s3.moves).items;
    assert KeysOf(cur, getKey) == KeysOf(ys, getKey);
    forall t | 0 <= t < |ys|
      ensures cur[t] == Expected(xs, ys, getKey, getKey(ys[t]))
    {
      assert cur[t] in cur;
      assert KeysOf(cur, getKey)[t] == getKey(cur[t]);
    }
    assert ArrPair(a, b, getKey) && ExpectedFrom(cur, xs, ys, getKey, 0);
    ApplyElems(a, b, cur, 0, getKey);
    ApplyChangesAppend(a, s3.moves, s2.changes);
  }

  // ---------------------------------------------------------------------
  // Comparing a value with itself

  /** `getChanges(a, a)` is the empty list: nothing to do. */
  lemma {:induction false} SelfDiffEmpty(a: Value, getKey: Value -> Key)
    requires WellFormed(a, getKey)
    ensures GetChanges(a, a, getKey) == Edits([])
    decreases Size(a), 2
  {
    if a.Arr? {
      ArraySelfEmpty(a, getKey);
    } else if a.Obj? {
      ObjectOverSelf(a, Dedup(FieldKeys(a.fields) + FieldKeys(a.fields)), getKey);
    }
  }

  lemma {:induction false} ObjectOverSelf(a: Value, keys: seq<string>, getKey: Value -> Key)
    requires a.Obj? && WellFormed(a, getKey)
    ensures ObjectChangesOver(a, a, keys, getKey) == []
    decreases Size(a), 1, |keys|
  {
    if keys != [] {
      var k := keys[0];
      var la := Lookup(a.fields, k);
      if la.Some? {
        var i := LookupIndex(a.fields, k);
        assert WellFormed(a.fields[i].value, getKey);
        LookupSmaller(a, k);
        SelfDiffEmpty(la.value, getKey);
      }
      assert KeyChange(a, a, k, getKey) == [];
      ObjectOverSelf(a, keys[1..], getKey);
    }
  }

  lemma {:induction false} DeleteNothing(s: ArrayState, bKeySet: set<Key>, i: nat)
    requires i <= |s.keys| && forall j :: 0 <= j < i ==> s.keys[j] in bKeySet
    ensures DeleteAbsent(s, bKeySet, i) == s
    decreases i
  {
    if i > 0 {
      DeleteNothing(s, bKeySet, i - 1);
    }
  }

  lemma {:induction false} ScanSelf(xs: seq<Value>, i: nat, s: ArrayState, getKey: Value -> Key)
    requires WellFormed(Arr(xs), getKey) && i <= |xs| && s.keys == KeysOf(xs, getKey)
    ensures Scan(xs, xs, IndexMap(KeysOf(xs, getKey)), i, s, getKey) == s
    decreases Size(Arr(xs)), 0, |xs| - i
  {
    if i < |xs| {
      var aKeys := KeysOf(xs, getKey);
      var idx := IndexMap(aKeys);
      IndexMapAt(aKeys, i);
      assert WellFormed(xs[i], getKey);
      ItemSmaller(xs, i);
      SelfDiffEmpty(xs[i], getKey);
      assert ItemChange(xs, xs, idx, i, getKey) == [];
      assert ScanStep(xs, xs, idx, i, s, getKey) == s;
      ScanSelf(xs, i + 1, s, getKey);
    }
  }

  lemma {:induction false} ArraySelfEmpty(a: Value, getKey: Value -> Key)
    requires a.Arr? && WellFormed(a, getKey)
    ensures ArrayDiff(a, a, getKey) == []
    decreases Size(a), 1
  {
    var xs := a.items;
    var aKeys := KeysOf(xs, getKey);
    var s0 := ArrayState(aKeys, [], []);
    DeleteNothing(s0, set k | k in aKeys, |aKeys|);
    ScanSelf(xs, 0, s0, getKey);
    assert ArrayPhases(xs, xs, getKey) == s0;
  }
}
