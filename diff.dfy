/** The keyed structural diff of `src/lib/diff.ts`, as functions on values.

    `GetChanges` compares two plain values and yields either a whole
    replacement or a list of changes; `ApplyChanges` replays such a list on a
    value. The loops of the source are written out as methods in module
    `DiffLoops`; the properties are proved in module `DiffProofs`. */
module Diff {
  import opened Wrappers

  /** The identity token `getKey` assigns to an array element. */
  type Key = string

  /** A plain value. Numbers are integers; `Date` is a boxed timestamp in
      milliseconds, which `valueOf` unwraps to a number. An object is the
      ordered list of its own properties. */
  datatype Value =
    | Null
    | Bool(b: bool)
    | Num(n: int)
    | Str(s: string)
    | Date(ms: int)
    | Arr(items: seq<Value>)
    | Obj(fields: seq<Field>)

  /** An own property of an object. */
  datatype Field = Field(key: string, value: Value)

  /** What `typeof` reports for an unwrapped value. */
  datatype JsType = TObject | TBoolean | TNumber | TString

  /** The result of `getChanges`: `{type: 'replace', value}` or a change list. */
  datatype Diff = Replace(value: Value) | Edits(changes: seq<Change>)

  /** One entry of a change list (`ObjectChange` and `ArrayChange`). */
  datatype Change =
    | ArrayInsert(index: nat, item: Value)
    | ArrayDelete(index: nat)
    | ArrayMove(from: nat, to: nat)
    | ArrayChanges(index: nat, changes: Diff)
    | ArrayReplace(index: nat, value: Value)
    | ObjectSet(key: string, value: Value)
    | ObjectDelete(key: string)
    | ObjectChanges(key: string, changes: Diff)

  /** The simulated state of `getArrayChanges`: the key list `aKeys`, the
      structural ops `moves` and the per-element `changes` emitted so far. */
  datatype ArrayState = ArrayState(keys: seq<Key>, moves: seq<Change>, changes: seq<Change>)

  // ---------------------------------------------------------------------
  // Size, used as the termination measure of the mutual recursion

  function Size(v: Value): nat {
    match v
    case Arr(xs) => 1 + ItemsSize(xs)
    case Obj(fs) => 1 + FieldsSize(fs)
    case _ => 1
  }

  function ItemsSize(xs: seq<Value>): nat {
    if xs == [] then 0 else Size(xs[0]) + ItemsSize(xs[1..])
  }

  function FieldsSize(fs: seq<Field>): nat {
    if fs == [] then 0 else Size(fs[0].value) + FieldsSize(fs[1..])
  }

  lemma {:induction false} ItemSmaller(xs: seq<Value>, i: nat)
    requires i < |xs|
    ensures Size(xs[i]) <= ItemsSize(xs)
  {
    if i > 0 {
      ItemSmaller(xs[1..], i - 1);
    }
  }

  lemma {:induction false} FieldSmaller(fs: seq<Field>, i: nat)
    requires i < |fs|
    ensures Size(fs[i].value) <= FieldsSize(fs)
  {
    if i > 0 {
      FieldSmaller(fs[1..], i - 1);
    }
  }

  // ---------------------------------------------------------------------
  // Type dispatch

  /** `typeof x?.valueOf === 'function' ? x.valueOf() : x` */
  function Unwrap(v: Value): Value {
    if v.Date? then Num(v.ms) else v
  }

  /** `typeof` of an unwrapped value; `typeof null` is `'object'`. */
  function TypeOf(v: Value): JsType {
    match v
    case Bool(_) => TBoolean
    case Num(_) => TNumber
    case Str(_) => TString
    case _ => TObject
  }

  // ---------------------------------------------------------------------
  // Own properties

  /** The own enumerable properties in order: an object's fields, or the
      index-named elements of an array (`Object.keys` of an array). */
  function Entries(v: Value): seq<Field> {
    match v
    case Obj(fs) => fs
    case Arr(xs) => seq(|xs|, i requires 0 <= i < |xs| => Field(NatToString(i), xs[i]))
    case _ => []
  }

  function FieldKeys(fs: seq<Field>): seq<string> {
    seq(|fs|, i requires 0 <= i < |fs| => fs[i].key)
  }

  /** Index of the first field named `k`, or -1. */
  function FindField(fs: seq<Field>, k: string): (j: int)
    ensures -1 <= j < |fs|
    ensures j >= 0 ==> fs[j].key == k && forall t :: 0 <= t < j ==> fs[t].key != k
    ensures j < 0 ==> forall t :: 0 <= t < |fs| ==> fs[t].key != k
  {
    if fs == [] then -1
    else if fs[0].key == k then 0
    else
      var j := FindField(fs[1..], k);
      if j < 0 then -1 else j + 1
  }

  /** `Object.hasOwn(o, k) ? o[k] : undefined` */
  function Lookup(fs: seq<Field>, k: string): Option<Value> {
    var j := FindField(fs, k);
    if j < 0 then None else Some(fs[j].value)
  }

  /** `o[k] = x`: an existing property keeps its place, a new one goes last. */
  function SetField(fs: seq<Field>, k: string, x: Value): seq<Field> {
    var j := FindField(fs, k);
    if j < 0 then fs + [Field(k, x)] else fs[j := Field(k, x)]
  }

  /** `delete o[k]` */
  function RemoveField(fs: seq<Field>, k: string): seq<Field> {
    if fs == [] then []
    else if fs[0].key == k then RemoveField(fs[1..], k)
    else [fs[0]] + RemoveField(fs[1..], k)
  }

  /** `[...new Set(ks)]`: first occurrences, in order. */
  function Dedup(ks: seq<string>): seq<string> {
    if ks == [] then []
    else
      var r := Dedup(ks[..|ks| - 1]);
      if ks[|ks| - 1] in r then r else r + [ks[|ks| - 1]]
  }

  lemma {:induction false} LookupSmaller(v: Value, k: string)
    requires v.Arr? || v.Obj?
    requires Lookup(Entries(v), k).Some?
    ensures Size(Lookup(Entries(v), k).value) < Size(v)
  {
    var j := FindField(Entries(v), k);
    if v.Arr? {
      ItemSmaller(v.items, j);
    } else {
      FieldSmaller(v.fields, j);
    }
  }

  /** `s.indexOf(x, from)`: the first index at or after `from` holding `x`, or -1. */
  function IndexOfFrom(s: seq<Key>, x: Key, from: nat): (j: int)
    ensures j == -1 || (from <= j < |s| && s[j] == x && forall t :: from <= t < j ==> s[t] != x)
    ensures j == -1 ==> forall t :: from <= t < |s| ==> s[t] != x
    decreases |s| - from
  {
    if from >= |s| then -1
    else if s[from] == x then from
    else IndexOfFrom(s, x, from + 1)
  }

  // ---------------------------------------------------------------------
  // getChanges

  /** `getChanges(a, b, getKey)` */
  function GetChanges(a: Value, b: Value, getKey: Value -> Key): Diff
    decreases Size(a), 2
  {
    var av := Unwrap(a);
    var bv := Unwrap(b);
    if TypeOf(av) != TypeOf(bv) then Replace(b)
    else if av.Arr? && bv.Arr? then Edits(ArrayDiff(av, bv, getKey))
    else if TypeOf(av) == TObject && !av.Null? && !bv.Null? then Edits(ObjectDiff(av, bv, getKey))
    else if av != bv then Replace(b)
    else Edits([])
  }

  /** `getObjectChanges(a, b, getKey)`; `a` or `b` may be an array, whose
      properties are then its index-named elements. */
  function ObjectDiff(a: Value, b: Value, getKey: Value -> Key): seq<Change>
    requires a.Arr? || a.Obj?
    requires b.Arr? || b.Obj?
    decreases Size(a), 1
  {
    ObjectChangesOver(a, b, Dedup(FieldKeys(Entries(a)) + FieldKeys(Entries(b))), getKey)
  }

  /** The changes the loop of `getObjectChanges` emits for `keys`, in order. */
  function ObjectChangesOver(a: Value, b: Value, keys: seq<string>, getKey: Value -> Key): seq<Change>
    requires a.Arr? || a.Obj?
    requires b.Arr? || b.Obj?
    decreases Size(a), 0, |keys|
  {
    if keys == [] then []
    else KeyChange(a, b, keys[0], getKey) + ObjectChangesOver(a, b, keys[1..], getKey)
  }

  /** One iteration of the loop of `getObjectChanges`. */
  function KeyChange(a: Value, b: Value, k: string, getKey: Value -> Key): seq<Change>
    requires a.Arr? || a.Obj?
    requires b.Arr? || b.Obj?
    decreases Size(a), 0, 0
  {
    match Lookup(Entries(a), k)
    case Some(av) =>
      (match Lookup(Entries(b), k)
       case Some(bv) =>
         LookupSmaller(a, k);
         (match GetChanges(av, bv, getKey)
          case Replace(v) => [ObjectSet(k, v)]
          case Edits(cs) => if |cs| > 0 then [ObjectChanges(k, Edits(cs))] else [])
       case None => [ObjectDelete(k)])
    case None =>
      (match Lookup(Entries(b), k)
       case Some(bv) => [ObjectSet(k, bv)]
       case None => [])
  }

  // ---------------------------------------------------------------------
  // getArrayChanges

  /** `array.map(getKey)` */
  function KeysOf(xs: seq<Value>, getKey: Value -> Key): (ks: seq<Key>)
    ensures |ks| == |xs|
  {
    seq(|xs|, i requires 0 <= i < |xs| => getKey(xs[i]))
  }

  /** `aKeyToIndex`: each key to the last index holding it. */
  function IndexMap(keys: seq<Key>): map<Key, nat> {
    if keys == [] then map[]
    else IndexMap(keys[..|keys| - 1])[keys[|keys| - 1] := |keys| - 1]
  }

  /** The deletion loop, from index `i - 1` down to 0: each key absent from
      `bKeySet` is spliced out and an `array-delete` for its index emitted. */
  function DeleteAbsent(s: ArrayState, bKeySet: set<Key>, i: nat): ArrayState
    requires i <= |s.keys|
    decreases i
  {
    if i == 0 then s
    else if s.keys[i - 1] !in bKeySet then
      DeleteAbsent(s.(keys := s.keys[..i - 1] + s.keys[i..], moves := s.moves + [ArrayDelete(i - 1)]), bKeySet, i - 1)
    else DeleteAbsent(s, bKeySet, i - 1)
  }

  /** The per-element entry for `arrayB[i]`, whose key is `k`, when `k` is a
      key of `arrayA` (`arrayA[aKeyToIndex[k]]` is `undefined` otherwise,
      which `getChanges` replaces). */
  function ItemChange(xs: seq<Value>, ys: seq<Value>, idx: map<Key, nat>, i: nat, getKey: Value -> Key): seq<Change>
    requires i < |ys|
    decreases Size(Arr(xs)), 0, 0
  {
    var k := getKey(ys[i]);
    if k in idx && idx[k] < |xs| then
      ItemSmaller(xs, idx[k]);
      match GetChanges(xs[idx[k]], ys[i], getKey)
      case Replace(v) => [ArrayReplace(i, v)]
      case Edits(cs) => if |cs| > 0 then [ArrayChanges(i, Edits(cs))] else []
    else [ArrayReplace(i, ys[i])]
  }

  /** The scan of `arrayB` from index `i` on: keep, move or insert so that
      the key list agrees with `bKeys` up to each index. */
  function Scan(xs: seq<Value>, ys: seq<Value>, idx: map<Key, nat>, i: nat, s: ArrayState, getKey: Value -> Key): ArrayState
    decreases Size(Arr(xs)), 0, |ys| - i + 1
  {
    if i >= |ys| then s
    else Scan(xs, ys, idx, i + 1, ScanStep(xs, ys, idx, i, s, getKey), getKey)
  }

  /** One iteration of the scan, for `arrayB[i]` whose key is `k`. */
  function ScanStep(xs: seq<Value>, ys: seq<Value>, idx: map<Key, nat>, i: nat, s: ArrayState, getKey: Value -> Key): ArrayState
    requires i < |ys|
    decreases Size(Arr(xs)), 0, |ys| - i
  {
    var k := getKey(ys[i]);
    if i < |s.keys| && s.keys[i] == k then
      s.(changes := s.changes + ItemChange(xs, ys, idx, i, getKey))
    else
      var e := IndexOfFrom(s.keys, k, i + 1);
      if e != -1 then
        ArrayState(SpliceInsert(SpliceRemove(s.keys, e), i, s.keys[e]),
                   s.moves + [ArrayMove(e, i)],
                   s.changes + ItemChange(xs, ys, idx, i, getKey))
      else
        s.(keys := SpliceInsert(s.keys, i, k), moves := s.moves + [ArrayInsert(i, ys[i])])
  }

  /** The final loop: pop surplus keys, emitting an `array-delete` for each. */
  function PopSurplus(s: ArrayState, n: nat): ArrayState
    decreases |s.keys|
  {
    if |s.keys| > n then
      PopSurplus(s.(keys := s.keys[..|s.keys| - 1], moves := s.moves + [ArrayDelete(|s.keys| - 1)]), n)
    else s
  }

  /** The state after all three phases of `getArrayChanges`. */
  function ArrayPhases(xs: seq<Value>, ys: seq<Value>, getKey: Value -> Key): ArrayState
    decreases Size(Arr(xs)), 1, 0
  {
    var aKeys := KeysOf(xs, getKey);
    var bKeys := KeysOf(ys, getKey);
    var s1 := DeleteAbsent(ArrayState(aKeys, [], []), set k | k in bKeys, |aKeys|);
    var s2 := Scan(xs, ys, IndexMap(aKeys), 0, s1, getKey);
    PopSurplus(s2, |bKeys|)
  }

  /** `getArrayChanges(a, b, getKey)`: all structural ops, then the
      per-element changes. */
  function ArrayDiff(a: Value, b: Value, getKey: Value -> Key): seq<Change>
    requires a.Arr? && b.Arr?
    decreases Size(a), 1, 1
  {
    var s := ArrayPhases(a.items, b.items, getKey);
    s.moves + s.changes
  }

  // ---------------------------------------------------------------------
  // applyChanges

  /** `applyChanges(a, changes)`: the changes replayed in order. */
  function ApplyChanges(v: Value, cs: seq<Change>): Value
    decreases cs
  {
    if cs == [] then v else ApplyChanges(ApplyChange(v, cs[0]), cs[1..])
  }

  /** One case of the `switch` of `applyChanges`. An op on a value of the
      wrong kind, or at an index past the end, leaves the value as it is. */
  function ApplyChange(v: Value, c: Change): Value
    decreases c
  {
    match c
    case ArrayInsert(i, x) => if v.Arr? then Arr(SpliceInsert(v.items, i, x)) else v
    case ArrayDelete(i) => if v.Arr? then Arr(SpliceRemove(v.items, i)) else v
    case ArrayMove(f, t) =>
      if v.Arr? && f < |v.items| then Arr(SpliceInsert(SpliceRemove(v.items, f), t, v.items[f])) else v
    case ArrayReplace(i, x) => if v.Arr? && i < |v.items| then Arr(v.items[i := x]) else v
    case ArrayChanges(i, d) =>
      if v.Arr? && i < |v.items| then Arr(v.items[i := ApplyDiff(v.items[i], d)]) else v
    case ObjectSet(k, x) => if v.Obj? then Obj(SetField(v.fields, k, x)) else v
    case ObjectDelete(k) => if v.Obj? then Obj(RemoveField(v.fields, k)) else v
    case ObjectChanges(k, d) =>
      if !v.Obj? then v
      else if d.Replace? then Obj(SetField(v.fields, k, d.value))
      else match Lookup(v.fields, k)
        case Some(x) => Obj(SetField(v.fields, k, ApplyDiff(x, d)))
        case None => v
  }

  /** A nested `changes` field: a replacement is assigned, a list applied. */
  function ApplyDiff(v: Value, d: Diff): Value
    decreases d
  {
    match d
    case Replace(x) => x
    case Edits(cs) => ApplyChanges(v, cs)
  }
}
