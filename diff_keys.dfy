/** Properties of `getArrayChanges` that hold for every pair of arrays:
    the structural ops it emits, replayed on the key list of `a`, yield the
    key list of `b`; the ops come in the order deletions, moves and inserts,
    pops, per-element entries. */
module DiffKeys {
  import opened Wrappers
  import opened Diff

  /** The effect of one entry of a change list on a key list; per-element
      entries leave it alone. Mirrors `ApplyChange` on an array. */
  function KeyStep(keys: seq<Key>, c: Change, getKey: Value -> Key): seq<Key> {
    match c
    case ArrayInsert(i, x) => SpliceInsert(keys, i, getKey(x))
    case ArrayDelete(i) => SpliceRemove(keys, i)
    case ArrayMove(f, t) => if f < |keys| then SpliceInsert(SpliceRemove(keys, f), t, keys[f]) else keys
    case _ => keys
  }

  /** A change list replayed on a key list. */
  function ReplayKeys(keys: seq<Key>, ops: seq<Change>, getKey: Value -> Key): seq<Key>
    decreases ops
  {
    if ops == [] then keys else ReplayKeys(KeyStep(keys, ops[0], getKey), ops[1..], getKey)
  }

  predicate IsStructural(c: Change) {
    c.ArrayInsert? || c.ArrayDelete? || c.ArrayMove?
  }

  predicate IsPerElement(c: Change) {
    c.ArrayReplace? || c.ArrayChanges?
  }

  /** `t` extends `s`; `t[|s|..]` is what was appended. */
  ghost predicate Extends<T>(s: seq<T>, t: seq<T>) {
    |s| <= |t| && t[..|s|] == s
  }

  lemma ReplayCons(keys: seq<Key>, op: Change, rest: seq<Change>, getKey: Value -> Key)
    ensures ReplayKeys(keys, [op] + rest, getKey) == ReplayKeys(KeyStep(keys, op, getKey), rest, getKey)
  {
    assert ([op] + rest)[1..] == rest;
  }

  lemma {:induction false} ReplayAppend(keys: seq<Key>, o1: seq<Change>, o2: seq<Change>, getKey: Value -> Key)
    ensures ReplayKeys(keys, o1 + o2, getKey) == ReplayKeys(ReplayKeys(keys, o1, getKey), o2, getKey)
    decreases o1
  {
    if o1 == [] {
      assert o1 + o2 == o2;
    } else {
      assert o1 + o2 == [o1[0]] + (o1[1..] + o2);
      ReplayCons(keys, o1[0], o1[1..] + o2, getKey);
      ReplayAppend(KeyStep(keys, o1[0], getKey), o1[1..], o2, getKey);
    }
  }

  lemma {:induction false} ReplayPerElement(keys: seq<Key>, ops: seq<Change>, getKey: Value -> Key)
    requires forall c :: c in ops ==> IsPerElement(c)
    ensures ReplayKeys(keys, ops, getKey) == keys
    decreases ops
  {
    if ops != [] {
      assert ops[0] in ops;
      ReplayPerElement(keys, ops[1..], getKey);
    }
  }

  /** What a step appended after `s` is the op it pushed and what came after. */
  lemma ExtendsStep<T>(s: seq<T>, op: T, t: seq<T>)
    requires Extends(s + [op], t)
    ensures Extends(s, t) && t[|s|..] == [op] + t[|s| + 1..]
  {
    assert t[..|s|] == (s + [op])[..|s|];
    assert t[|s|] == (s + [op])[|s|];
  }

  lemma ItemChangeIsPerElement(xs: seq<Value>, ys: seq<Value>, idx: map<Key, nat>, i: nat, getKey: Value -> Key)
    requires i < |ys|
    ensures forall c :: c in ItemChange(xs, ys, idx, i, getKey) ==> IsPerElement(c) && c.index == i
  {
  }

  // ---------------------------------------------------------------------
  // The three phases, each recording its key edits faithfully

  /** The deletion loop records its key edits: replaying what it appended to
      `moves` on the old key list gives the new one. */
  lemma {:induction false} DeleteReplay(s: ArrayState, bKeySet: set<Key>, i: nat, getKey: Value -> Key)
    requires i <= |s.keys|
    ensures var r := DeleteAbsent(s, bKeySet, i);
      && Extends(s.moves, r.moves)
      && r.changes == s.changes
      && ReplayKeys(s.keys, r.moves[|s.moves|..], getKey) == r.keys
    decreases i
  {
    var r := DeleteAbsent(s, bKeySet, i);
    if i == 0 {
      assert r == s;
    } else if s.keys[i - 1] !in bKeySet {
      var op := ArrayDelete(i - 1);
      var s' := s.(keys := s.keys[..i - 1] + s.keys[i..], moves := s.moves + [op]);
      DeleteReplay(s', bKeySet, i - 1, getKey);
      ExtendsStep(s.moves, op, r.moves);
      ReplayCons(s.keys, op, r.moves[|s'.moves|..], getKey);
    } else {
      DeleteReplay(s, bKeySet, i - 1, getKey);
    }
  }

  /** The deletion loop emits only `array-delete`s, at strictly descending
      indices below `i`, each of a key absent from `b`. */
  lemma {:induction false} DeleteOps(s: ArrayState, bKeySet: set<Key>, i: nat)
    requires i <= |s.keys|
    ensures var r := DeleteAbsent(s, bKeySet, i);
      && Extends(s.moves, r.moves)
      && (forall p :: |s.moves| <= p < |r.moves| ==>
            r.moves[p].ArrayDelete? && r.moves[p].index < i && s.keys[r.moves[p].index] !in bKeySet)
      && (forall p, q :: |s.moves| <= p < q < |r.moves| ==> r.moves[p].index > r.moves[q].index)
    decreases i
  {
    var r := DeleteAbsent(s, bKeySet, i);
    if i == 0 {
      assert r == s;
    } else if s.keys[i - 1] !in bKeySet {
      var op := ArrayDelete(i - 1);
      var s' := s.(keys := s.keys[..i - 1] + s.keys[i..], moves := s.moves + [op]);
      DeleteOps(s', bKeySet, i - 1);
      ExtendsStep(s.moves, op, r.moves);
      assert r.moves[|s.moves|] == op;
      forall p | |s'.moves| <= p < |r.moves|
        ensures s.keys[r.moves[p].index] !in bKeySet
      {
        assert s'.keys[r.moves[p].index] == s.keys[r.moves[p].index];
      }
    } else {
      DeleteOps(s, bKeySet, i - 1);
    }
  }

  /** Every key below `i` absent from `b` gets its `array-delete`. */
  lemma {:induction false} DeleteComplete(s: ArrayState, bKeySet: set<Key>, i: nat)
    requires i <= |s.keys|
    ensures var r := DeleteAbsent(s, bKeySet, i);
      |s.moves| <= |r.moves| &&
      forall j :: 0 <= j < i && s.keys[j] !in bKeySet ==> ArrayDelete(j) in r.moves[|s.moves|..]
    decreases i
  {
    var r := DeleteAbsent(s, bKeySet, i);
    DeleteOps(s, bKeySet, i);
    if i == 0 {
    } else if s.keys[i - 1] !in bKeySet {
      var op := ArrayDelete(i - 1);
      var s' := s.(keys := s.keys[..i - 1] + s.keys[i..], moves := s.moves + [op]);
      DeleteComplete(s', bKeySet, i - 1);
      DeleteOps(s', bKeySet, i - 1);
      ExtendsStep(s.moves, op, r.moves);
      forall j | 0 <= j < i && s.keys[j] !in bKeySet
        ensures ArrayDelete(j) in r.moves[|s.moves|..]
      {
        if j < i - 1 {
          assert s'.keys[j] == s.keys[j];
        }
      }
    } else {
      DeleteComplete(s, bKeySet, i - 1);
    }
  }

  /** One scan step records its key edit and puts `bKeys[i]` at index `i`. */
  lemma ScanStepReplay(xs: seq<Value>, ys: seq<Value>, idx: map<Key, nat>, i: nat, s: ArrayState, getKey: Value -> Key)
    requires i < |ys| && i <= |s.keys|
    requires s.keys[..i] == KeysOf(ys, getKey)[..i]
    ensures var s' := ScanStep(xs, ys, idx, i, s, getKey);
      && i + 1 <= |s'.keys| && s'.keys[..i + 1] == KeysOf(ys, getKey)[..i + 1]
      && (s'.moves == s.moves || exists op :: s'.moves == s.moves + [op] && (op.ArrayMove? || op.ArrayInsert?) && KeyStep(s.keys, op, getKey) == s'.keys)
      && (s'.moves == s.moves ==> s'.keys == s.keys)
  {
    var bKeys := KeysOf(ys, getKey);
    var k := getKey(ys[i]);
    assert bKeys[..i + 1] == bKeys[..i] + [k];
    var s' := ScanStep(xs, ys, idx, i, s, getKey);
    if i < |s.keys| && s.keys[i] == k {
      assert s'.keys == s.keys;
      assert s'.keys[..i + 1] == s.keys[..i] + [k];
    } else {
      var e := IndexOfFrom(s.keys, k, i + 1);
      if e != -1 {
        var op := ArrayMove(e, i);
        MovePrefix(s.keys, e, i);
        assert s'.moves == s.moves + [op];
        assert KeyStep(s.keys, op, getKey) == s'.keys;
      } else {
        var op := ArrayInsert(i, ys[i]);
        InsertPrefix(s.keys, i, k);
        assert s'.moves == s.moves + [op];
        assert KeyStep(s.keys, op, getKey) == s'.keys;
      }
    }
  }

  /** Moving the key at `e` down to `i` keeps the keys before `i`. */
  lemma MovePrefix(keys: seq<Key>, e: nat, i: nat)
    requires i < e < |keys|
    ensures var r := SpliceInsert(SpliceRemove(keys, e), i, keys[e]);
      i + 1 <= |r| && r[..i + 1] == keys[..i] + [keys[e]]
  {
    var removed := SpliceRemove(keys, e);
    assert removed[..i] == keys[..i];
  }

  /** Inserting `k` at `i` keeps the keys before `i`. */
  lemma InsertPrefix(keys: seq<Key>, i: nat, k: Key)
    requires i <= |keys|
    ensures var r := SpliceInsert(keys, i, k);
      i + 1 <= |r| && r[..i + 1] == keys[..i] + [k]
  {
  }

  /** The scan records its key edits, appends only moves and inserts to
      `moves`, and leaves `bKeys` as the first `|ys|` keys. */
  lemma {:induction false} ScanReplay(xs: seq<Value>, ys: seq<Value>, idx: map<Key, nat>, i: nat, s: ArrayState, getKey: Value -> Key)
    requires i <= |ys| && i <= |s.keys|
    requires s.keys[..i] == KeysOf(ys, getKey)[..i]
    ensures var r := Scan(xs, ys, idx, i, s, getKey);
      && Extends(s.moves, r.moves)
      && ReplayKeys(s.keys, r.moves[|s.moves|..], getKey) == r.keys
      && |ys| <= |r.keys| && r.keys[..|ys|] == KeysOf(ys, getKey)
      && (forall p :: |s.moves| <= p < |r.moves| ==> r.moves[p].ArrayMove? || r.moves[p].ArrayInsert?)
    decreases |ys| - i
  {
    var r := Scan(xs, ys, idx, i, s, getKey);
    if i >= |ys| {
      assert r == s;
      assert KeysOf(ys, getKey)[..i] == KeysOf(ys, getKey);
    } else {
      var s' := ScanStep(xs, ys, idx, i, s, getKey);
      ScanStepReplay(xs, ys, idx, i, s, getKey);
      ScanReplay(xs, ys, idx, i + 1, s', getKey);
      if s'.moves != s.moves {
        var op :| s'.moves == s.moves + [op] && (op.ArrayMove? || op.ArrayInsert?) && KeyStep(s.keys, op, getKey) == s'.keys;
        ExtendsStep(s.moves, op, r.moves);
        ReplayCons(s.keys, op, r.moves[|s'.moves|..], getKey);
        assert r.moves[|s.moves|] == op;
      }
    }
  }

  /** One scan step appends at most one per-element entry, for index `i`. */
  lemma ScanStepChanges(xs: seq<Value>, ys: seq<Value>, idx: map<Key, nat>, i: nat, s: ArrayState, getKey: Value -> Key)
    requires i < |ys|
    ensures var s' := ScanStep(xs, ys, idx, i, s, getKey);
      && Extends(s.changes, s'.changes) && |s'.changes| <= |s.changes| + 1
      && (forall p :: |s.changes| <= p < |s'.changes| ==> IsPerElement(s'.changes[p]) && s'.changes[p].index == i)
  {
    ItemChangeIsPerElement(xs, ys, idx, i, getKey);
    var s' := ScanStep(xs, ys, idx, i, s, getKey);
    var ic := ItemChange(xs, ys, idx, i, getKey);
    assert s'.changes == s.changes || s'.changes == s.changes + ic;
    forall p | |s.changes| <= p < |s'.changes|
      ensures s'.changes[p] in ic
    {
      assert s'.changes[p] == ic[p - |s.changes|];
    }
  }

  /** The scan appends to `changes` only per-element entries, at strictly
      ascending indices from `i` up to `|ys|`. */
  lemma {:induction false} ScanChanges(xs: seq<Value>, ys: seq<Value>, idx: map<Key, nat>, i: nat, s: ArrayState, getKey: Value -> Key)
    ensures var r := Scan(xs, ys, idx, i, s, getKey);
      && Extends(s.changes, r.changes)
      && (forall p :: |s.changes| <= p < |r.changes| ==> IsPerElement(r.changes[p]) && i <= r.changes[p].index < |ys|)
      && (forall p, q :: |s.changes| <= p < q < |r.changes| ==> r.changes[p].index < r.changes[q].index)
    decreases |ys| - i
  {
    if i < |ys| {
      var s' := ScanStep(xs, ys, idx, i, s, getKey);
      ScanStepChanges(xs, ys, idx, i, s, getKey);
      ScanChanges(xs, ys, idx, i + 1, s', getKey);
      assert Scan(xs, ys, idx, i, s, getKey) == Scan(xs, ys, idx, i + 1, s', getKey);
      ChangesGlue(s.changes, s'.changes, Scan(xs, ys, idx, i + 1, s', getKey).changes, i, |ys|);
    } else {
      assert Scan(xs, ys, idx, i, s, getKey) == s;
    }
  }

  /** An entry for index `i` followed by ascending entries above `i`. */
  lemma ChangesGlue(c0: seq<Change>, c1: seq<Change>, c2: seq<Change>, i: nat, n: nat)
    requires i < n
    requires Extends(c0, c1) && |c1| <= |c0| + 1
    requires forall p :: |c0| <= p < |c1| ==> IsPerElement(c1[p]) && c1[p].index == i
    requires Extends(c1, c2)
    requires && (forall p :: |c1| <= p < |c2| ==> IsPerElement(c2[p]) && i + 1 <= c2[p].index < n)
             && (forall p, q :: |c1| <= p < q < |c2| ==> IsPerElement(c2[p]) && IsPerElement(c2[q]) && c2[p].index < c2[q].index)
    ensures && Extends(c0, c2)
            && (forall p :: |c0| <= p < |c2| ==> IsPerElement(c2[p]) && i <= c2[p].index < n)
            && (forall p, q :: |c0| <= p < q < |c2| ==> IsPerElement(c2[p]) && IsPerElement(c2[q]) && c2[p].index < c2[q].index)
  {
    assert forall p :: 0 <= p < |c1| ==> c2[p] == c1[p];
    assert c2[..|c0|] == c1[..|c0|];
  }

  /** The pop loop cuts the key list down to `n` keys, recording each
      `array-delete`. */
  lemma {:induction false} PopPhase(s: ArrayState, n: nat, getKey: Value -> Key)
    requires n <= |s.keys|
    ensures var r := PopSurplus(s, n);
      && Extends(s.moves, r.moves)
      && r.changes == s.changes
      && ReplayKeys(s.keys, r.moves[|s.moves|..], getKey) == r.keys
      && r.keys == s.keys[..n]
      && (forall p :: |s.moves| <= p < |r.moves| ==> r.moves[p].ArrayDelete?)
    decreases |s.keys|
  {
    var r := PopSurplus(s, n);
    if |s.keys| > n {
      var op := ArrayDelete(|s.keys| - 1);
      var s' := s.(keys := s.keys[..|s.keys| - 1], moves := s.moves + [op]);
      PopPhase(s', n, getKey);
      assert KeyStep(s.keys, op, getKey) == s'.keys;
      ExtendsStep(s.moves, op, r.moves);
      ReplayCons(s.keys, op, r.moves[|s'.moves|..], getKey);
      assert r.moves[|s.moves|] == op;
      assert s'.keys[..n] == s.keys[..n];
    } else {
      assert r == s;
      assert s.keys[..n] == s.keys;
    }
  }

  // ---------------------------------------------------------------------
  // The whole of getArrayChanges

  /** The three phases of `getArrayChanges`, named. */
  function Phase1(xs: seq<Value>, ys: seq<Value>, getKey: Value -> Key): ArrayState {
    var aKeys := KeysOf(xs, getKey);
    DeleteAbsent(ArrayState(aKeys, [], []), set k | k in KeysOf(ys, getKey), |aKeys|)
  }

  function Phase2(xs: seq<Value>, ys: seq<Value>, getKey: Value -> Key): ArrayState {
    Scan(xs, ys, IndexMap(KeysOf(xs, getKey)), 0, Phase1(xs, ys, getKey), getKey)
  }

  lemma PhasesNamed(xs: seq<Value>, ys: seq<Value>, getKey: Value -> Key)
    ensures ArrayPhases(xs, ys, getKey) == PopSurplus(Phase2(xs, ys, getKey), |ys|)
  {
  }

  /** How the three phases extend one another's ops and entries. */
  lemma PhaseShape(xs: seq<Value>, ys: seq<Value>, getKey: Value -> Key)
    ensures var s1 := Phase1(xs, ys, getKey);
      var s2 := Phase2(xs, ys, getKey);
      var s3 := ArrayPhases(xs, ys, getKey);
      && Extends(s1.moves, s2.moves) && Extends(s2.moves, s3.moves)
      && s1.changes == [] && s3.changes == s2.changes
  {
    PhaseFacts(xs, ys, getKey);
  }

  /** Facts about all three phases at once. */
  lemma {:induction false} PhaseFacts(xs: seq<Value>, ys: seq<Value>, getKey: Value -> Key)
    ensures var aKeys := KeysOf(xs, getKey);
      var s1 := Phase1(xs, ys, getKey);
      var s2 := Phase2(xs, ys, getKey);
      var s3 := ArrayPhases(xs, ys, getKey);
      && Extends(s1.moves, s2.moves) && Extends(s2.moves, s3.moves)
      && s1.changes == [] && s3.changes == s2.changes
      && ReplayKeys(aKeys, s1.moves, getKey) == s1.keys
      && ReplayKeys(s1.keys, s2.moves[|s1.moves|..], getKey) == s2.keys
      && ReplayKeys(s2.keys, s3.moves[|s2.moves|..], getKey) == s3.keys
      && s3.keys == KeysOf(ys, getKey)
  {
    var aKeys := KeysOf(xs, getKey);
    var bSet := set k | k in KeysOf(ys, getKey);
    var s0 := ArrayState(aKeys, [], []);
    var s1 := Phase1(xs, ys, getKey);
    var s2 := Phase2(xs, ys, getKey);
    DeleteReplay(s0, bSet, |aKeys|, getKey);
    assert s1.moves[0..] == s1.moves;
    ScanReplay(xs, ys, IndexMap(aKeys), 0, s1, getKey);
    PopPhase(s2, |ys|, getKey);
    PhasesNamed(xs, ys, getKey);
  }

  /** The structural ops of all three phases, replayed on the key list of
      `a`, yield the key list of `b`. */
  lemma {:induction false} MovesReplay(xs: seq<Value>, ys: seq<Value>, getKey: Value -> Key)
    ensures ReplayKeys(KeysOf(xs, getKey), ArrayPhases(xs, ys, getKey).moves, getKey) == KeysOf(ys, getKey)
  {
    var s1, s2, s3 := Phase1(xs, ys, getKey), Phase2(xs, ys, getKey), ArrayPhases(xs, ys, getKey);
    PhaseFacts(xs, ys, getKey);
    ReplayGlue(KeysOf(xs, getKey), s1.moves, s2.moves, s3.moves, s1.keys, s2.keys, s3.keys, getKey);
  }

  /** Replays of three successive extensions compose. */
  lemma ReplayGlue(k0: seq<Key>, m1: seq<Change>, m2: seq<Change>, m3: seq<Change>,
                   k1: seq<Key>, k2: seq<Key>, k3: seq<Key>, getKey: Value -> Key)
    requires Extends(m1, m2) && Extends(m2, m3)
    requires ReplayKeys(k0, m1, getKey) == k1
    requires ReplayKeys(k1, m2[|m1|..], getKey) == k2
    requires ReplayKeys(k2, m3[|m2|..], getKey) == k3
    ensures ReplayKeys(k0, m3, getKey) == k3
  {
    var d2, d3 := m2[|m1|..], m3[|m2|..];
    assert m2 == m1 + d2;
    assert m3 == m2 + d3;
    ReplayAppend(k0, m1, d2, getKey);
    assert ReplayKeys(k0, m2, getKey) == k2;
    ReplayAppend(k0, m2, d3, getKey);
  }

  /** Replaying the emitted list, in order, on the key list of `a` yields
      exactly the key list of `b`; the loop invariant behind it is that the
      simulated key list agrees with `b`'s up to the scanned index. */
  lemma {:induction false} KeySimulation(a: Value, b: Value, getKey: Value -> Key)
    requires a.Arr? && b.Arr?
    ensures ReplayKeys(KeysOf(a.items, getKey), ArrayDiff(a, b, getKey), getKey) == KeysOf(b.items, getKey)
  {
    var xs, ys := a.items, b.items;
    var aKeys := KeysOf(xs, getKey);
    var s1, s2, s3 := Phase1(xs, ys, getKey), Phase2(xs, ys, getKey), ArrayPhases(xs, ys, getKey);
    PhaseFacts(xs, ys, getKey);
    MovesReplay(xs, ys, getKey);
    ScanChanges(xs, ys, IndexMap(aKeys), 0, s1, getKey);
    assert s3.changes == s2.changes[|s1.changes|..];
    forall c | c in s3.changes
      ensures IsPerElement(c)
    {
      var p :| 0 <= p < |s3.changes| && s3.changes[p] == c;
      assert s2.changes[|s1.changes| + p] == c;
    }
    ReplayAppend(aKeys, s3.moves, s3.changes, getKey);
    ReplayPerElement(KeysOf(ys, getKey), s3.changes, getKey);
  }

  /** The emitted list is the three phases' ops, then the per-element
      entries. */
  lemma {:induction false} ArrayDiffLayout(a: Value, b: Value, getKey: Value -> Key)
    requires a.Arr? && b.Arr?
    ensures var s1, s2, s3 := Phase1(a.items, b.items, getKey), Phase2(a.items, b.items, getKey), ArrayPhases(a.items, b.items, getKey);
      var ops := ArrayDiff(a, b, getKey);
      && |s1.moves| <= |s2.moves| <= |s3.moves| <= |ops|
      && ops[..|s1.moves|] == s1.moves && ops[..|s2.moves|] == s2.moves
      && ops == s3.moves + s2.changes
  {
    PhaseShape(a.items, b.items, getKey);
  }

  /** The list opens with one `array-delete` for each key of `a` absent
      from `b`, at strictly descending indices. */
  lemma {:induction false} ArrayDiffDeletesFirst(a: Value, b: Value, getKey: Value -> Key)
    requires a.Arr? && b.Arr?
    ensures var aKeys, bKeys := KeysOf(a.items, getKey), KeysOf(b.items, getKey);
      var n1 := |Phase1(a.items, b.items, getKey).moves|;
      var ops := ArrayDiff(a, b, getKey);
      && n1 <= |ops|
      && (forall p :: 0 <= p < n1 ==> ops[p].ArrayDelete? && ops[p].index < |aKeys| && aKeys[ops[p].index] !in bKeys)
      && (forall p, q :: 0 <= p < q < n1 ==> ops[p].index > ops[q].index)
      && (forall j :: 0 <= j < |aKeys| && aKeys[j] !in bKeys ==> ArrayDelete(j) in ops[..n1])
  {
    var xs, ys := a.items, b.items;
    var aKeys, bKeys := KeysOf(xs, getKey), KeysOf(ys, getKey);
    var bSet := set k | k in bKeys;
    var s0 := ArrayState(aKeys, [], []);
    var s1 := Phase1(xs, ys, getKey);
    var ops := ArrayDiff(a, b, getKey);
    assert s1 == DeleteAbsent(s0, bSet, |aKeys|);
    ArrayDiffLayout(a, b, getKey);
    DeleteOps(s0, bSet, |aKeys|);
    DeleteComplete(s0, bSet, |aKeys|);
    assert s1.moves[0..] == s1.moves;
    assert ops[..|s1.moves|] == s1.moves;
    assert forall k :: k in bSet <==> k in bKeys;
    assert forall p :: 0 <= p < |s1.moves| ==> ops[p] == s1.moves[p];
  }

  /** Then come moves and inserts, then pops. */
  lemma {:induction false} ArrayDiffStructural(a: Value, b: Value, getKey: Value -> Key)
    requires a.Arr? && b.Arr?
    ensures var n1 := |Phase1(a.items, b.items, getKey).moves|;
      var n2 := |Phase2(a.items, b.items, getKey).moves|;
      var n3 := |ArrayPhases(a.items, b.items, getKey).moves|;
      var ops := ArrayDiff(a, b, getKey);
      && n1 <= n2 <= n3 <= |ops|
      && (forall p :: n1 <= p < n2 ==> ops[p].ArrayMove? || ops[p].ArrayInsert?)
      && (forall p :: n2 <= p < n3 ==> ops[p].ArrayDelete?)
  {
    var xs, ys := a.items, b.items;
    var s1, s2, s3 := Phase1(xs, ys, getKey), Phase2(xs, ys, getKey), ArrayPhases(xs, ys, getKey);
    var ops := ArrayDiff(a, b, getKey);
    ArrayDiffLayout(a, b, getKey);
    ScanReplay(xs, ys, IndexMap(KeysOf(xs, getKey)), 0, s1, getKey);
    PopPhase(s2, |ys|, getKey);
    forall p | |s1.moves| <= p < |s2.moves|
      ensures ops[p].ArrayMove? || ops[p].ArrayInsert?
    {
      assert ops[p] == s2.moves[p];
    }
    forall p | |s2.moves| <= p < |s3.moves|
      ensures ops[p].ArrayDelete?
    {
      assert ops[p] == s3.moves[p];
    }
  }

  /** The list closes with the per-element entries, at strictly ascending
      indices of `b`: every structural op precedes every per-element entry. */
  lemma {:induction false} ArrayDiffElementsLast(a: Value, b: Value, getKey: Value -> Key)
    requires a.Arr? && b.Arr?
    ensures var n3 := |ArrayPhases(a.items, b.items, getKey).moves|;
      var ops := ArrayDiff(a, b, getKey);
      && n3 <= |ops|
      && (forall p :: 0 <= p < n3 ==> IsStructural(ops[p]))
      && (forall p :: n3 <= p < |ops| ==> IsPerElement(ops[p]) && ops[p].index < |b.items|)
      && (forall p, q :: n3 <= p < q < |ops| ==> ops[p].index < ops[q].index)
  {
    StructuralPrefix(a, b, getKey);
    PerElementSuffix(a, b, getKey);
  }

  /** The ops before the per-element entries are all structural. */
  lemma StructuralPrefix(a: Value, b: Value, getKey: Value -> Key)
    requires a.Arr? && b.Arr?
    ensures var n3 := |ArrayPhases(a.items, b.items, getKey).moves|;
      var ops := ArrayDiff(a, b, getKey);
      n3 <= |ops| && forall p :: 0 <= p < n3 ==> IsStructural(ops[p])
  {
    var ops := ArrayDiff(a, b, getKey);
    var n1 := |Phase1(a.items, b.items, getKey).moves|;
    ArrayDiffDeletesFirst(a, b, getKey);
    ArrayDiffStructural(a, b, getKey);
    forall p | 0 <= p < |ArrayPhases(a.items, b.items, getKey).moves|
      ensures IsStructural(ops[p])
    {
      if p < n1 {
        assert ops[p].ArrayDelete?;
      }
    }
  }

  /** The ops after the structural ones are the per-element entries of the
      scan, at ascending indices of `b`. */
  lemma PerElementSuffix(a: Value, b: Value, getKey: Value -> Key)
    requires a.Arr? && b.Arr?
    ensures var n3 := |ArrayPhases(a.items, b.items, getKey).moves|;
      var ops := ArrayDiff(a, b, getKey);
      && n3 <= |ops|
      && (forall p :: n3 <= p < |ops| ==> IsPerElement(ops[p]) && ops[p].index < |b.items|)
      && (forall p, q :: n3 <= p < q < |ops| ==> ops[p].index < ops[q].index)
  {
    var xs, ys := a.items, b.items;
    var s1, s2, s3 := Phase1(xs, ys, getKey), Phase2(xs, ys, getKey), ArrayPhases(xs, ys, getKey);
    var ops := ArrayDiff(a, b, getKey);
    ArrayDiffLayout(a, b, getKey);
    ScanChanges(xs, ys, IndexMap(KeysOf(xs, getKey)), 0, s1, getKey);
    PhaseShape(xs, ys, getKey);
    assert Phase2(xs, ys, getKey) == Scan(xs, ys, IndexMap(KeysOf(xs, getKey)), 0, s1, getKey);
    PerElementTail(ops, s3.moves, s2.changes, |ys|);
  }

  /** A list made of some ops followed by per-element entries at ascending
      indices below `n` has those entries after the ops. */
  lemma PerElementTail(ops: seq<Change>, moves: seq<Change>, changes: seq<Change>, n: nat)
    requires ops == moves + changes
    requires forall p :: 0 <= p < |changes| ==> IsPerElement(changes[p]) && changes[p].index < n
    requires forall p, q :: 0 <= p < q < |changes| && IsPerElement(changes[p]) && IsPerElement(changes[q]) ==> changes[p].index < changes[q].index
    ensures |moves| <= |ops|
    ensures forall p :: |moves| <= p < |ops| ==> IsPerElement(ops[p]) && ops[p].index < n
    ensures forall p, q :: |moves| <= p < q < |ops| && IsPerElement(ops[p]) && IsPerElement(ops[q]) ==> ops[p].index < ops[q].index
  {
    assert forall p :: |moves| <= p < |ops| ==> ops[p] == changes[p - |moves|];
  }
}
