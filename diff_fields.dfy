/** Facts about object fields, key lists and splicing that the proofs about
    `getChanges` and `applyChanges` rest on. */
module DiffFields {
  import opened Wrappers
  import opened Diff

  // ---------------------------------------------------------------------
  // Lookup, SetField, RemoveField

  lemma FindFieldIs(fs: seq<Field>, k: string, j: int)
    requires -1 <= j < |fs|
    requires j >= 0 ==> fs[j].key == k && forall t :: 0 <= t < j ==> fs[t].key != k
    requires j < 0 ==> forall t :: 0 <= t < |fs| ==> fs[t].key != k
    ensures FindField(fs, k) == j
  {
  }

  lemma LookupSomeIff(fs: seq<Field>, k: string)
    ensures Lookup(fs, k).Some? <==> k in FieldKeys(fs)
  {
    if k in FieldKeys(fs) {
      var t :| 0 <= t < |fs| && FieldKeys(fs)[t] == k;
      assert fs[t].key == k;
    }
    var j := FindField(fs, k);
    if j >= 0 {
      assert FieldKeys(fs)[j] == k;
    }
  }

  /** With unique keys, a field is what `Lookup` finds under its key. */
  lemma LookupAt(fs: seq<Field>, i: nat)
    requires Distinct(FieldKeys(fs)) && i < |fs|
    ensures Lookup(fs, fs[i].key) == Some(fs[i].value)
  {
    forall t | 0 <= t < i
      ensures fs[t].key != fs[i].key
    {
      assert FieldKeys(fs)[t] != FieldKeys(fs)[i];
    }
    FindFieldIs(fs, fs[i].key, i);
  }

  /** `Lookup` finds a field at some index. */
  lemma LookupIndex(fs: seq<Field>, k: string) returns (j: nat)
    requires Lookup(fs, k).Some?
    ensures j < |fs| && fs[j].key == k && fs[j].value == Lookup(fs, k).value
  {
    j := FindField(fs, k);
  }

  lemma LookupSetField(fs: seq<Field>, k: string, x: Value, k': string)
    ensures Lookup(SetField(fs, k, x), k') == if k' == k then Some(x) else Lookup(fs, k')
  {
    var j := FindField(fs, k);
    var fs' := SetField(fs, k, x);
    var j' := FindField(fs, k');
    if j < 0 {
      assert fs' == fs + [Field(k, x)];
      if k' == k {
        FindFieldIs(fs', k', |fs|);
      } else {
        FindFieldIs(fs', k', j');
      }
    } else {
      assert fs' == fs[j := Field(k, x)];
      if k' == k {
        FindFieldIs(fs', k', j);
      } else {
        FindFieldIs(fs', k', j');
      }
    }
  }

  lemma SetFieldUnique(fs: seq<Field>, k: string, x: Value)
    requires Distinct(FieldKeys(fs))
    ensures Distinct(FieldKeys(SetField(fs, k, x)))
  {
    var j := FindField(fs, k);
    var fs' := SetField(fs, k, x);
    if j < 0 {
      forall p, q | 0 <= p < q < |fs'|
        ensures FieldKeys(fs')[p] != FieldKeys(fs')[q]
      {
        if q < |fs| {
          assert FieldKeys(fs)[p] != FieldKeys(fs)[q];
        }
      }
    } else {
      forall p, q | 0 <= p < q < |fs'|
        ensures FieldKeys(fs')[p] != FieldKeys(fs')[q]
      {
        assert FieldKeys(fs)[p] != FieldKeys(fs)[q];
        assert FieldKeys(fs)[j] == k;
      }
    }
  }

  lemma LookupCons(f: Field, rest: seq<Field>, k: string)
    ensures Lookup([f] + rest, k) == if f.key == k then Some(f.value) else Lookup(rest, k)
  {
    var fs := [f] + rest;
    assert fs[1..] == rest;
  }

  lemma {:induction false} LookupRemoveField(fs: seq<Field>, k: string, k': string)
    ensures Lookup(RemoveField(fs, k), k') == if k' == k then None else Lookup(fs, k')
    decreases |fs|
  {
    if fs != [] {
      LookupRemoveField(fs[1..], k, k');
      assert fs == [fs[0]] + fs[1..];
      LookupCons(fs[0], fs[1..], k');
      if fs[0].key != k {
        LookupCons(fs[0], RemoveField(fs[1..], k), k');
      }
    }
  }

  lemma {:induction false} RemoveFieldKeys(fs: seq<Field>, k: string)
    ensures forall t :: 0 <= t < |RemoveField(fs, k)| ==> RemoveField(fs, k)[t].key in FieldKeys(fs)
    decreases |fs|
  {
    if fs != [] {
      RemoveFieldKeys(fs[1..], k);
      var r := RemoveField(fs[1..], k);
      forall t | 0 <= t < |r|
        ensures r[t].key in FieldKeys(fs)
      {
        assert r[t].key in FieldKeys(fs[1..]);
        var u :| 0 <= u < |fs[1..]| && FieldKeys(fs[1..])[u] == r[t].key;
        assert FieldKeys(fs)[u + 1] == r[t].key;
      }
      if fs[0].key != k {
        assert FieldKeys(fs)[0] == fs[0].key;
      }
    }
  }

  lemma {:induction false} RemoveFieldUnique(fs: seq<Field>, k: string)
    requires Distinct(FieldKeys(fs))
    ensures Distinct(FieldKeys(RemoveField(fs, k)))
    decreases |fs|
  {
    if fs != [] {
      assert Distinct(FieldKeys(fs[1..])) by {
        forall p, q | 0 <= p < q < |fs| - 1
          ensures FieldKeys(fs[1..])[p] != FieldKeys(fs[1..])[q]
        {
          assert FieldKeys(fs)[p + 1] != FieldKeys(fs)[q + 1];
        }
      }
      RemoveFieldUnique(fs[1..], k);
      if fs[0].key != k {
        var r := RemoveField(fs[1..], k);
        RemoveFieldKeys(fs[1..], k);
        var r' := [fs[0]] + r;
        forall p, q | 0 <= p < q < |r'|
          ensures FieldKeys(r')[p] != FieldKeys(r')[q]
        {
          if p == 0 {
            assert r'[q].key in FieldKeys(fs[1..]);
            var u :| 0 <= u < |fs[1..]| && FieldKeys(fs[1..])[u] == r'[q].key;
            assert FieldKeys(fs)[0] != FieldKeys(fs)[u + 1];
          } else {
            assert FieldKeys(r)[p - 1] != FieldKeys(r)[q - 1];
          }
        }
      }
    }
  }

  // ---------------------------------------------------------------------
  // Dedup and IndexMap

  lemma {:induction false} DedupMembers(ks: seq<string>)
    ensures forall k :: k in Dedup(ks) <==> k in ks
    ensures Distinct(Dedup(ks))
    decreases |ks|
  {
    if ks != [] {
      var init := ks[..|ks| - 1];
      DedupMembers(init);
      assert ks == init + [ks[|ks| - 1]];
    }
  }

  /** Each key of `aKeyToIndex` is a key of the list, at the index stored. */
  lemma {:induction false} IndexMapFacts(keys: seq<Key>)
    ensures forall k :: k in IndexMap(keys) <==> k in keys
    ensures forall k :: k in IndexMap(keys) ==> IndexMap(keys)[k] < |keys| && keys[IndexMap(keys)[k]] == k
    decreases |keys|
  {
    if keys != [] {
      var init := keys[..|keys| - 1];
      IndexMapFacts(init);
      assert keys == init + [keys[|keys| - 1]];
    }
  }

  /** With unique keys, `aKeyToIndex` inverts the list. */
  lemma IndexMapAt(keys: seq<Key>, i: nat)
    requires Distinct(keys) && i < |keys|
    ensures keys[i] in IndexMap(keys) && IndexMap(keys)[keys[i]] == i
  {
    IndexMapFacts(keys);
  }

  // ---------------------------------------------------------------------
  // Splicing

  lemma SpliceInsertMembers<T>(s: seq<T>, i: nat, x: T)
    ensures forall y :: y in SpliceInsert(s, i, x) <==> y in s || y == x
  {
    if i < |s| {
      assert s == s[..i] + s[i..];
    }
  }

  lemma SpliceRemoveMembers<T>(s: seq<T>, i: nat)
    ensures forall y :: y in SpliceRemove(s, i) ==> y in s
  {
    if i < |s| {
      assert s == s[..i] + [s[i]] + s[i + 1..];
    }
  }

  lemma SpliceRemoveUnique(s: seq<Key>, i: nat)
    requires Distinct(s)
    ensures Distinct(SpliceRemove(s, i))
    ensures i < |s| ==> forall y :: y in SpliceRemove(s, i) <==> y in s && y != s[i]
  {
    if i < |s| {
      var r := SpliceRemove(s, i);
      assert forall t :: 0 <= t < |r| ==> r[t] == if t < i then s[t] else s[t + 1];
      forall y | y in s && y != s[i]
        ensures y in r
      {
        var t :| 0 <= t < |s| && s[t] == y;
        if t < i {
          assert r[t] == y;
        } else {
          assert r[t - 1] == y;
        }
      }
      forall y | y in r
        ensures y in s && y != s[i]
      {
        var t :| 0 <= t < |r| && r[t] == y;
        if t >= i {
          assert s[t + 1] != s[i];
        }
      }
    }
  }

  lemma SpliceInsertUnique(s: seq<Key>, i: nat, x: Key)
    requires Distinct(s) && x !in s
    ensures Distinct(SpliceInsert(s, i, x))
  {
    var r := SpliceInsert(s, i, x);
    if i < |s| {
      assert forall t :: 0 <= t < |r| ==> r[t] == if t < i then s[t] else if t == i then x else s[t - 1];
      forall p, q | 0 <= p < q < |r|
        ensures r[p] != r[q]
      {
        if p != i && q != i {
          var p' := if p < i then p else p - 1;
          var q' := if q < i then q else q - 1;
          assert s[p'] != s[q'];
        }
      }
    }
  }

  lemma KeysOfSpliceInsert(xs: seq<Value>, i: nat, x: Value, getKey: Value -> Key)
    ensures KeysOf(SpliceInsert(xs, i, x), getKey) == SpliceInsert(KeysOf(xs, getKey), i, getKey(x))
  {
    var l, r := KeysOf(SpliceInsert(xs, i, x), getKey), SpliceInsert(KeysOf(xs, getKey), i, getKey(x));
    var ks := KeysOf(xs, getKey);
    if i >= |xs| {
      assert forall t :: 0 <= t < |l| ==> l[t] == r[t];
    } else {
      var ys := SpliceInsert(xs, i, x);
      assert ys == xs[..i] + [x] + xs[i..];
      assert r == ks[..i] + [getKey(x)] + ks[i..];
      forall t | 0 <= t < |l|
        ensures l[t] == r[t]
      {
        if t < i {
          assert ys[t] == xs[t];
        } else if t > i {
          assert ys[t] == xs[t - 1];
        }
      }
    }
  }

  lemma KeysOfSpliceRemove(xs: seq<Value>, i: nat, getKey: Value -> Key)
    ensures KeysOf(SpliceRemove(xs, i), getKey) == SpliceRemove(KeysOf(xs, getKey), i)
  {
  }
}
