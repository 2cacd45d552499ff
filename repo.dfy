/** The schema migration driver of `src/lib/repo/index.ts`: `migrate` walks
    the version numbers after the document's stored version, up to the number
    of entries in the migration record, applying each defined migration and
    then stamping its number into `version`; `initDocument` runs it and then
    the configured callbacks. */
module Repo {
  import opened Wrappers

  /** The part of a document the driver never looks at. */
  type Payload = map<string, int>

  /** A document: its optional `version` field and everything else. */
  datatype Doc = Doc(version: Option<int>, payload: Payload)

  /** What `docHandle.change(changeFn)` does to the current document. */
  type ChangeFn = Doc -> Doc

  /** A migration: given the current snapshot it yields (after `await`) the
      change function to apply, or `None` when it throws (or its promise
      rejects). */
  type Migration = Doc -> Option<ChangeFn>

  /** `Migrations<T>`: version number to migration. `None` is an entry whose
      value is falsy; it still counts in `Object.keys(migrations).length`. */
  type Migrations = map<int, Option<Migration>>

  /** A listener registered with `docHandle.addListener('change', ...)`,
      identified by an opaque number. */
  type Listener = nat

  /** `RepoConfig<T>`: the migrations, whether `onInit` is given, and the
      `onChange` listener if one is given. */
  datatype RepoConfig = RepoConfig(migrations: Migrations, onInit: bool, onChange: Option<Listener>)

  /** `doc.version ?? 0` */
  function StoredVersion(d: Doc): int {
    d.version.GetOr(0)
  }

  /** `migrations[version]` is truthy. */
  predicate Defined(ms: Migrations, v: int) {
    v in ms && ms[v].Some?
  }

  /** The migration for `v` exists and throws on the snapshot `d`. */
  predicate Throws(ms: Migrations, v: int, d: Doc) {
    Defined(ms, v) && ms[v].value(d).None?
  }

  /** The two changes for version `v`: the migration's change applied to the
      snapshot, then `version` set to `v`. */
  function Step(d: Doc, ms: Migrations, v: int): Doc
    requires Defined(ms, v) && !Throws(ms, v, d)
  {
    var changed := ms[v].value(d).value(d);
    changed.(version := Some(v))
  }

  /** The versions that ran, the snapshot each migration received, the
      document after every `change` in order, the final document, and the
      version whose migration threw, if one did. */
  datatype Outcome = Outcome(doc: Doc, ran: seq<int>, fed: seq<Doc>, log: seq<Doc>, failed: Option<int>)

  /** The `for` loop of `migrate` from `version` on, with `migrationsSize`
      as `size`. A throwing migration ends the loop, and with it `migrate`,
      before either of its changes. */
  function Run(d: Doc, ms: Migrations, version: int, size: int): Outcome
    decreases size - version + 1
  {
    if version > size then Outcome(d, [], [], [], None)
    else if Defined(ms, version) then
      match ms[version].value(d)
      case None => Outcome(d, [], [], [], Some(version))
      case Some(changeFn) =>
        var changed := changeFn(d);
        var bumped := changed.(version := Some(version));
        var rest := Run(bumped, ms, version + 1, size);
        Outcome(rest.doc, [version] + rest.ran, [d] + rest.fed, [changed, bumped] + rest.log, rest.failed)
    else
      Run(d, ms, version + 1, size)
  }

  /** What `migrate(docHandle, migrations)` does to a document `d`. */
  function Migrated(d: Doc, ms: Migrations): Outcome {
    Run(d, ms, StoredVersion(d) + 1, |ms|)
  }

  /** Applying the migrations of `vs` one after another, each to the result
      of the one before; `None` when one of them throws. */
  function ApplyAll(d: Doc, ms: Migrations, vs: seq<int>): Option<Doc>
    requires forall i :: 0 <= i < |vs| ==> Defined(ms, vs[i])
    decreases |vs|
  {
    if vs == [] then Some(d)
    else if Throws(ms, vs[0], d) then None
    else ApplyAll(Step(d, ms, vs[0]), ms, vs[1..])
  }

  /** The versions that run are exactly the defined ones from `version` on,
      up to `size` or to the first migration that throws, each once, in
      ascending order: the bound is the number of entries, and a number
      without a truthy entry is skipped. A migration that throws has a
      truthy entry within the bound. */
  lemma {:induction false} RunVisits(d: Doc, ms: Migrations, version: int, size: int)
    ensures var r := Run(d, ms, version, size);
      (forall v :: v in r.ran <==> version <= v <= size && Defined(ms, v) && (r.failed.Some? ==> v < r.failed.value)) &&
      (forall i, j :: 0 <= i < j < |r.ran| ==> r.ran[i] < r.ran[j]) &&
      (r.failed.Some? ==> version <= r.failed.value <= size && Defined(ms, r.failed.value))
    decreases size - version + 1
  {
    if version <= size && Defined(ms, version) && !Throws(ms, version, d) {
      var bumped := Step(d, ms, version);
      RunVisits(bumped, ms, version + 1, size);
      var rest := Run(bumped, ms, version + 1, size);
      var ran := [version] + rest.ran;
      forall i, j | 0 <= i < j < |ran|
        ensures ran[i] < ran[j]
      {
        if i == 0 {
          assert ran[j] in rest.ran;
        }
      }
    } else if version <= size && !Defined(ms, version) {
      RunVisits(d, ms, version + 1, size);
    }
  }

  /** Every version that ran has a truthy entry whose migration did not
      throw on the snapshot it received; each ran with one snapshot and left
      two documents behind, one per `change`. */
  lemma {:induction false} RunShape(d: Doc, ms: Migrations, version: int, size: int)
    ensures var r := Run(d, ms, version, size);
      |r.fed| == |r.ran| && |r.log| == 2 * |r.ran| &&
      (forall i :: 0 <= i < |r.ran| ==> Defined(ms, r.ran[i]) && !Throws(ms, r.ran[i], r.fed[i]))
    decreases size - version + 1
  {
    if version <= size && Defined(ms, version) && !Throws(ms, version, d) {
      RunShape(Step(d, ms, version), ms, version + 1, size);
    } else if version <= size && !Defined(ms, version) {
      RunShape(d, ms, version + 1, size);
    }
  }

  /** Each migration receives the snapshot left by the ones before it, and
      the final document is the fold of the migrations that ran; a migration
      that throws receives that final document and changes nothing. */
  lemma {:induction false} RunIsFold(d: Doc, ms: Migrations, version: int, size: int)
    ensures var r := Run(d, ms, version, size);
      (forall i :: 0 <= i < |r.ran| ==> Defined(ms, r.ran[i])) &&
      |r.fed| == |r.ran| &&
      (forall k :: 0 <= k < |r.ran| ==> ApplyAll(d, ms, r.ran[..k]) == Some(r.fed[k])) &&
      ApplyAll(d, ms, r.ran) == Some(r.doc) &&
      (r.failed.Some? ==> Throws(ms, r.failed.value, r.doc))
    decreases size - version + 1
  {
    RunShape(d, ms, version, size);
    if version <= size && Defined(ms, version) && !Throws(ms, version, d) {
      var bumped := Step(d, ms, version);
      RunIsFold(bumped, ms, version + 1, size);
      var rest := Run(bumped, ms, version + 1, size);
      var r := Run(d, ms, version, size);
      assert r.ran[1..] == rest.ran;
      forall k | 0 < k < |r.ran|
        ensures ApplyAll(d, ms, r.ran[..k]) == Some(r.fed[k])
      {
        assert r.ran[..k][1..] == rest.ran[..k - 1];
        assert r.fed[k] == rest.fed[k - 1];
      }
      assert r.ran[..0] == [];
    } else if version <= size && !Defined(ms, version) {
      RunIsFold(d, ms, version + 1, size);
    }
  }

  /** The change of each migration is applied to its snapshot before
      `version` is set to its number: the documents after the two `change`
      calls for the `k`-th migration that ran. */
  lemma {:induction false} RunChangeOrder(d: Doc, ms: Migrations, version: int, size: int)
    ensures var r := Run(d, ms, version, size);
      |r.fed| == |r.ran| && |r.log| == 2 * |r.ran| &&
      (forall i :: 0 <= i < |r.ran| ==> Defined(ms, r.ran[i]) && !Throws(ms, r.ran[i], r.fed[i])) &&
      forall k :: 0 <= k < |r.ran| ==>
        r.log[2 * k] == ms[r.ran[k]].value(r.fed[k]).value(r.fed[k]) &&
        r.log[2 * k + 1] == Step(r.fed[k], ms, r.ran[k])
    decreases size - version + 1
  {
    RunShape(d, ms, version, size);
    if version <= size && Defined(ms, version) && !Throws(ms, version, d) {
      var bumped := Step(d, ms, version);
      RunChangeOrder(bumped, ms, version + 1, size);
      var rest := Run(bumped, ms, version + 1, size);
      var r := Run(d, ms, version, size);
      forall k | 0 < k < |r.ran|
        ensures r.log[2 * k] == ms[r.ran[k]].value(r.fed[k]).value(r.fed[k])
        ensures r.log[2 * k + 1] == Step(r.fed[k], ms, r.ran[k])
      {
        assert r.ran[k] == rest.ran[k - 1] && r.fed[k] == rest.fed[k - 1];
        assert r.log[2 * k] == rest.log[2 * (k - 1)];
        assert r.log[2 * k + 1] == rest.log[2 * (k - 1) + 1];
      }
    } else if version <= size && !Defined(ms, version) {
      RunChangeOrder(d, ms, version + 1, size);
    }
  }

  /** When any migration ran, the final `version` is the number of the last
      one that ran, also when a later one threw, so no version is stamped
      without its change; when none ran, the document is untouched. */
  lemma {:induction false} RunFinalVersion(d: Doc, ms: Migrations, version: int, size: int)
    ensures var r := Run(d, ms, version, size);
      (r.ran == [] ==> r.doc == d && r.log == []) &&
      (r.ran != [] ==> r.doc.version == Some(r.ran[|r.ran| - 1]))
    decreases size - version + 1
  {
    if version <= size && Defined(ms, version) && !Throws(ms, version, d) {
      RunFinalVersion(Step(d, ms, version), ms, version + 1, size);
    } else if version <= size && !Defined(ms, version) {
      RunFinalVersion(d, ms, version + 1, size);
    }
  }

  /** A document whose stored version is already at least the number of
      entries is left as it is, and `migrate` reports no update. */
  lemma UpToDate(d: Doc, ms: Migrations)
    requires StoredVersion(d) >= |ms|
    ensures Migrated(d, ms) == Outcome(d, [], [], [], None)
  {
  }

  /** With migrations for 1 to `n` (and `n` entries in all), none of which
      throws, a document at version 0 or without a version ends at version
      `n`, every migration having run once in order. */
  lemma FullChain(d: Doc, ms: Migrations, n: nat)
    requires StoredVersion(d) == 0
    requires |ms| == n && forall v :: 1 <= v <= n ==> Defined(ms, v)
    requires forall v, x :: 1 <= v <= n ==> !Throws(ms, v, x)
    ensures Migrated(d, ms).failed == None
    ensures n > 0 ==> Migrated(d, ms).doc.version == Some(n)
    ensures |Migrated(d, ms).ran| == n
    ensures forall i :: 0 <= i < n ==> Migrated(d, ms).ran[i] == i + 1
  {
    var r := Migrated(d, ms);
    RunVisits(d, ms, 1, n);
    RunFinalVersion(d, ms, 1, n);
    NoThrowNoFailure(d, ms, 1, n);
    RunsAscending(r.ran, 1, n);
  }

  /** A migration that throws stops the chain: with migrations for 1 to `n`
      and the one for `f` throwing on every snapshot, the migrations before
      `f` have run and the document stays at the last of them. */
  lemma ChainStopsAtThrow(d: Doc, ms: Migrations, n: nat, f: int)
    requires StoredVersion(d) == 0
    requires |ms| == n && forall v :: 1 <= v <= n ==> Defined(ms, v)
    requires 1 <= f <= n
    requires forall x :: Throws(ms, f, x)
    requires forall v, x :: 1 <= v < f ==> !Throws(ms, v, x)
    ensures Migrated(d, ms).failed == Some(f)
    ensures Migrated(d, ms).ran == seq(f - 1, i => i + 1)
    ensures f > 1 ==> Migrated(d, ms).doc.version == Some(f - 1)
    ensures f == 1 ==> Migrated(d, ms).doc == d
  {
    var r := Migrated(d, ms);
    FailsAt(d, ms, 1, n, f);
    RunVisits(d, ms, 1, n);
    RunFinalVersion(d, ms, 1, n);
    assert forall v :: v in r.ran <==> 1 <= v <= f - 1;
    RunsAscending(r.ran, 1, f - 1);
  }

  /** A run in which no migration throws reports no failure. */
  lemma {:induction false} NoThrowNoFailure(d: Doc, ms: Migrations, version: int, size: int)
    requires forall v, x :: version <= v <= size ==> !Throws(ms, v, x)
    ensures Run(d, ms, version, size).failed == None
    decreases size - version + 1
  {
    if version <= size {
      assert !Throws(ms, version, d);
      if Defined(ms, version) {
        NoThrowNoFailure(Step(d, ms, version), ms, version + 1, size);
      } else {
        NoThrowNoFailure(d, ms, version + 1, size);
      }
    }
  }

  /** The run from `version` fails at `f` when the migrations between them
      do not throw and the one for `f` throws on whatever it receives. */
  lemma {:induction false} FailsAt(d: Doc, ms: Migrations, version: int, size: int, f: int)
    requires version <= f <= size && Defined(ms, f)
    requires forall x :: Throws(ms, f, x)
    requires forall v, x :: version <= v < f ==> !Throws(ms, v, x)
    ensures Run(d, ms, version, size).failed == Some(f)
    decreases f - version
  {
    if version < f {
      if Defined(ms, version) {
        assert !Throws(ms, version, d);
        FailsAt(Step(d, ms, version), ms, version + 1, size, f);
      } else {
        FailsAt(d, ms, version + 1, size, f);
      }
    } else {
      assert Throws(ms, f, d);
    }
  }

  /** A strictly ascending list holding exactly the numbers `lo..hi` is
      `[lo, ..., hi]`. */
  lemma {:induction false} RunsAscending(ran: seq<int>, lo: int, hi: int)
    requires forall v :: v in ran <==> lo <= v <= hi
    requires forall i, j :: 0 <= i < j < |ran| ==> ran[i] < ran[j]
    ensures |ran| == if hi < lo then 0 else hi - lo + 1
    ensures forall i :: 0 <= i < |ran| ==> ran[i] == lo + i
    decreases hi - lo + 1
  {
    if ran != [] {
      assert ran[0] in ran;
      assert ran[0] == lo by {
        assert lo in ran;
        var t :| 0 <= t < |ran| && ran[t] == lo;
        assert ran[0] <= ran[t];
      }
      forall v
        ensures v in ran[1..] <==> lo + 1 <= v <= hi
      {
        if v in ran[1..] {
          var t :| 0 <= t < |ran| - 1 && ran[1..][t] == v;
          assert ran[0] < ran[t + 1];
          assert ran[t + 1] in ran;
        }
        if lo + 1 <= v <= hi {
          assert v in ran;
          var t :| 0 <= t < |ran| && ran[t] == v;
          assert t != 0;
          assert ran[1..][t - 1] == v;
        }
      }
      RunsAscending(ran[1..], lo + 1, hi);
    } else {
      assert lo !in ran;
    }
  }

  /** The bound is the number of entries, not the largest key: with entries
      for versions 1 and 3 only version 1 is visited. */
  lemma CountNotLargestKey(d: Doc, f: Migration, g: Migration)
    requires d.version == None && f(d).Some?
    ensures var ms := map[1 := Some(f), 3 := Some(g)];
      Migrated(d, ms).ran == [1] && Migrated(d, ms).doc.version == Some(1)
  {
    var ms := map[1 := Some(f), 3 := Some(g)];
    assert ms.Keys == {1, 3};
    assert |ms| == 2;
  }

  /** `DocHandle<T>`: the current document, every document version produced
      by `change`, and the listeners registered for `'change'`. */
  class DocHandle {
    var doc: Doc
    var log: seq<Doc>
    var listeners: seq<Listener>

    constructor(initial: Doc)
      ensures doc == initial && log == [] && listeners == []
    {
      doc := initial;
      log := [];
      listeners := [];
    }

    /** `change(changeFn)` */
    method Change(changeFn: ChangeFn)
      modifies this
      ensures doc == changeFn(old(doc))
      ensures log == old(log) + [doc]
      ensures listeners == old(listeners)
    {
      doc := changeFn(doc);
      log := log + [doc];
    }

    /** `addListener('change', listener)` */
    method AddListener(listener: Listener)
      modifies this
      ensures listeners == old(listeners) + [listener]
      ensures doc == old(doc) && log == old(log)
    {
      listeners := listeners + [listener];
    }
  }

  /** One turn of `migrate`'s loop for a version whose migration yields a
      change: its two changes are logged first, then the rest of the run. */
  lemma RunDefinedStep(d: Doc, ms: Migrations, version: int, size: int)
    requires version <= size && Defined(ms, version) && !Throws(ms, version, d)
    ensures var changed := ms[version].value(d).value(d);
      var bumped := changed.(version := Some(version));
      var rest := Run(bumped, ms, version + 1, size);
      Run(d, ms, version, size) == Outcome(rest.doc, [version] + rest.ran, [d] + rest.fed, [changed, bumped] + rest.log, rest.failed)
  {
  }

  /** One turn of `migrate`'s loop for a version whose migration throws: the
      run ends there, with nothing logged. */
  lemma RunThrowStep(d: Doc, ms: Migrations, version: int, size: int)
    requires version <= size && Throws(ms, version, d)
    ensures Run(d, ms, version, size) == Outcome(d, [], [], [], Some(version))
  {
  }

  /** One turn of `migrate`'s loop for a version without a migration. */
  lemma RunSkipStep(d: Doc, ms: Migrations, version: int, size: int)
    requires version <= size && !Defined(ms, version)
    ensures Run(d, ms, version, size) == Run(d, ms, version + 1, size)
  {
  }

  /** One turn of `migrate`'s loop for a version with a truthy migration:
      the `await`ed migration either throws, leaving the handle as it was,
      or yields a change, which is applied, and then `version` is set. */
  method ApplyVersion(docHandle: DocHandle, migrations: Migrations, version: int) returns (threw: bool)
    requires Defined(migrations, version)
    modifies docHandle
    ensures threw == Throws(migrations, version, old(docHandle.doc))
    ensures threw ==> docHandle.doc == old(docHandle.doc) && docHandle.log == old(docHandle.log)
    ensures !threw ==> (docHandle.doc == Step(old(docHandle.doc), migrations, version) &&
                        docHandle.log == old(docHandle.log) +
                          [migrations[version].value(old(docHandle.doc)).value(old(docHandle.doc)), docHandle.doc])
    ensures docHandle.listeners == old(docHandle.listeners)
  {
    var migrationFn := migrations[version].value;
    var awaited := migrationFn(docHandle.doc);
    if awaited.None? {
      return true;
    }
    var changeFn := awaited.value;
    docHandle.Change(changeFn);
    docHandle.Change((state: Doc) => state.(version := Some(version)));
    threw := false;
  }

  /** How `migrate` ends: it resolves to `updated`, or rejects with the
      error of the migration for `version`. */
  datatype MigrateResult = Updated(updated: bool) | MigrationFailed(version: int)

  /** `migrate(docHandle, migrations)`. */
  method Migrate(docHandle: DocHandle, migrations: Migrations) returns (result: MigrateResult)
    modifies docHandle
    ensures var r := Migrated(old(docHandle.doc), migrations);
      docHandle.doc == r.doc && docHandle.log == old(docHandle.log) + r.log &&
      docHandle.listeners == old(docHandle.listeners) &&
      result == if r.failed.Some? then MigrationFailed(r.failed.value) else Updated(r.ran != [])
  {
    var doc := docHandle.doc;
    var migrationsSize := |migrations|;
    var updated := false;
    var version := StoredVersion(doc) + 1;
    ghost var whole := Run(doc, migrations, version, migrationsSize);
    ghost var ran: seq<int> := [];
    ghost var logged: seq<Doc> := [];
    ghost var log0 := docHandle.log;
    ghost var listeners0 := docHandle.listeners;
    while version <= migrationsSize
      invariant docHandle.doc == doc
      invariant docHandle.log == log0 + logged
      invariant docHandle.listeners == listeners0
      invariant Progress(whole, ran, logged, Run(doc, migrations, version, migrationsSize))
      invariant updated <==> ran != []
      decreases migrationsSize - version
    {
      if version in migrations && migrations[version].Some? {
        var threw := ApplyVersion(docHandle, migrations, version);
        if threw {
          RunThrowStep(doc, migrations, version, migrationsSize);
          return MigrationFailed(version);
        }
        Advance(whole, ran, logged, doc, migrations, version, migrationsSize);
        logged := logged + [migrations[version].value(doc).value(doc), docHandle.doc];
        ran := ran + [version];
        doc := docHandle.doc;
        updated := true;
      } else {
        RunSkipStep(doc, migrations, version, migrationsSize);
      }
      version := version + 1;
    }
    result := Updated(updated);
  }

  /** The run so far, `ran` and `logged`, followed by the `rest` of it, is
      the `whole` run. */
  ghost predicate Progress(whole: Outcome, ran: seq<int>, logged: seq<Doc>, rest: Outcome) {
    rest.doc == whole.doc && rest.failed == whole.failed &&
    ran + rest.ran == whole.ran && logged + rest.log == whole.log
  }

  /** A turn of the loop for a migration that yields a change moves its
      version and its two documents from the rest of the run to the part
      done. */
  lemma Advance(whole: Outcome, ran: seq<int>, logged: seq<Doc>, d: Doc, ms: Migrations, version: int, size: int)
    requires version <= size && Defined(ms, version) && !Throws(ms, version, d)
    requires Progress(whole, ran, logged, Run(d, ms, version, size))
    ensures Progress(whole, ran + [version], logged + [ms[version].value(d).value(d), Step(d, ms, version)],
      Run(Step(d, ms, version), ms, version + 1, size))
  {
    var pair := [ms[version].value(d).value(d), Step(d, ms, version)];
    var next := Run(Step(d, ms, version), ms, version + 1, size);
    RunDefinedStep(d, ms, version, size);
    assert (logged + pair) + next.log == logged + (pair + next.log);
    assert (ran + [version]) + next.ran == ran + ([version] + next.ran);
  }

  /** `initDocument(docHandle, config)`: `migrate` first, then `onInit` with
      the migrated document (returned here as `initArgument`, `None` when
      there is no `onInit`), then the `onChange` listener, if any; the result
      is `migrate`'s. When `migrate` rejects, the rejection propagates
      before `onInit` and the listener. */
  method InitDocument(docHandle: DocHandle, config: RepoConfig) returns (result: MigrateResult, initArgument: Option<Doc>)
    modifies docHandle
    ensures var r := Migrated(old(docHandle.doc), config.migrations);
      docHandle.doc == r.doc && docHandle.log == old(docHandle.log) + r.log &&
      result == (if r.failed.Some? then MigrationFailed(r.failed.value) else Updated(r.ran != [])) &&
      initArgument == (if config.onInit && r.failed.None? then Some(r.doc) else None) &&
      docHandle.listeners == old(docHandle.listeners) +
        (if config.onChange.Some? && r.failed.None? then [config.onChange.value] else [])
  {
    result := Migrate(docHandle, config.migrations);
    if result.MigrationFailed? {
      return result, None;
    }
    initArgument := if config.onInit then Some(docHandle.doc) else None;
    if config.onChange.Some? {
      docHandle.AddListener(config.onChange.value);
    }
  }
}
