/** `issuesToFieldMap` and `validate` (`src/lib/domain/Core/Utils/zod.ts`):
    turning a schema's parse failure into one message per field. The schema
    is abstract: `safeParse` is a parameter. */
module Validation {
  import opened Wrappers

  /** A path segment: a property name or an array index. */
  datatype PathSegment = Name(name: string) | Index(index: int)

  /** One issue of a failed parse; a missing message is `None`. */
  datatype Issue = Issue(path: seq<PathSegment>, message: Option<string>)

  /** `safeParse`'s result. */
  datatype ParseResult<T> = Success(data: T) | Failure(issues: seq<Issue>)

  /** `ValidationResult<T>`; `data` is `None` when absent. */
  datatype ValidationResult<T> = ValidationResult(ok: bool, data: Option<T>, errors: map<string, string>)

  /** A segment as `join` writes it. */
  function SegmentText(p: PathSegment): string {
    match p
    case Name(n) => n
    case Index(i) => IntToString(i)
  }

  function SegmentTexts(path: seq<PathSegment>): (r: seq<string>)
    ensures |r| == |path| && forall i :: 0 <= i < |path| ==> r[i] == SegmentText(path[i])
  {
    seq(|path|, i requires 0 <= i < |path| => SegmentText(path[i]))
  }

  /** An issue's field key: its path joined with `'.'`, or `'_root'` for
      an empty path. */
  function Key(issue: Issue): string {
    if |issue.path| > 0 then Join(SegmentTexts(issue.path), ".") else "_root"
  }

  /** A path-less issue is filed under `_root`, a one-name path under that
      name, and a longer path under its segments joined by dots. */
  lemma KeyShapes(m: Option<string>, n: string, n2: string, i: int)
    ensures Key(Issue([], m)) == "_root"
    ensures Key(Issue([Name(n)], m)) == n
    ensures Key(Issue([Name(n), Index(i)], m)) == n + "." + IntToString(i)
    ensures Key(Issue([Name(n), Name(n2)], m)) == n + "." + n2
  {
    assert SegmentTexts([Name(n)]) == [n];
    assert SegmentTexts([Name(n), Index(i)]) == [n, IntToString(i)];
    assert Join([n, IntToString(i)], ".") == n + "." + Join([IntToString(i)], ".");
    assert SegmentTexts([Name(n), Name(n2)]) == [n, n2];
    assert Join([n, n2], ".") == n + "." + Join([n2], ".");
  }

  /** The issue carries a (truthy) message. */
  predicate HasMessage(issue: Issue) {
    issue.message.Some? && issue.message.value != ""
  }

  /** The message of the first issue for `key` that carries one. */
  function FirstMessage(issues: seq<Issue>, key: string): Option<string>
    decreases |issues|
  {
    if issues == [] then None
    else
      var earlier := FirstMessage(issues[..|issues| - 1], key);
      var last := issues[|issues| - 1];
      if earlier.Some? then earlier
      else if Key(last) == key && HasMessage(last) then last.message
      else None
  }

  /** `FirstMessage` finds exactly the first issue for `key` with a message:
      `Some(m)` when such an issue exists, `m` being its message, and `None`
      when none does. */
  lemma {:induction false} FirstMessageIsFirst(issues: seq<Issue>, key: string)
    ensures FirstMessage(issues, key).None? <==>
      forall i :: 0 <= i < |issues| ==> !(Key(issues[i]) == key && HasMessage(issues[i]))
    ensures FirstMessage(issues, key).Some? ==>
      exists i :: 0 <= i < |issues| && Key(issues[i]) == key && HasMessage(issues[i]) &&
        issues[i].message == FirstMessage(issues, key) &&
        forall j :: 0 <= j < i ==> !(Key(issues[j]) == key && HasMessage(issues[j]))
    decreases |issues|
  {
    if issues != [] {
      var init := issues[..|issues| - 1];
      FirstMessageIsFirst(init, key);
      assert forall i :: 0 <= i < |init| ==> init[i] == issues[i];
      if FirstMessage(init, key).Some? {
        var i :| 0 <= i < |init| && Key(init[i]) == key && HasMessage(init[i]) &&
          init[i].message == FirstMessage(init, key) &&
          forall j :: 0 <= j < i ==> !(Key(init[j]) == key && HasMessage(init[j]));
        assert issues[i] == init[i];
      } else if FirstMessage(issues, key).Some? {
        assert Key(issues[|init|]) == key && HasMessage(issues[|init|]);
      }
    }
  }

  /** `out` holds, for every key outside `blocked`, the first message the
      issues carry for it, and nothing else. */
  ghost predicate FieldMapOf(issues: seq<Issue>, blocked: set<string>, out: map<string, string>) {
    (forall k :: k in out <==> k !in blocked && FirstMessage(issues, k).Some?) &&
    (forall k :: k in out ==> Some(out[k]) == FirstMessage(issues, k))
  }

  /** One turn of the loop: the issue's message is written when its key is
      neither written nor blocked. */
  lemma FieldMapStep(issues: seq<Issue>, n: nat, blocked: set<string>, out: map<string, string>)
    requires n < |issues| && FieldMapOf(issues[..n], blocked, out)
    ensures var i := issues[n];
      FieldMapOf(issues[..n + 1], blocked,
        if Key(i) !in out && Key(i) !in blocked && HasMessage(i) then out[Key(i) := i.message.value] else out)
  {
    assert issues[..n + 1][..n] == issues[..n];
  }

  /** `issuesToFieldMap(issues)`, with `out` holding only the keys the loop
      writes: the first message per key wins, and issues without a message
      add nothing. */
  method IssuesToFieldMap(issues: seq<Issue>) returns (out: map<string, string>)
    ensures forall k :: k in out <==> FirstMessage(issues, k).Some?
    ensures forall k :: k in out ==> Some(out[k]) == FirstMessage(issues, k)
  {
    out := map[];
    for n := 0 to |issues|
      invariant FieldMapOf(issues[..n], {}, out)
    {
      var i := issues[n];
      FieldMapStep(issues, n, {}, out);
      var key := Key(i);
      if key !in out && HasMessage(i) {
        out := out[key := i.message.value];
      }
    }
    assert issues[..|issues|] == issues;
  }

  /** The names a fresh object literal `{}` inherits from
      `Object.prototype`; reading any of them gives a truthy value. */
  const InheritedNames: set<string> := {
    "constructor", "hasOwnProperty", "isPrototypeOf", "propertyIsEnumerable",
    "toString", "toLocaleString", "valueOf", "__proto__",
    "__defineGetter__", "__defineSetter__", "__lookupGetter__", "__lookupSetter__"
  }

  /** `issuesToFieldMap` as written: `!out[key]` also reads the inherited
      properties of `out`, so a key named like one of them is never
      written. */
  method IssuesToFieldMapAsWritten(issues: seq<Issue>) returns (out: map<string, string>)
    ensures forall k :: k in out <==> k !in InheritedNames && FirstMessage(issues, k).Some?
    ensures forall k :: k in out ==> Some(out[k]) == FirstMessage(issues, k)
  {
    out := map[];
    for n := 0 to |issues|
      invariant FieldMapOf(issues[..n], InheritedNames, out)
    {
      var i := issues[n];
      FieldMapStep(issues, n, InheritedNames, out);
      var key := Key(i);
      var current := key in out || key in InheritedNames;
      if !current && HasMessage(i) {
        out := out[key := i.message.value];
      }
    }
    assert issues[..|issues|] == issues;
  }

  /** A single issue with a message on a field named `constructor`: there
      is a message for the key, yet the key is an inherited name, so the
      written loop drops it. */
  lemma ConstructorFieldDropped()
    ensures FirstMessage([Issue([Name("constructor")], Some("Required"))], "constructor") == Some("Required")
    ensures "constructor" in InheritedNames
  {
    var issues := [Issue([Name("constructor")], Some("Required"))];
    assert SegmentTexts(issues[0].path) == ["constructor"];
    assert issues[..0] == [];
  }

  /** `validate(schema, v)`: success carries the data and no errors;
      failure carries no data and the field map of the issues as
      `issuesToFieldMap` builds it, without the inherited names. */
  method Validate<V, T>(safeParse: V -> ParseResult<T>, v: V) returns (result: ValidationResult<T>)
    ensures result.ok <==> safeParse(v).Success?
    ensures safeParse(v).Success? ==> result.data == Some(safeParse(v).data) && result.errors == map[]
    ensures safeParse(v).Failure? ==> result.data == None
    ensures safeParse(v).Failure? ==> forall k :: k in result.errors <==>
      k !in InheritedNames && FirstMessage(safeParse(v).issues, k).Some?
    ensures safeParse(v).Failure? ==>
      forall k :: k in result.errors ==> Some(result.errors[k]) == FirstMessage(safeParse(v).issues, k)
  {
    var parsed := safeParse(v);
    if parsed.Success? {
      result := ValidationResult(true, Some(parsed.data), map[]);
    } else {
      var errors := IssuesToFieldMapAsWritten(parsed.issues);
      result := ValidationResult(false, None, errors);
    }
  }

  /** `validate` over the corrected field map: on failure every key with a
      message is reported, inherited names included. */
  method ValidateCorrected<V, T>(safeParse: V -> ParseResult<T>, v: V) returns (result: ValidationResult<T>)
    ensures result.ok <==> safeParse(v).Success?
    ensures safeParse(v).Success? ==> result.data == Some(safeParse(v).data) && result.errors == map[]
    ensures safeParse(v).Failure? ==> result.data == None
    ensures safeParse(v).Failure? ==>
      forall k :: k in result.errors <==> FirstMessage(safeParse(v).issues, k).Some?
    ensures safeParse(v).Failure? ==>
      forall k :: k in result.errors ==> Some(result.errors[k]) == FirstMessage(safeParse(v).issues, k)
  {
    var parsed := safeParse(v);
    if parsed.Success? {
      result := ValidationResult(true, Some(parsed.data), map[]);
    } else {
      var errors := IssuesToFieldMap(parsed.issues);
      result := ValidationResult(false, None, errors);
    }
  }
}
