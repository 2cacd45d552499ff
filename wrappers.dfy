/** Shared helper types: an optional value (JavaScript's `undefined`/`null`
    results) and a few string operations JavaScript provides built in. */
module Wrappers {

  /** `None` stands for a missing value (`undefined` or `null`). */
  datatype Option<+T> = None | Some(value: T) {
    /** `x ?? d` */
    function GetOr(default: T): T {
      match this
      case Some(v) => v
      case None => default
    }
  }

  /** No string occurs twice: the elements of a JavaScript `Set<string>`,
      or the keys of an object, in insertion order. */
  predicate Distinct(s: seq<string>) {
    forall i, j :: 0 <= i < j < |s| ==> s[i] != s[j]
  }

  /** The decimal digit `d` as a character. */
  function DigitChar(d: nat): char
    requires d < 10
  {
    "0123456789"[d]
  }

  /** `String(n)` for a non-negative integer. */
  function NatToString(n: nat): (s: string)
    ensures |s| > 0
    decreases n
  {
    if n < 10 then [DigitChar(n)] else NatToString(n / 10) + [DigitChar(n % 10)]
  }

  /** `String(n)` for an integer. */
  function IntToString(n: int): (s: string)
    ensures |s| > 0
  {
    if n < 0 then "-" + NatToString(-n) else NatToString(n)
  }

  /** `s.includes(sub)`: `sub` occurs in `s` at some position. */
  predicate Includes(s: string, sub: string)
    decreases |s|
  {
    sub <= s || (|s| > 0 && Includes(s[1..], sub))
  }

  /** `parts.join(sep)`. */
  function Join(parts: seq<string>, sep: string): string {
    if parts == [] then ""
    else if |parts| == 1 then parts[0]
    else parts[0] + sep + Join(parts[1..], sep)
  }

  // ---------------------------------------------------------------------
  // Array splicing, as `Array.prototype.splice` does it for a start >= 0

  /** `s.splice(i, 0, x)`; a start past the end appends. */
  function SpliceInsert<T>(s: seq<T>, i: nat, x: T): seq<T> {
    if i >= |s| then s + [x] else s[..i] + [x] + s[i..]
  }

  /** `s.splice(i, 1)`; a start past the end removes nothing. */
  function SpliceRemove<T>(s: seq<T>, i: nat): seq<T> {
    if i < |s| then s[..i] + s[i + 1..] else s
  }
}
