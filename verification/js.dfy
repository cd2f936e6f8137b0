/** The few pieces of JavaScript semantics that the widget's history logic relies on:
    values that may be `undefined`, truthiness of strings, and `Array.prototype.slice`. */
module Js {

  /** A property of a JavaScript object: `Undefined` when the object lacks it (or holds
      `null`), `Defined(v)` otherwise. */
  datatype Prop<+T> = Undefined | Defined(value: T)

  /** The property's value, with `fallback` standing in for a missing one. */
  function ValueOr<T>(p: Prop<T>, fallback: T): T {
    if p.Defined? then p.value else fallback
  }

  /** `if (s)` on an optional string: absent and the empty string are both falsy. */
  predicate Truthy(s: Prop<string>) {
    s.Defined? && s.value != ""
  }

  /** How `slice` turns a relative position into an index: a negative position counts
      back from the end, and the outcome is clamped into `[0, len]`. */
  function ResolveIndex(rel: int, len: nat): (k: nat)
    ensures k <= len
  {
    if rel < 0 then (if len + rel < 0 then 0 else len + rel)
    else if rel < len then rel
    else len
  }

  /** `s.slice(start, end)`: the elements from the resolved start up to, not including,
      the resolved end; empty when the resolved end does not lie past the resolved start. */
  function Slice<T>(s: seq<T>, start: int, end: int): seq<T> {
    var k := ResolveIndex(start, |s|);
    var f := ResolveIndex(end, |s|);
    if k < f then s[k..f] else []
  }

  /** `s.slice(start)`: the end defaults to the length of `s`. */
  function SliceFrom<T>(s: seq<T>, start: int): seq<T> {
    Slice(s, start, |s|)
  }

  /** Concatenation is associative; stated once so that long histories need not be
      compared element by element. */
  lemma ConcatAssoc<T>(x: seq<T>, y: seq<T>, z: seq<T>)
    ensures x + (y + z) == (x + y) + z
  {
  }
}
