/** Collection.swift: `subscript(safe:)` and `identifiableValues()`, with
    the collection's indices taken to be the integer positions of an
    array. */
module SafeSubscript {
  import opened Wrappers

  /** `subscript(safe:)`: the element when the index is valid, else nil. */
  function SafeGet<T>(s: seq<T>, index: int): (r: Option<T>)
    ensures r.Some? <==> 0 <= index < |s|
    ensures r.Some? ==> r.value == s[index]
  {
    if 0 <= index < |s| then Some(s[index]) else None
  }

  /** The wrapper `identifiableValues()` produces; its identity is not part
      of this model, only the wrapped value. */
  datatype IdentifiableValue<T> = IdentifiableValue(value: T)

  /** `identifiableValues()`: each element wrapped, in order. */
  function IdentifiableValues<T>(s: seq<T>): (r: seq<IdentifiableValue<T>>)
    ensures |r| == |s|
    ensures forall i :: 0 <= i < |s| ==> r[i].value == s[i]
  {
    seq(|s|, i requires 0 <= i < |s| => IdentifiableValue(s[i]))
  }

  function Unwrap<T>(r: seq<IdentifiableValue<T>>): (s: seq<T>)
    ensures |s| == |r| && forall i :: 0 <= i < |r| ==> s[i] == r[i].value
  {
    seq(|r|, i requires 0 <= i < |r| => r[i].value)
  }

  /** Unwrapping gives the collection back, and the safe subscript of the
      wrapped values wraps the safe subscript of the collection. */
  lemma IdentifiableValuesRoundTrip<T>(s: seq<T>, index: int)
    ensures Unwrap(IdentifiableValues(s)) == s
    ensures SafeGet(IdentifiableValues(s), index) ==
      (if SafeGet(s, index).Some? then Some(IdentifiableValue(SafeGet(s, index).value)) else None)
  {
  }

  /** The safe subscript agrees with the ordinary one wherever that one is
      defined, and is nil exactly elsewhere, including past the end after an
      append. */
  lemma SafeGetAfterAppend<T>(s: seq<T>, x: T, index: int)
    ensures SafeGet(s + [x], index) == if index == |s| then Some(x) else SafeGet(s, index)
  {
  }
}
