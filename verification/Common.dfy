/** A value that may be missing. */
module Options {
  datatype Option<T> = None | Some(value: T)
}

/** Sequences without repetition. */
module Sequences {
  predicate Distinct<T(==)>(s: seq<T>) {
    forall i, j :: 0 <= i < j < |s| ==> s[i] != s[j]
  }
}

/** C strings: the character at an index, which is the terminating zero at the end. */
module CStrings {
  function At(s: string, i: nat): char {
    if i < |s| then s[i] else '\0'
  }
}
