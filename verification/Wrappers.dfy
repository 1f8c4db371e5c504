/** Stock definitions: an option type, used wherever the source returns a null pointer or a success flag beside
    an out-parameter, the smaller of two numbers, and the associativity of concatenation. */
module Wrappers {
  datatype Option<+T> = None | Some(value: T)

  function Min(a: nat, b: nat): nat {
    if a < b then a else b
  }

  lemma Regroup<T>(a: seq<T>, b: seq<T>, c: seq<T>)
    ensures (a + b) + c == a + (b + c)
  {
  }
}
