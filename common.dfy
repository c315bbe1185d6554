/** Small shared vocabulary: optional values, Go's `(value, error)` and
    `error` returns, and the two string/sequence helpers the core uses. */
module Common {

  datatype Option<T> = None | Some(value: T)

  /** A Go `(T, error)` return: the error is its message text. */
  datatype Result<T> = Ok(value: T) | Err(error: string)

  /** A Go `error`-only return: `nil` or an error with its message text. */
  datatype Outcome = Pass | Fail(message: string)

  /** An element of a non-empty set. */
  lemma Choose<X>(s: set<X>) returns (x: X)
    requires s != {}
    ensures x in s
  {
    x :| x in s;
  }

  /** strings.HasPrefix */
  predicate HasPrefix(s: string, prefix: string) {
    |prefix| <= |s| && s[..|prefix|] == prefix
  }

  /** A linear search over a list, as the `for _, x := range list { if x == v ...` loops do. */
  function Contains<T(==)>(list: seq<T>, x: T): (found: bool)
    ensures found <==> x in list
  {
    if list == [] then false
    else list[0] == x || Contains(list[1..], x)
  }
}
