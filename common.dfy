/** Failure-carrying wrappers and the Python exception kinds the handler can raise. */
module Common {

  /** The exceptions raised along the modelled paths. */
  datatype Error =
    | ValueError      // str.index on a missing substring, int() on a non-numeral
    | KeyError        // dict lookup of a missing key
    | ImportError     // importlib.import_module of a module that is not installed
    | AttributeError  // setting `__name__` on an object that has no such attribute
    | IvyException    // ivy's own validation errors (unknown backend, unsupported dtype)

  datatype Option<+T> = None | Some(value: T)

  datatype Result<+T> = Ok(value: T) | Err(error: Error)

  /** A step that either completes or raises. */
  datatype Outcome = Pass | Fail(error: Error)

  /** No element occurs twice. */
  predicate Distinct<T(==)>(s: seq<T>)
  {
    forall i, j :: 0 <= i < j < |s| ==> s[i] != s[j]
  }
}
