/**
 * The exceptions the package raises, as values. Each constructor stands for
 * one Python exception class; the payload is what the code puts in it.
 */
module Errors {
  import opened Values

  datatype Error =
    | IndexError(index: int)
      /** A missing name, position or key; a scalar key is carried as a 1-tuple. */
    | KeyError(key: seq<Value>)
    | ValueError(reason: string)
      /** The `ValueError` an `Index` raises for a repeated key, naming that key. */
    | NotUnique(key: seq<Value>)
    | TypeError(reason: string)
    | LookupError(reason: string)
    | AttributeError(name: string)
    | AssertionError
      /** `next` on an exhausted iterator. */
    | StopIteration
}
