/** Option and Result, for the source's `None` returns and raised exceptions. */
module Wrappers {
  datatype Option<T> = None | Some(value: T)

  /** The exception classes the modelled code raises. */
  datatype Error = ValueError(msg: string) | KeyError(key: string) | TypeError(msg: string)
                 | IndexError | RuntimeError(msg: string) | ZeroDivisionError
                 | FileNotFoundError(msg: string)

  datatype Result<T> = Ok(value: T) | Err(error: Error)
  {
    predicate IsOk() { Ok? }
  }

  /** The values of the options that hold one, in order. */
  function Somes<T>(bs: seq<Option<T>>): (r: seq<T>)
    ensures |r| <= |bs|
  {
    if bs == [] then []
    else
      var n := |bs| - 1;
      Somes(bs[..n]) + (if bs[n].Some? then [bs[n].value] else [])
  }
}
