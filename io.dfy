/** The parts of Rust's `std::io` that the streams rely on: results, errors
    and the `Option` of the standard library. */
module Io {
  import opened Bytes

  datatype Option<+T> = None | Some(value: T)

  datatype Result<+T, +E> = Ok(value: T) | Err(error: E)

  /** Every one of `rs` is a success. */
  predicate AllOk<T, E>(rs: seq<Result<T, E>>) {
    forall k | 0 <= k < |rs| :: rs[k].Ok?
  }

  /** The values of results that are all successes, in order. */
  function OkValues<T, E>(rs: seq<Result<T, E>>): (vs: seq<T>)
    requires AllOk(rs)
    ensures |vs| == |rs| && forall k | 0 <= k < |rs| :: rs[k] == Ok(vs[k])
  {
    if rs == [] then [] else [rs[0].value] + OkValues(rs[1..])
  }

  /** The kinds of `std::io::Error` the model distinguishes. */
  datatype ErrorKind = NotFound | PermissionDenied | BrokenPipe | InvalidData | Interrupted | Other

  /** What `std::error::Error::source` of an I/O error yields: the error it
      wraps, kept abstract as its rendered text. */
  datatype ErrorSource = ErrorSource(description: Str)

  /** An `std::io::Error`: its kind, the text its `Display` shows, and its
      own source. */
  datatype IoError = IoError(kind: ErrorKind, message: Str, source: Option<ErrorSource>)

  type IoResult<T> = Result<T, IoError>

  /** The error `read_to_string` reports when the bytes are not UTF-8. */
  function InvalidUtf8Error(): IoError {
    IoError(InvalidData, Text("stream did not contain valid UTF-8"), None)
  }

  /** The bytes as text, as `std::io::read_to_string` checks them. */
  function DecodeText(b: seq<byte>): (r: IoResult<Str>)
    ensures r.Ok? <==> ValidUtf8(b)
    ensures r.Ok? ==> r.value == b
    ensures r.Err? ==> r.error == InvalidUtf8Error()
  {
    if ValidUtf8(b) then Ok(b) else Err(InvalidUtf8Error())
  }
}
