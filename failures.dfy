/** Error values and the small result types the rest of the model returns.
    Go returns an `error` next to its values; here a failure is an explicit
    variant, and the kinds below are the ones the reconcile tick can surface. */
module Failures {

  /** What a step of the tick can fail with. `Status` keeps the HTTP code the
      remote answered with and `Format` the number of comma-separated fields
      found, as the two `fmt.Errorf` messages of `obtenerDetallesGist` do. */
  datatype Error =
    | Transport          // request could not be built, sent or read
    | Status(code: int)  // the remote answered with a status other than 200
    | Format(fields: nat) // the body did not split into exactly two fields
    | FileSystem         // creating, writing or removing a local file failed
    | Subprocess         // the wallpaper executable failed or was not found
    | Storage            // the history database could not be opened or written

  datatype Option<+T> = None | Some(value: T)

  datatype Result<+T> = Ok(value: T) | Err(error: Error)
}
