/** Small value types and the pointer cell shared by the other modules. */
module Wrappers {

  datatype Option<+T> = None | Some(value: T)

  /** The errors the modelled code returns, one constructor per origin. */
  datatype Error =
    | FetchFailed          // a registry call failed
    | NoVersionFound       // the "version not found" error type, which stops a re-sync
    | NoSuitableVersion    // latestSemver rejected every tag
    | ResolveFailed        // a digest could not be looked up
    | AllClientsFailed     // no registry client answered

  datatype Result<+T> = Ok(value: T) | Err(error: Error)

  /** A Go pointer to a T: an addressable slot. */
  class Ref<T> {
    var value: T

    constructor (v: T)
      ensures value == v
    {
      value := v;
    }
  }
}
