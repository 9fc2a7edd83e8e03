/** Optional values and the three kinds of failure the kernel raises
    (plus the out-of-range error of a checked vector access). */
module Errors {

  /** A value that may be absent; also stands for a null pointer. */
  datatype Option<T> = None | Some(value: T)

  /** The exceptions the kernel can raise. */
  datatype Error =
    | NotFound(typeId: nat)        // getThing() couldn't find the requested type
    | NotImplemented               // getTag() not overridden by the component
    | AlreadyOpened(name: string)  // output name already bound without reopen
    | OutOfRange(index: nat)       // inFilePaths.at(i) past the end

  /** Either a value or the exception that aborted the operation. */
  datatype Result<T> = Ok(value: T) | Err(error: Error)
}
