/** Option and Result, for the values the build script may lack and for the
    failures that abort a target. */
module Wrappers {
  datatype Option<+T> = None | Some(value: T)

  datatype Result<+T, +E> = Ok(value: T) | Err(error: E)

  /** Why a target of the build script stops: `First()` on no candidates, a
      failed media upload, a failed publish, a failed metrics fetch. */
  datatype Failure =
    | NoCandidates
    | UploadFailed(mediaFile: string)
    | PublishFailed(tweetName: string)
    | FetchFailed(tweetId: int)
}
