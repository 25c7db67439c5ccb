/** The HTTP errors the service reports. Each `HTTPException` the core raises
    is one constructor; `StatusCode` gives the status it is sent with. */
module Errors {
  import opened Wrappers

  /** The statuses the URL fetcher raises: 400 for a bad URL, a failed or
      empty download or any other error, 408 for a timeout, 413 for an
      oversized body and 415 for a non-image content type. */
  type FetchStatus = s: int | s == 400 || s == 408 || s == 413 || s == 415 witness 400

  datatype ApiError =
    | UnsupportedImageType(received: Option<string>)  // content type not allowed
    | ImageTooLarge(receivedSize: nat)                // more bytes than MAX_FILE_SIZE
    | EmptyImageFile                                  // zero bytes
    | InvalidMetrics(invalid: set<string>)            // names outside the valid set
    | InvalidEdgeMode(mode: string)                   // mode outside the valid set
    | CorruptImage                                    // the decoder rejected the bytes
    | DownloadFailed(status: FetchStatus)             // raised by the URL fetcher
    | InternalError                                   // an uncaught exception

  function StatusCode(e: ApiError): (code: int)
    ensures e.UnsupportedImageType? ==> code == 415
    ensures e.ImageTooLarge? ==> code == 413
    ensures e.EmptyImageFile? || e.InvalidMetrics? || e.InvalidEdgeMode? || e.CorruptImage? ==>
              code == 400
    ensures e.DownloadFailed? ==> code == e.status
    ensures e.InternalError? ==> code == 500
    ensures 400 <= code <= 599
  {
    match e
    case UnsupportedImageType(_) => 415
    case ImageTooLarge(_) => 413
    case EmptyImageFile => 400
    case InvalidMetrics(_) => 400
    case InvalidEdgeMode(_) => 400
    case CorruptImage => 400
    case DownloadFailed(status) => status
    case InternalError => 500
  }
}
