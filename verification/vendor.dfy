/** The vendor's response envelope, shared by the three resources the sync
    fetches. The HTTP transport itself is not modelled: a request is
    represented by the response it produced. */
module Vendor {
  import opened Wrappers

  /** The `result` code of a successful envelope. */
  const SuccessCode := "0000"

  /** What one request yields: an HTTP error status, which
      `raise_for_status` turns into an exception, or a parsed envelope
      `{result, message, data}` whose `data` field may be missing or null
      (`None`). */
  datatype Response<D> =
    | HttpError(status: int)
    | Envelope(result: string, message: string, data: Option<D>)

  /** Reading the response raises: the HTTP status was an error, or a
      successful envelope has no `data` to index. */
  predicate Raises<D>(resp: Response<D>) {
    resp.HttpError? || (resp.result == SuccessCode && resp.data.None?)
  }

  /** A successful envelope carrying data. */
  predicate Delivers<D>(resp: Response<D>) {
    resp.Envelope? && resp.result == SuccessCode && resp.data.Some?
  }

  /** A non-success envelope: logged, and that resource's sync stops. */
  predicate Rejected<D>(resp: Response<D>) {
    resp.Envelope? && resp.result != SuccessCode
  }
}
