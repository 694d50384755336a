/** The remote image service as the controller sees it. The HTTP exchange is not modelled: what the
    service answers is an input, and the client records which requests were sent. */
module Imgur {
  import opened Entities

  /** The answer to an upload: the delete hash and link of the stored image, or an error. */
  datatype UploadOutcome = Uploaded(deleteHash: string, link: string) | UploadFailed

  datatype DeleteOutcome = Deleted | DeleteFailed

  datatype RemoteRequest = UploadRequest(bytes: Bytes) | DeleteRequest(deleteHash: string)

  class ImgurClient {
    /** Every request sent, oldest first. */
    ghost var requests: seq<RemoteRequest>

    constructor ()
      ensures requests == []
    {
      requests := [];
    }

    /** Sends one upload request; the service answers `answer`. */
    method UploadImage(bytes: Bytes, answer: UploadOutcome) returns (r: UploadOutcome)
      modifies this
      ensures requests == old(requests) + [UploadRequest(bytes)]
      ensures r == answer
    {
      requests := requests + [UploadRequest(bytes)];
      r := answer;
    }

    /** Sends one delete request; the service answers `answer`. */
    method DeleteImage(deleteHash: string, answer: DeleteOutcome) returns (r: DeleteOutcome)
      modifies this
      ensures requests == old(requests) + [DeleteRequest(deleteHash)]
      ensures r == answer
    {
      requests := requests + [DeleteRequest(deleteHash)];
      r := answer;
    }
  }
}
