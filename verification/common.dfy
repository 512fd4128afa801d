/**
 Shared vocabulary of the two video services: the outcome classes a caller can
 tell apart, the byte type of uploaded payloads, and the video record.
 */
module Common {

  /** Observable outcome classes of a request (HTTP 200, 404, 400 and 500). */
  datatype Status = Ok | NotFound | BadRequest | ServerError

  datatype Option<+T> = None | Some(value: T)

  /** A handler's answer: a body on success, otherwise the failing status. */
  datatype Result<+T> = Success(value: T) | Failure(status: Status)

  /** One octet of an uploaded or downloaded payload. */
  newtype byte = x: int | 0 <= x < 256

  /** Video identifiers are Java `long`s; the model keeps them unbounded. */
  type VideoId = int

  /**
   The fields of a video record that the handlers read or write: its
   identifier, the URL of its binary data, the like count and the list of
   users who like it.
   */
  datatype Video = Video(id: VideoId, dataUrl: string, likes: int, users: seq<string>)
}
