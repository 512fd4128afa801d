# Video services: like ledger and upload registry

A Dafny model of the request-handling core of two small video services.

- **Like service** (`VideoSvc`). Videos sit in a repository keyed by id. Each
  video keeps a list of the users who like it and a `likes` count. A like
  appends the caller to the list when they are not in it yet. An unlike
  removes the caller's first entry when they are in it. Both recompute
  `likes` as the list length and save the video back. Every call answers OK,
  NOT_FOUND (unknown video) or BAD_REQUEST (already liked / not liked).
- **Upload service** (`VideoController`). Videos sit in an in-memory map.
  A new video gets id `size + 1` and a data URL built from the host
  `http://localhost:8080` and a path template with an `{id}` placeholder.
  The template's text (`VideoSvcApi.VIDEO_DATA_PATH`) is not part of this
  model; it is taken to be `/video/{id}/data`, after the example URL in the
  comment at VideoController.java:90.
  Uploads store a payload for a known video. Downloads return it, or
  NOT_FOUND when the video or its payload is missing; before the first
  upload request, though, a stored video's download fails with a server
  error (see "## Findings").

Every handler is a pure function from the state and the request to the
outcome and the new state. Modules:

| module | file | contents |
|---|---|---|
| `Common` | common.dfy | outcome classes, `Result`, `Option`, `byte`, the `Video` record |
| `Seqs` | seqs.dfy | `List.indexOf` / `List.remove(Object)` on sequences, duplicate-freedom |
| `Decimal` | decimal.dfy | decimal rendering of ids (`id + ""`) and its inverse |
| `Text` | text.dfy | `String.replace` on a literal target |
| `VideoLike` | video_like.dfy | the like service |
| `VideoUp` | video_up.dfy | the upload service, with the payload store as a map |

Modelling choices:

- The Spring Data repository of the like service is a map from id to video.
  A counter `nextId` stands in for the repository's id generator. `save` is
  an upsert: a video whose id is already stored replaces that record, and
  any other video is inserted under the next generated id. The `Video`
  entity and its id annotation are not part of this model.
- The video file manager of the upload service is a map from id to bytes.
  "Has video data" means the id is in the map. A flag records whether the
  upload handler has obtained the manager yet (lines 107-109).
- The caller's principal is a plain user-name argument. HTTP statuses are the
  `Status` datatype. `setVideoData`'s READY answer is `Success(Ready)`.

Properties of the code worth knowing:

- Likers are a `List<String>`. The model keeps the list and proves that like
  and unlike keep it duplicate-free.
- A rejected like or unlike answers BAD_REQUEST (400).
- The upload service allocates ids as `size + 1`. This is safe only while
  the keys are exactly `1..n`. The upload service never deletes, so that
  always holds (`VideoUp.RunPreservesValid`). `VideoUp.AddVideoCollidesOnGap`
  shows what happens when it does not hold.
- The like service's `addVideo` resets `likes` to 0 but keeps the submitted
  list of users. So the ledger invariant `likes == |users|` survives an add
  exactly when that list is empty (`VideoLike.AddVideoValid`).

## Model

| member | source | states |
|---|---|---|
| Seqs.RemoveFirst | assignments/Asgn2-VideoLike/src/main/java/org/magnum/mobilecloud/video/controller/VideoSvc.java:126 | `users.remove(user)` leaves the list as it is when the user is absent, and is one element shorter when present |
| Seqs.RemoveFirstAt | assignments/Asgn2-VideoLike/src/main/java/org/magnum/mobilecloud/video/controller/VideoSvc.java:126 | the element removed is the one at the user's first position; everything before and after it is kept in order |
| Seqs.RemoveFirstMultiset | assignments/Asgn2-VideoLike/src/main/java/org/magnum/mobilecloud/video/controller/VideoSvc.java:126 | removal takes exactly one copy of the user out of the list's contents |
| Seqs.AppendNoDup | assignments/Asgn2-VideoLike/src/main/java/org/magnum/mobilecloud/video/controller/VideoSvc.java:98-102 | appending a user who passed the `contains` check keeps the likers duplicate-free |
| Seqs.RemoveFirstNoDup | assignments/Asgn2-VideoLike/src/main/java/org/magnum/mobilecloud/video/controller/VideoSvc.java:126 | removing from a duplicate-free list keeps it duplicate-free and leaves no copy of the user |
| Seqs.RemoveFirstAfterAppend | assignments/Asgn2-VideoLike/src/main/java/org/magnum/mobilecloud/video/controller/VideoSvc.java:102-126 | `remove` undoes an `add` of a user who was absent |
| VideoLike.GetVideoList | assignments/Asgn2-VideoLike/src/main/java/org/magnum/mobilecloud/video/controller/VideoSvc.java:56-59 | every stored video is listed, and nothing else is |
| VideoLike.GetVideoListById | assignments/Asgn2-VideoLike/src/main/java/org/magnum/mobilecloud/video/controller/VideoSvc.java:56-59 | in a consistent repository the listed videos are exactly those stored under their own ids |
| VideoLike.AddVideo | assignments/Asgn2-VideoLike/src/main/java/org/magnum/mobilecloud/video/controller/VideoSvc.java:62-66 | the saved video has `likes` 0 and keeps its submitted likers and URL; a video whose id is already stored replaces that record under the same id, any other gets a fresh positive id; no other video changes |
| VideoLike.AddVideoValid | assignments/Asgn2-VideoLike/src/main/java/org/magnum/mobilecloud/video/controller/VideoSvc.java:62-66 | adding keeps the ledger invariant if and only if the submitted video has no likers |
| VideoLike.AddThenGet | assignments/Asgn2-VideoLike/src/main/java/org/magnum/mobilecloud/video/controller/VideoSvc.java:62-78 | a video just added is found under the id it was given, and every other lookup answers as before |
| VideoLike.GetVideoById | assignments/Asgn2-VideoLike/src/main/java/org/magnum/mobilecloud/video/controller/VideoSvc.java:69-78 | succeeds exactly for stored ids, with the stored video; otherwise not-found |
| VideoLike.GetUsersWhoLikedVideo | assignments/Asgn2-VideoLike/src/main/java/org/magnum/mobilecloud/video/controller/VideoSvc.java:136-145 | succeeds exactly for stored ids, with that video's likers; otherwise not-found |
| VideoLike.LikeVideo | assignments/Asgn2-VideoLike/src/main/java/org/magnum/mobilecloud/video/controller/VideoSvc.java:86-108 | NOT_FOUND and no change for an unknown id; BAD_REQUEST and no change for a user who already likes it; OK exactly otherwise, with the user appended, `likes` equal to the new length, and every other video unchanged |
| VideoLike.UnlikeVideo | assignments/Asgn2-VideoLike/src/main/java/org/magnum/mobilecloud/video/controller/VideoSvc.java:110-133 | NOT_FOUND and no change for an unknown id; BAD_REQUEST and no change for a user who does not like it; OK exactly otherwise, with one copy of the user removed, `likes` equal to the new length, and every other video unchanged |
| VideoLike.UnlikeRemovesFirst | assignments/Asgn2-VideoLike/src/main/java/org/magnum/mobilecloud/video/controller/VideoSvc.java:126-128 | a successful unlike removes the user's first entry |
| VideoLike.LikePreservesValid | assignments/Asgn2-VideoLike/src/main/java/org/magnum/mobilecloud/video/controller/VideoSvc.java:96-105 | a like keeps every video duplicate-free with `likes` equal to the number of likers |
| VideoLike.UnlikePreservesValid | assignments/Asgn2-VideoLike/src/main/java/org/magnum/mobilecloud/video/controller/VideoSvc.java:120-130 | an unlike keeps every video duplicate-free with `likes` equal to the number of likers |
| VideoLike.LikeKeepsLedger | assignments/Asgn2-VideoLike/src/main/java/org/magnum/mobilecloud/video/controller/VideoSvc.java:96-105 | a like keeps one video's ledger duplicate-free and counted, whatever the state of the other videos |
| VideoLike.UnlikeKeepsLedger | assignments/Asgn2-VideoLike/src/main/java/org/magnum/mobilecloud/video/controller/VideoSvc.java:120-130 | an unlike keeps one video's ledger duplicate-free and counted, whatever the state of the other videos |
| VideoLike.LikeTwice | assignments/Asgn2-VideoLike/src/main/java/org/magnum/mobilecloud/video/controller/VideoSvc.java:96-107 | liking twice yields OK, then BAD_REQUEST with nothing changed |
| VideoLike.AddThenRemoveLiker | assignments/Asgn2-VideoLike/src/main/java/org/magnum/mobilecloud/video/controller/VideoSvc.java:102-128 | adding a new liker and removing it gives the video back, apart from its recomputed count |
| VideoLike.LikeThenUnlike | assignments/Asgn2-VideoLike/src/main/java/org/magnum/mobilecloud/video/controller/VideoSvc.java:102-130 | a successful like followed by an unlike succeeds and restores the likers list, and the whole repository when the ledger was consistent |
| VideoLike.UnlikeTwice | assignments/Asgn2-VideoLike/src/main/java/org/magnum/mobilecloud/video/controller/VideoSvc.java:120-126 | after like and unlike by one user, a second unlike is BAD_REQUEST with nothing changed |
| VideoLike.LikeEachDistinct | assignments/Asgn2-VideoLike/src/main/java/org/magnum/mobilecloud/video/controller/VideoSvc.java:86-108 | distinct new users liking one video in turn all get OK, become the likers in order, and a consistent count grows by their number |
| VideoLike.LikeEachListed | assignments/Asgn2-VideoLike/src/main/java/org/magnum/mobilecloud/video/controller/VideoSvc.java:136-145 | after distinct new users each like a stored video, the service reports its likers as the old ones followed by those users |
| VideoLike.Step | assignments/Asgn2-VideoLike/src/main/java/org/magnum/mobilecloud/video/controller/VideoSvc.java:56-145 | no request other than an add changes which ids are stored |
| VideoLike.RunPreservesValid | assignments/Asgn2-VideoLike/src/main/java/org/magnum/mobilecloud/video/controller/VideoSvc.java:62-133 | any request sequence whose added videos come without likers keeps the repository consistent |
| VideoLike.RunFromEmpty | assignments/Asgn2-VideoLike/src/main/java/org/magnum/mobilecloud/video/controller/VideoSvc.java:62-133 | from an empty repository, any request sequence whose added videos come without likers leaves every ledger consistent |
| VideoLike.AliceAndBob | assignments/Asgn2-VideoLike/src/main/java/org/magnum/mobilecloud/video/controller/VideoSvc.java:62-145 | sample session: add, like, repeated like rejected, second user's like, unlike, and the likers list is `["bob"]` |
| Decimal.Digits | assignments/Asgn1-VideoUp/src/main/java/org/magnum/dataup/controller/VideoController.java:93 | the rendering `id + ""` of a non-negative id is a numeral without leading zeros, one character long exactly for ids below 10 |
| Decimal.ParseDigits | assignments/Asgn1-VideoUp/src/main/java/org/magnum/dataup/controller/VideoController.java:93 | the decimal rendering `id + ""` reads back as the id |
| Decimal.DigitsInjective | assignments/Asgn1-VideoUp/src/main/java/org/magnum/dataup/controller/VideoController.java:93 | distinct ids render differently |
| Decimal.DigitsParse | assignments/Asgn1-VideoUp/src/main/java/org/magnum/dataup/controller/VideoController.java:93 | every numeral without leading zeros is the rendering of its value |
| Text.Replace | assignments/Asgn1-VideoUp/src/main/java/org/magnum/dataup/controller/VideoController.java:93 | `replace` by a text of the target's length keeps the length, and replacing the target by itself changes nothing |
| Text.ReplaceNoOccurrence | assignments/Asgn1-VideoUp/src/main/java/org/magnum/dataup/controller/VideoController.java:93 | `replace` leaves a text in which the target occurs nowhere unchanged |
| Text.ReplaceOnce | assignments/Asgn1-VideoUp/src/main/java/org/magnum/dataup/controller/VideoController.java:93 | `replace` on a text in which the target occurs exactly once substitutes exactly that occurrence |
| Text.ReplaceAbsent | assignments/Asgn1-VideoUp/src/main/java/org/magnum/dataup/controller/VideoController.java:93 | `replace` leaves a text unchanged when the target's first character does not appear in it |
| Text.ReplaceSingle | assignments/Asgn1-VideoUp/src/main/java/org/magnum/dataup/controller/VideoController.java:93 | `replace` on a text holding the target once, with the target's first character appearing nowhere else, substitutes exactly that occurrence |
| VideoUp.DataUrlFromTemplate | assignments/Asgn1-VideoUp/src/main/java/org/magnum/dataup/controller/VideoController.java:93 | the host plus the path template with `{id}` replaced by the decimal id is `http://localhost:8080/video/<decimal id>/data` |
| VideoUp.BuildDataUrl | assignments/Asgn1-VideoUp/src/main/java/org/magnum/dataup/controller/VideoController.java:93 | the URL `addVideo` builds by template replacement is the data URL of the id |
| VideoUp.DataUrlRoundTrip | assignments/Asgn1-VideoUp/src/main/java/org/magnum/dataup/controller/VideoController.java:93 | the id can be read back from its data URL |
| VideoUp.ParseDataUrlIsDataUrl | assignments/Asgn1-VideoUp/src/main/java/org/magnum/dataup/controller/VideoController.java:93 | every URL of that shape is the data URL of the id it names |
| VideoUp.DataUrlInjective | assignments/Asgn1-VideoUp/src/main/java/org/magnum/dataup/controller/VideoController.java:86-93 | distinct ids get distinct data URLs |
| VideoUp.GetVideoList | assignments/Asgn1-VideoUp/src/main/java/org/magnum/dataup/controller/VideoController.java:54-57 | every stored video is listed, and nothing else is |
| VideoUp.GetVideoListExact | assignments/Asgn1-VideoUp/src/main/java/org/magnum/dataup/controller/VideoController.java:54-57 | in a consistent registry the list holds exactly the videos stored under their own ids, one per entry |
| VideoUp.DenseValuesCount | assignments/Asgn1-VideoUp/src/main/java/org/magnum/dataup/controller/VideoController.java:56 | the value collection of a map with dense ids has one video per entry |
| VideoUp.AddVideo | assignments/Asgn1-VideoUp/src/main/java/org/magnum/dataup/controller/VideoController.java:78-100 | the new video's id is the number of stored videos plus one, so positive; its URL is that id's data URL; its other fields are as submitted; the keys grow by that id alone; every other entry and all payloads are untouched |
| VideoUp.AddVideoFresh | assignments/Asgn1-VideoUp/src/main/java/org/magnum/dataup/controller/VideoController.java:86-95 | with keys `1..n`, the id `n+1` is unused, the keys become `1..n+1`, and earlier entries are unchanged |
| VideoUp.DenseExtend | assignments/Asgn1-VideoUp/src/main/java/org/magnum/dataup/controller/VideoController.java:86-95 | storing under `size + 1` extends keys `1..n` to `1..n+1` |
| VideoUp.AddVideoCollidesOnGap | assignments/Asgn1-VideoUp/src/main/java/org/magnum/dataup/controller/VideoController.java:86 | when `size + 1` is already a key, the add replaces that video and the map does not grow |
| VideoUp.AddVideoValid | assignments/Asgn1-VideoUp/src/main/java/org/magnum/dataup/controller/VideoController.java:78-100 | adding keeps ids dense, each video's id and URL matching its key, and payloads on stored videos only |
| VideoUp.SetVideoData | assignments/Asgn1-VideoUp/src/main/java/org/magnum/dataup/controller/VideoController.java:102-119 | NOT_FOUND with payloads unchanged for an unknown id; READY with the given bytes as that video's payload otherwise; other payloads and the video map never change |
| VideoUp.GetData | assignments/Asgn1-VideoUp/src/main/java/org/magnum/dataup/controller/VideoController.java:121-133 | succeeds exactly when the video and its payload exist, with exactly the stored bytes; otherwise NOT_FOUND |
| VideoUp.GetDataAsWritten | assignments/Asgn1-VideoUp/src/main/java/org/magnum/dataup/controller/VideoController.java:121-133 | fails with a server error exactly for a stored video while the file manager is not yet obtained; otherwise agrees with `GetData` |
| VideoUp.DownloadBeforeAnyUpload | assignments/Asgn1-VideoUp/src/main/java/org/magnum/dataup/controller/VideoController.java:107-125 | after an add and no upload, the handler as written answers a server error where NOT_FOUND is meant |
| VideoUp.UploadThenDownload | assignments/Asgn1-VideoUp/src/main/java/org/magnum/dataup/controller/VideoController.java:111-126 | an upload to a stored video followed by a download returns exactly the uploaded bytes |
| VideoUp.UploadElsewhere | assignments/Asgn1-VideoUp/src/main/java/org/magnum/dataup/controller/VideoController.java:111-114 | an upload to one id does not change another id's download |
| VideoUp.SetVideoDataValid | assignments/Asgn1-VideoUp/src/main/java/org/magnum/dataup/controller/VideoController.java:102-119 | uploading keeps the registry consistent and creates no payload without a video |
| VideoUp.Step | assignments/Asgn1-VideoUp/src/main/java/org/magnum/dataup/controller/VideoController.java:54-133 | no request other than an add changes the video map |
| VideoUp.RunPreservesValid | assignments/Asgn1-VideoUp/src/main/java/org/magnum/dataup/controller/VideoController.java:78-133 | any request sequence keeps the registry consistent, and each add adds exactly one entry |
| VideoUp.RunFromEmpty | assignments/Asgn1-VideoUp/src/main/java/org/magnum/dataup/controller/VideoController.java:86-95 | from server start, the ids in use are exactly 1 up to the number of adds |

## Findings

| source | as written | input that shows it | evidently intended | confidence | as-written member | corrected member |
|---|---|---|---|---|---|---|
| assignments/Asgn1-VideoUp/src/main/java/org/magnum/dataup/controller/VideoController.java:121-133 | `getData` calls `videoDataMgr.hasVideoData` for a stored video. The manager field is assigned only inside `setVideoData` (lines 107-109), so it is still `null` until the first upload | add a video, then `GET /video/1/data` before any upload: a `NullPointerException` gives a server error | NOT_FOUND, because the video has no data yet | high; not executed | VideoUp.GetDataAsWritten, VideoUp.DownloadBeforeAnyUpload | VideoUp.GetData |

## Left out

- The title and duration searches (`findByTitle` at VideoSvc.java:80-84 and `findByDurationLessThan` at VideoSvc.java:147-151) are left out. They pass through to repository queries that the framework derives from method names.
- `VideoFileManager` file I/O and stream copying are left out. The manager is a map from id to bytes, and `IOException` failures are not modelled.
- Spring/HTTP plumbing is left out: request mapping, JSON binding, `HttpServletResponse`, principal resolution, and the `video/mp4` content type `getData` produces.
- Concurrency is left out. The handlers have no locking, and the model runs one request at a time.
- Only four `Video` fields are modelled: `id`, `dataUrl`, `likes` and `users`. The two `Video` classes are not part of this model.
- The repository's id generation is a counter. The JPA annotations that drive it are not part of this model.
- VideoLike.AddVideo: treats any submitted id that is not stored (including an unset id) as new and gives the video the next generated id. Whether the persistence provider does so for every such id depends on the `Video` mapping, which is not part of this model.
- VideoLike.GetVideoList and VideoUp.GetVideoList return a set. The order of the Java collection they return is not modelled, and two equal videos under different ids would collapse; the latter cannot happen in a consistent state (`VideoUp.GetVideoListExact`, `VideoLike.GetVideoListById`).
- VideoUp.AddVideo: ids are unbounded integers. The Java `int` sum `videos.size() + 1` would wrap past 2^31 - 1 stored videos, which is not modelled.
- VideoUp.BuildDataUrl: takes a non-negative id. `Long.toString` of a negative id (with a minus sign) is not modelled, because allocated ids are positive.
- VideoLike.GetVideoById and VideoLike.GetUsersWhoLikedVideo: the code throws `EntityNotFoundException` for an unknown id (VideoSvc.java:74 and 141); the model answers `Failure(NotFound)`. Which HTTP status the framework gives that exception (with no handler registered, a server error) is not modelled.
