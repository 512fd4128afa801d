/**
 The upload service (`VideoController`): an in-memory map from id to video,
 where ids are allocated as the map's size plus one, together with the
 store of uploaded payloads kept by the video file manager, modelled as a
 map from id to bytes.
 */
module VideoUp {
  import opened Common
  import Decimal
  import Text

  /** Base URL of the local server. */
  const Host := "http://localhost:8080"

  /** The placeholder for the id in a path template. */
  const IdPlaceholder := "{id}"

  /** Path template of a video's data, `/video/{id}/data`. */
  const DataPath := "/video/" + IdPlaceholder + "/data"

  /** The data URL of a video: the host, then `/video/`, the decimal id and `/data`. */
  function DataUrl(id: nat): string
  {
    Host + "/video/" + Decimal.Digits(id) + "/data"
  }

  /**
   The URL the controller builds, the host followed by the data path with
   the placeholder replaced by the decimal id, is the data URL.
   */
  lemma DataUrlFromTemplate(id: nat)
    ensures Host + Text.Replace(DataPath, IdPlaceholder, Decimal.Digits(id)) == DataUrl(id)
  {
    Text.ReplaceSingle("/video/", IdPlaceholder, "/data", Decimal.Digits(id));
  }

  /** The URL the controller builds for a new video's data. */
  function BuildDataUrl(id: nat): (url: string)
    ensures url == DataUrl(id)
  {
    DataUrlFromTemplate(id);
    Host + Text.Replace(DataPath, IdPlaceholder, Decimal.Digits(id))
  }

  /** The id a data URL designates, if it is one. */
  function ParseDataUrl(url: string): Option<nat>
  {
    var prefix := Host + "/video/";
    var suffix := "/data";
    if |url| >= |prefix| + |suffix| && url[..|prefix|] == prefix && url[|url| - |suffix|..] == suffix then
      var numeral := url[|prefix|..|url| - |suffix|];
      if Decimal.Canonical(numeral) then Some(Decimal.Parse(numeral)) else None
    else
      None
  }

  /** A data URL designates the id it was made from. */
  lemma DataUrlRoundTrip(id: nat)
    ensures ParseDataUrl(DataUrl(id)) == Some(id)
  {
    var url := DataUrl(id);
    var prefix := Host + "/video/";
    var d := Decimal.Digits(id);
    assert url[..|prefix|] == prefix;
    assert url[|url| - 5..] == "/data";
    assert url[|prefix|..|url| - 5] == d;
    Decimal.ParseDigits(id);
  }

  /** Every URL that designates an id is that id's data URL. */
  lemma ParseDataUrlIsDataUrl(url: string)
    requires ParseDataUrl(url).Some?
    ensures DataUrl(ParseDataUrl(url).value) == url
  {
    var prefix := Host + "/video/";
    var numeral := url[|prefix|..|url| - 5];
    Decimal.DigitsParse(numeral);
    assert url == url[..|prefix|] + numeral + url[|url| - 5..];
  }

  /** Distinct videos get distinct data URLs. */
  lemma DataUrlInjective(a: nat, b: nat)
    requires DataUrl(a) == DataUrl(b)
    ensures a == b
  {
    DataUrlRoundTrip(a);
    DataUrlRoundTrip(b);
  }

  /** State reported after a successful upload. */
  datatype VideoState = Ready

  /**
   The controller's state: the stored videos, the payloads the file manager
   holds, and whether the file manager has been obtained yet (the handler
   for uploads obtains it on first use).
   */
  datatype Registry = Registry(videos: map<VideoId, Video>, blobs: map<VideoId, seq<byte>>, managerReady: bool)

  /** The controller when the server starts. */
  const Empty := Registry(map[], map[], false)

  /** The keys are exactly 1 through the number of entries. */
  predicate Dense(m: map<VideoId, Video>)
  {
    && (forall k :: k in m ==> 1 <= k <= |m|)
    && (forall k :: 1 <= k <= |m| ==> k in m)
  }

  /**
   Ids are dense, every stored video carries its own id and data URL, and
   payloads exist only for stored videos.
   */
  predicate Valid(reg: Registry)
  {
    && Dense(reg.videos)
    && (forall k :: k in reg.videos ==>
          k >= 1 && reg.videos[k].id == k && reg.videos[k].dataUrl == DataUrl(k))
    && reg.blobs.Keys <= reg.videos.Keys
  }

  lemma EmptyValid()
    ensures Valid(Empty)
  {
  }

  /** `getVideoList`: every stored video. */
  function GetVideoList(reg: Registry): (r: set<Video>)
    ensures forall k :: k in reg.videos ==> reg.videos[k] in r
    ensures forall v :: v in r ==> v in reg.videos.Values
  {
    set k | k in reg.videos :: reg.videos[k]
  }

  /**
   In a consistent controller, the list holds exactly the videos found under
   their own ids, one per stored entry.
   */
  lemma GetVideoListExact(reg: Registry)
    requires Valid(reg)
    ensures forall v :: v in GetVideoList(reg) <==> v.id in reg.videos && reg.videos[v.id] == v
    ensures |GetVideoList(reg)| == |reg.videos|
  {
    forall v | v in GetVideoList(reg)
      ensures v.id in reg.videos && reg.videos[v.id] == v
    {
      var k :| k in reg.videos && reg.videos[k] == v;
    }
    DenseValuesCount(reg.videos);
  }

  /** Videos stored under their own, dense ids are as many as the entries holding them. */
  lemma {:induction false} DenseValuesCount(m: map<VideoId, Video>)
    requires Dense(m)
    requires forall k :: k in m ==> m[k].id == k
    ensures |set k | k in m :: m[k]| == |m|
    decreases |m|
  {
    var n := |m|;
    if n > 0 {
      assert n in m;
      var m' := m - {n};
      assert m'.Keys == m.Keys - {n};
      assert |m'| == n - 1;
      assert Dense(m') by {
        forall k | 1 <= k <= |m'|
          ensures k in m'
        {
          assert k in m;
        }
      }
      DenseValuesCount(m');
      var s := set k | k in m :: m[k];
      var s' := set k | k in m' :: m'[k];
      forall x | x in s
        ensures x in s' + {m[n]}
      {
        var j :| j in m && m[j] == x;
        if j != n {
          assert j in m' && m'[j] == x;
        }
      }
      assert s == s' + {m[n]};
      assert m[n] !in s';
    } else {
      assert forall k :: k !in m;
    }
  }

  /**
   `addVideo`: the submitted video gets the id one above the number of
   stored videos and the data URL of that id, and is stored under it; its
   other fields are kept as submitted.
   */
  function AddVideo(reg: Registry, v: Video): (out: (Video, Registry))
    ensures out.0.id == |reg.videos| + 1 >= 1
    ensures out.0.dataUrl == DataUrl(out.0.id)
    ensures out.0.likes == v.likes && out.0.users == v.users
    ensures out.1.videos.Keys == reg.videos.Keys + {out.0.id}
    ensures out.1.videos[out.0.id] == out.0
    ensures forall k :: k in reg.videos && k != out.0.id ==> out.1.videos[k] == reg.videos[k]
    ensures out.1.blobs == reg.blobs && out.1.managerReady == reg.managerReady
  {
    var id := |reg.videos| + 1;
    var saved := v.(id := id, dataUrl := BuildDataUrl(id));
    (saved, reg.(videos := reg.videos[id := saved]))
  }

  /**
   With dense ids, the new id is not yet taken, the keys grow by exactly
   that id, they stay dense, and every earlier entry is untouched.
   */
  lemma AddVideoFresh(reg: Registry, v: Video)
    requires Dense(reg.videos)
    ensures var (saved, reg') := AddVideo(reg, v);
      && saved.id !in reg.videos
      && reg'.videos.Keys == reg.videos.Keys + {saved.id}
      && |reg'.videos| == |reg.videos| + 1
      && Dense(reg'.videos)
      && forall k :: k in reg.videos ==> reg'.videos[k] == reg.videos[k]
  {
    var (saved, reg') := AddVideo(reg, v);
    assert reg'.videos == reg.videos[saved.id := saved];
    DenseExtend(reg.videos, saved);
  }

  /** Storing under the size plus one extends dense keys by exactly that key. */
  lemma DenseExtend(m: map<VideoId, Video>, x: Video)
    requires Dense(m)
    ensures |m| + 1 !in m
    ensures |m[|m| + 1 := x]| == |m| + 1
    ensures Dense(m[|m| + 1 := x])
  {
    var n := |m|;
    assert n + 1 !in m;
    var m' := m[n + 1 := x];
    assert |m'| == n + 1;
    forall k | k in m'
      ensures 1 <= k <= n + 1
    {
      if k != n + 1 {
        assert k in m;
      }
    }
    forall k | 1 <= k <= n + 1
      ensures k in m'
    {
      if k != n + 1 {
        assert k in m;
      }
    }
  }

  /**
   Without dense ids, the size-based id can land on a stored video: that
   video is replaced and the number of videos does not grow.
   */
  lemma AddVideoCollidesOnGap(reg: Registry, v: Video)
    requires |reg.videos| + 1 in reg.videos
    ensures var (saved, reg') := AddVideo(reg, v);
      saved.id in reg.videos && reg'.videos.Keys == reg.videos.Keys && |reg'.videos| == |reg.videos|
  {
  }

  /** Adding a video keeps the controller consistent. */
  lemma AddVideoValid(reg: Registry, v: Video)
    requires Valid(reg)
    ensures Valid(AddVideo(reg, v).1)
  {
    AddVideoFresh(reg, v);
    var (saved, reg') := AddVideo(reg, v);
    forall k | k in reg'.videos
      ensures k >= 1 && reg'.videos[k].id == k && reg'.videos[k].dataUrl == DataUrl(k)
    {
      if k != saved.id {
        assert k in reg.videos;
      }
    }
    assert reg'.blobs.Keys <= reg'.videos.Keys;
  }

  /**
   `setVideoData`: obtains the file manager if needed; for a stored video,
   its payload becomes the given bytes and the answer is READY; otherwise
   not-found. The video map never changes.
   */
  function SetVideoData(reg: Registry, id: VideoId, data: seq<byte>): (out: (Result<VideoState>, Registry))
    ensures out.1.videos == reg.videos && out.1.managerReady
    ensures id !in reg.videos ==> out.0 == Failure(NotFound) && out.1.blobs == reg.blobs
    ensures id in reg.videos ==>
      && out.0 == Success(Ready)
      && out.1.blobs.Keys == reg.blobs.Keys + {id}
      && out.1.blobs[id] == data
    ensures forall k :: k in reg.blobs && k != id ==> k in out.1.blobs && out.1.blobs[k] == reg.blobs[k]
  {
    var reg1 := reg.(managerReady := true);
    if id in reg.videos then
      (Success(Ready), reg1.(blobs := reg.blobs[id := data]))
    else
      (Failure(NotFound), reg1)
  }

  /**
   `getData` as intended: the payload of a stored video that has one, and
   not-found when the video is unknown or has no payload yet.
   */
  function GetData(reg: Registry, id: VideoId): (r: Result<seq<byte>>)
    ensures r.Success? <==> id in reg.videos && id in reg.blobs
    ensures r.Success? ==> r.value == reg.blobs[id]
    ensures r.Failure? ==> r.status == NotFound
  {
    if id in reg.videos && id in reg.blobs then Success(reg.blobs[id]) else Failure(NotFound)
  }

  /**
   `getData` as written: for a stored video it asks the file manager, which
   is obtained only by the upload handler; before any upload the manager is
   missing and the request fails with a server error.
   */
  function GetDataAsWritten(reg: Registry, id: VideoId): (r: Result<seq<byte>>)
    ensures r == Failure(ServerError) <==> id in reg.videos && !reg.managerReady
    ensures reg.managerReady || id !in reg.videos ==> r == GetData(reg, id)
  {
    if id in reg.videos then
      if !reg.managerReady then Failure(ServerError)
      else if id in reg.blobs then Success(reg.blobs[id])
      else Failure(NotFound)
    else
      Failure(NotFound)
  }

  /**
   Downloading a freshly added video before anything was uploaded: the
   handler as written fails with a server error where not-found is meant.
   */
  lemma DownloadBeforeAnyUpload(v: Video)
    ensures var (saved, reg) := AddVideo(Empty, v);
      && GetDataAsWritten(reg, saved.id) == Failure(ServerError)
      && GetData(reg, saved.id) == Failure(NotFound)
  {
  }

  /** Uploading to a stored video and then downloading it gives back exactly the uploaded bytes. */
  lemma UploadThenDownload(reg: Registry, id: VideoId, data: seq<byte>)
    requires id in reg.videos
    ensures var reg' := SetVideoData(reg, id, data).1;
      GetData(reg', id) == Success(data) && GetDataAsWritten(reg', id) == Success(data)
  {
  }

  /** An upload to one video does not change what another video's download gives. */
  lemma UploadElsewhere(reg: Registry, id: VideoId, other: VideoId, data: seq<byte>)
    requires other != id
    ensures GetData(SetVideoData(reg, id, data).1, other) == GetData(reg, other)
  {
  }

  /** Uploading keeps the controller consistent. */
  lemma SetVideoDataValid(reg: Registry, id: VideoId, data: seq<byte>)
    requires Valid(reg)
    ensures Valid(SetVideoData(reg, id, data).1)
  {
  }

  /** A request that reaches the controller. */
  datatype Request =
    | List
    | Add(video: Video)
    | Upload(id: VideoId, data: seq<byte>)
    | Download(id: VideoId)

  /** The controller after one request; only an added video changes the video map. */
  function Step(reg: Registry, req: Request): (reg': Registry)
    ensures !req.Add? ==> reg'.videos == reg.videos
  {
    match req
    case Add(v) => AddVideo(reg, v).1
    case Upload(id, data) => SetVideoData(reg, id, data).1
    case _ => reg
  }

  function Run(reg: Registry, reqs: seq<Request>): Registry
    decreases |reqs|
  {
    if reqs == [] then reg else Run(Step(reg, reqs[0]), reqs[1..])
  }

  /** Number of add requests in a sequence. */
  function Adds(reqs: seq<Request>): nat
    decreases |reqs|
  {
    if reqs == [] then 0 else (if reqs[0].Add? then 1 else 0) + Adds(reqs[1..])
  }

  /**
   Every sequence of requests keeps the controller consistent, and each add
   request contributes exactly one new entry.
   */
  lemma {:induction false} RunPreservesValid(reg: Registry, reqs: seq<Request>)
    requires Valid(reg)
    ensures Valid(Run(reg, reqs))
    ensures |Run(reg, reqs).videos| == |reg.videos| + Adds(reqs)
    decreases |reqs|
  {
    if reqs != [] {
      match reqs[0] {
        case Add(v) => AddVideoValid(reg, v); AddVideoFresh(reg, v);
        case Upload(id, data) => SetVideoDataValid(reg, id, data);
        case _ =>
      }
      RunPreservesValid(Step(reg, reqs[0]), reqs[1..]);
    }
  }

  /** From a fresh start, the ids in use are exactly 1 through the number of add requests. */
  lemma RunFromEmpty(reqs: seq<Request>)
    ensures forall k :: k in Run(Empty, reqs).videos <==> 1 <= k <= Adds(reqs)
  {
    EmptyValid();
    RunPreservesValid(Empty, reqs);
  }
}
