/**
 The like service (`VideoSvc`): a repository of videos keyed by id, on which
 users like and unlike videos. Each video keeps the list of users who like
 it and a `likes` count recomputed from that list on every change.
 */
module VideoLike {
  import opened Common
  import opened Seqs

  /**
   The video repository: the stored videos by id, and the next value of the
   identifier generator the repository uses when a new video is saved.
   */
  datatype Repository = Repository(videos: map<VideoId, Video>, nextId: VideoId)

  /** The repository before any video is added. */
  const Empty := Repository(map[], 1)

  /** One video's like ledger: nobody likes it twice, and `likes` counts the likers. */
  predicate LedgerOk(v: Video)
  {
    NoDup(v.users) && v.likes == |v.users|
  }

  /**
   Every stored video sits under its own id, below the next generated id,
   with a consistent like ledger.
   */
  predicate Valid(repo: Repository)
  {
    && repo.nextId >= 1
    && forall k :: k in repo.videos ==>
         1 <= k < repo.nextId && repo.videos[k].id == k && LedgerOk(repo.videos[k])
  }

  lemma EmptyValid()
    ensures Valid(Empty)
  {
  }

  /** `getVideoList`: every stored video. */
  function GetVideoList(repo: Repository): (r: set<Video>)
    ensures forall k :: k in repo.videos ==> repo.videos[k] in r
    ensures forall v :: v in r ==> v in repo.videos.Values
  {
    set k | k in repo.videos :: repo.videos[k]
  }

  /** In a consistent repository, the list holds exactly the videos found under their own ids. */
  lemma GetVideoListById(repo: Repository)
    requires Valid(repo)
    ensures forall v :: v in GetVideoList(repo) <==> v.id in repo.videos && repo.videos[v.id] == v
  {
    forall v | v in GetVideoList(repo)
      ensures v.id in repo.videos && repo.videos[v.id] == v
    {
      var k :| k in repo.videos && repo.videos[k] == v;
    }
  }

  /**
   `addVideo`: the submitted video is saved with a like count of zero; its
   other fields are kept as submitted. Saving is an upsert: a video whose id
   is already stored replaces that record, and any other video is inserted
   under the next generated id.
   */
  function AddVideo(repo: Repository, v: Video): (out: (Video, Repository))
    ensures out.0.likes == 0
    ensures out.0.users == v.users && out.0.dataUrl == v.dataUrl
    ensures out.1.videos.Keys == repo.videos.Keys + {out.0.id}
    ensures out.1.videos[out.0.id] == out.0
    ensures v.id in repo.videos ==> out.0.id == v.id && out.1.nextId == repo.nextId
    ensures v.id !in repo.videos && Valid(repo) ==> out.0.id !in repo.videos && out.0.id >= 1
    ensures forall k :: k in repo.videos && k != out.0.id ==> out.1.videos[k] == repo.videos[k]
  {
    if v.id in repo.videos then
      var saved := v.(likes := 0);
      (saved, repo.(videos := repo.videos[v.id := saved]))
    else
      var saved := v.(id := repo.nextId, likes := 0);
      (saved, Repository(repo.videos[repo.nextId := saved], repo.nextId + 1))
  }

  /**
   Adding a video keeps the repository consistent exactly when the submitted
   video has no likers: its count is reset to zero but its list is kept.
   */
  lemma AddVideoValid(repo: Repository, v: Video)
    requires Valid(repo)
    ensures Valid(AddVideo(repo, v).1) <==> v.users == []
  {
    var (saved, repo') := AddVideo(repo, v);
    if v.users != [] {
      assert saved.id in repo'.videos && !LedgerOk(repo'.videos[saved.id]);
    }
  }

  /** `getVideoById`: the stored video, or not-found for an unknown id. */
  function GetVideoById(repo: Repository, id: VideoId): (r: Result<Video>)
    ensures r.Success? <==> id in repo.videos
    ensures r.Success? ==> r.value == repo.videos[id]
    ensures r.Failure? ==> r.status == NotFound
  {
    if id in repo.videos then Success(repo.videos[id]) else Failure(NotFound)
  }

  /** `getUsersWhoLikedVideo`: the likers of a stored video, or not-found for an unknown id. */
  function GetUsersWhoLikedVideo(repo: Repository, id: VideoId): (r: Result<seq<string>>)
    ensures r.Success? <==> id in repo.videos
    ensures r.Success? ==> r.value == repo.videos[id].users
    ensures r.Failure? ==> r.status == NotFound
  {
    if id in repo.videos then Success(repo.videos[id].users) else Failure(NotFound)
  }

  /** A video just added is found under the id it was given, and every other stored video is still found. */
  lemma AddThenGet(repo: Repository, v: Video, other: VideoId)
    ensures var (saved, repo') := AddVideo(repo, v);
      && GetVideoById(repo', saved.id) == Success(saved)
      && (other != saved.id ==> GetVideoById(repo', other) == GetVideoById(repo, other))
  {
  }

  /** The video with `user` appended to its likers and the count recomputed. */
  function AddLiker(v: Video, user: string): Video
  {
    var users := v.users + [user];
    v.(users := users, likes := |users|)
  }

  /** The video with the first entry of `user` removed from its likers and the count recomputed. */
  function RemoveLiker(v: Video, user: string): Video
  {
    var users := RemoveFirst(v.users, user);
    v.(users := users, likes := |users|)
  }

  /**
   `likeVideo`: not-found for an unknown id; bad-request, changing nothing,
   when the user already likes the video; otherwise the user is appended to
   the likers, the count becomes the new number of likers, and the video is
   saved back.
   */
  function LikeVideo(repo: Repository, id: VideoId, user: string): (out: (Status, Repository))
    ensures id !in repo.videos ==> out == (NotFound, repo)
    ensures id in repo.videos && user in repo.videos[id].users ==> out == (BadRequest, repo)
    ensures out.0 == Ok <==> id in repo.videos && user !in repo.videos[id].users
    ensures out.0 == Ok ==>
      && out.1.nextId == repo.nextId
      && out.1.videos.Keys == repo.videos.Keys
      && out.1.videos[id].users == repo.videos[id].users + [user]
      && out.1.videos[id].likes == |out.1.videos[id].users|
      && out.1.videos[id].id == repo.videos[id].id
      && out.1.videos[id].dataUrl == repo.videos[id].dataUrl
    ensures forall k :: k in repo.videos && k != id ==> out.1.videos[k] == repo.videos[k]
  {
    if id !in repo.videos then (NotFound, repo)
    else
      var v := repo.videos[id];
      if user in v.users then (BadRequest, repo)
      else
        (Ok, repo.(videos := repo.videos[id := AddLiker(v, user)]))
  }

  /**
   `unlikeVideo`: not-found for an unknown id; bad-request, changing
   nothing, when the user does not like the video; otherwise the user's
   first entry is removed from the likers, the count becomes the new number
   of likers, and the video is saved back.
   */
  function UnlikeVideo(repo: Repository, id: VideoId, user: string): (out: (Status, Repository))
    ensures id !in repo.videos ==> out == (NotFound, repo)
    ensures id in repo.videos && user !in repo.videos[id].users ==> out == (BadRequest, repo)
    ensures out.0 == Ok <==> id in repo.videos && user in repo.videos[id].users
    ensures out.0 == Ok ==>
      && out.1.nextId == repo.nextId
      && out.1.videos.Keys == repo.videos.Keys
      && multiset(out.1.videos[id].users) == multiset(repo.videos[id].users) - multiset{user}
      && out.1.videos[id].likes == |out.1.videos[id].users| == |repo.videos[id].users| - 1
      && out.1.videos[id].id == repo.videos[id].id
      && out.1.videos[id].dataUrl == repo.videos[id].dataUrl
    ensures forall k :: k in repo.videos && k != id ==> out.1.videos[k] == repo.videos[k]
  {
    if id !in repo.videos then (NotFound, repo)
    else
      var v := repo.videos[id];
      if user !in v.users then (BadRequest, repo)
      else
        RemoveFirstMultiset(v.users, user);
        (Ok, repo.(videos := repo.videos[id := RemoveLiker(v, user)]))
  }

  /** A successful unlike removes the user's first entry in the likers, and only that entry. */
  lemma UnlikeRemovesFirst(repo: Repository, id: VideoId, user: string)
    requires UnlikeVideo(repo, id, user).0 == Ok
    ensures var users := repo.videos[id].users; var i := IndexOf(users, user);
      UnlikeVideo(repo, id, user).1.videos[id].users == users[..i] + users[i + 1..]
  {
    RemoveFirstAt(repo.videos[id].users, user);
  }

  /** Liking and unliking keep every video's ledger consistent. */
  lemma LikePreservesValid(repo: Repository, id: VideoId, user: string)
    requires Valid(repo)
    ensures Valid(LikeVideo(repo, id, user).1)
  {
    if LikeVideo(repo, id, user).0 == Ok {
      AppendNoDup(repo.videos[id].users, user);
    }
  }

  lemma UnlikePreservesValid(repo: Repository, id: VideoId, user: string)
    requires Valid(repo)
    ensures Valid(UnlikeVideo(repo, id, user).1)
  {
    if UnlikeVideo(repo, id, user).0 == Ok {
      RemoveFirstNoDup(repo.videos[id].users, user);
    }
  }

  /** Liking and unliking keep one video's ledger consistent, whatever the other videos hold. */
  lemma LikeKeepsLedger(repo: Repository, id: VideoId, user: string)
    requires id in repo.videos && LedgerOk(repo.videos[id])
    ensures LedgerOk(LikeVideo(repo, id, user).1.videos[id])
  {
    if LikeVideo(repo, id, user).0 == Ok {
      AppendNoDup(repo.videos[id].users, user);
    }
  }

  lemma UnlikeKeepsLedger(repo: Repository, id: VideoId, user: string)
    requires id in repo.videos && LedgerOk(repo.videos[id])
    ensures LedgerOk(UnlikeVideo(repo, id, user).1.videos[id])
  {
    if UnlikeVideo(repo, id, user).0 == Ok {
      RemoveFirstNoDup(repo.videos[id].users, user);
    }
  }

  /** Liking twice in a row: the first like succeeds, the second is rejected and changes nothing. */
  lemma LikeTwice(repo: Repository, id: VideoId, user: string)
    requires id in repo.videos && user !in repo.videos[id].users
    ensures var (s1, repo1) := LikeVideo(repo, id, user);
      s1 == Ok && LikeVideo(repo1, id, user) == (BadRequest, repo1)
  {
  }

  /** Adding a new liker and then removing it gives the video back, up to its count. */
  lemma AddThenRemoveLiker(v: Video, user: string)
    requires user !in v.users
    ensures RemoveLiker(AddLiker(v, user), user) == v.(likes := |v.users|)
  {
    RemoveFirstAfterAppend(v.users, user);
  }

  /**
   A successful like undone by an unlike of the same user restores the
   likers list, and the whole repository when the video's ledger was
   consistent.
   */
  lemma LikeThenUnlike(repo: Repository, id: VideoId, user: string)
    requires LikeVideo(repo, id, user).0 == Ok
    ensures var repo1 := LikeVideo(repo, id, user).1;
      && UnlikeVideo(repo1, id, user).0 == Ok
      && UnlikeVideo(repo1, id, user).1.videos[id].users == repo.videos[id].users
      && (LedgerOk(repo.videos[id]) ==> UnlikeVideo(repo1, id, user).1 == repo)
  {
    var v := repo.videos[id];
    var repo1 := repo.(videos := repo.videos[id := AddLiker(v, user)]);
    assert LikeVideo(repo, id, user).1 == repo1;
    AddThenRemoveLiker(v, user);
    var v2 := v.(likes := |v.users|);
    var repo2 := repo.(videos := repo.videos[id := v2]);
    assert user in repo1.videos[id].users;
    assert repo1.videos[id := v2] == repo2.videos;
    assert UnlikeVideo(repo1, id, user) == (Ok, repo2);
    if LedgerOk(v) {
      assert repo2.videos == repo.videos;
    }
  }

  /** After like, unlike, unlike by one user, the second unlike is rejected and changes nothing. */
  lemma UnlikeTwice(repo: Repository, id: VideoId, user: string)
    requires LikeVideo(repo, id, user).0 == Ok
    ensures var repo2 := UnlikeVideo(LikeVideo(repo, id, user).1, id, user).1;
      UnlikeVideo(repo2, id, user) == (BadRequest, repo2)
  {
    LikeThenUnlike(repo, id, user);
  }

  /** Likes by a sequence of users, in order: each like's outcome and the final repository. */
  function LikeEach(repo: Repository, id: VideoId, users: seq<string>): (out: (seq<Status>, Repository))
    ensures |out.0| == |users|
    decreases |users|
  {
    if users == [] then ([], repo)
    else
      var (s, repo1) := LikeVideo(repo, id, users[0]);
      var (rest, repo2) := LikeEach(repo1, id, users[1..]);
      ([s] + rest, repo2)
  }

  /**
   When distinct users who do not yet like a video each like it, every like
   succeeds, the likers become the old likers followed by those users, and
   a consistent count grows by their number.
   */
  lemma {:induction false} LikeEachDistinct(repo: Repository, id: VideoId, users: seq<string>)
    requires id in repo.videos
    requires NoDup(users)
    requires forall u :: u in users ==> u !in repo.videos[id].users
    ensures var (statuses, repo') := LikeEach(repo, id, users);
      && (forall i :: 0 <= i < |statuses| ==> statuses[i] == Ok)
      && id in repo'.videos
      && repo'.videos[id].users == repo.videos[id].users + users
      && (LedgerOk(repo.videos[id]) ==> LedgerOk(repo'.videos[id]))
    decreases |users|
  {
    if users != [] {
      var u := users[0];
      var repo1 := LikeVideo(repo, id, u).1;
      assert repo1.videos[id].users == repo.videos[id].users + [u];
      forall w | w in users[1..]
        ensures w !in repo1.videos[id].users
      {
        assert w in users && w != u;
      }
      LikeEachDistinct(repo1, id, users[1..]);
      assert repo.videos[id].users + [u] + users[1..] == repo.videos[id].users + users;
      if LedgerOk(repo.videos[id]) {
        AppendNoDup(repo.videos[id].users, u);
      }
    }
  }

  /**
   After distinct new users each like a stored video, the video's likers, as
   the service reports them, are the old likers followed by those users.
   */
  lemma LikeEachListed(repo: Repository, id: VideoId, users: seq<string>)
    requires id in repo.videos
    requires NoDup(users)
    requires forall u :: u in users ==> u !in repo.videos[id].users
    ensures GetUsersWhoLikedVideo(LikeEach(repo, id, users).1, id) == Success(repo.videos[id].users + users)
  {
    LikeEachDistinct(repo, id, users);
  }

  /** A request that reaches the service. */
  datatype Request =
    | List
    | Add(video: Video)
    | Get(id: VideoId)
    | Like(id: VideoId, user: string)
    | Unlike(id: VideoId, user: string)
    | LikedBy(id: VideoId)

  /** The repository after one request; read-only requests leave it as it is. */
  function Step(repo: Repository, req: Request): (repo': Repository)
    ensures !req.Add? ==> repo'.videos.Keys == repo.videos.Keys
  {
    match req
    case Add(v) => AddVideo(repo, v).1
    case Like(id, user) => LikeVideo(repo, id, user).1
    case Unlike(id, user) => UnlikeVideo(repo, id, user).1
    case _ => repo
  }

  function Run(repo: Repository, reqs: seq<Request>): Repository
    decreases |reqs|
  {
    if reqs == [] then repo else Run(Step(repo, reqs[0]), reqs[1..])
  }

  /**
   Every sequence of requests keeps the repository consistent, provided
   every video it submits comes without likers.
   */
  lemma {:induction false} RunPreservesValid(repo: Repository, reqs: seq<Request>)
    requires Valid(repo)
    requires forall i :: 0 <= i < |reqs| && reqs[i].Add? ==> reqs[i].video.users == []
    ensures Valid(Run(repo, reqs))
    decreases |reqs|
  {
    if reqs != [] {
      match reqs[0] {
        case Add(v) => AddVideoValid(repo, v);
        case Like(id, user) => LikePreservesValid(repo, id, user);
        case Unlike(id, user) => UnlikePreservesValid(repo, id, user);
        case _ =>
      }
      RunPreservesValid(Step(repo, reqs[0]), reqs[1..]);
    }
  }

  /** From an empty repository, every request sequence whose added videos come without likers leaves it consistent. */
  lemma RunFromEmpty(reqs: seq<Request>)
    requires forall i :: 0 <= i < |reqs| && reqs[i].Add? ==> reqs[i].video.users == []
    ensures Valid(Run(Empty, reqs))
  {
    EmptyValid();
    RunPreservesValid(Empty, reqs);
  }

  /**
   A sample session: video 1 is added; alice likes it, likes it again, bob
   likes it, and alice unlikes it, leaving bob as its only liker.
   */
  lemma AliceAndBob(v: Video)
    requires v.users == []
    ensures var (saved, r0) := AddVideo(Empty, v);
      && saved.id == 1 && saved.likes == 0
      && var (s1, r1) := LikeVideo(r0, 1, "alice");
      && s1 == Ok && r1.videos[1].likes == 1
      && var (s2, r2) := LikeVideo(r1, 1, "alice");
      && s2 == BadRequest && r2 == r1
      && var (s3, r3) := LikeVideo(r2, 1, "bob");
      && s3 == Ok && r3.videos[1].likes == 2
      && var (s4, r4) := UnlikeVideo(r3, 1, "alice");
      && s4 == Ok && r4.videos[1].likes == 1
      && GetUsersWhoLikedVideo(r4, 1) == Success(["bob"])
  {
    var r0 := AddVideo(Empty, v).1;
    var r3 := LikeVideo(LikeVideo(r0, 1, "alice").1, 1, "bob").1;
    assert r3.videos[1].users == ["alice", "bob"];
    assert RemoveFirst(["alice", "bob"], "alice") == ["bob"];
  }
}
