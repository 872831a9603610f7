/** The local-storage branches of the archive API as functions from the stored
    arrays to the arrays written back, with the properties they keep. */
module StoreOps {
  import opened Common
  import opened Records
  import opened LikeLists

  // ---------- identity assignment ----------

  /** `Math.max(...xs)` for a non-empty list. */
  function MaxOf(xs: seq<int>): (m: int)
    requires |xs| > 0
    ensures forall i :: 0 <= i < |xs| ==> xs[i] <= m
    ensures exists i :: 0 <= i < |xs| && xs[i] == m
  {
    if |xs| == 1 then xs[0]
    else
      var rest := MaxOf(xs[1..]);
      assert forall i :: 1 <= i < |xs| ==> xs[i] == xs[1..][i - 1];
      if xs[0] >= rest then xs[0] else rest
  }

  /** `xs.length ? Math.max(...xs) + 1 : 1`: one more than the largest id, or 1. */
  function NextId(ids: seq<int>): (r: int)
    ensures ids == [] ==> r == 1
    ensures forall i :: 0 <= i < |ids| ==> ids[i] < r
    ensures ids != [] ==> exists i :: 0 <= i < |ids| && r == ids[i] + 1
  {
    if |ids| > 0 then MaxOf(ids) + 1 else 1
  }

  /** A fresh id is not among the existing ones. */
  lemma NextIdFresh(ids: seq<int>)
    ensures NextId(ids) !in ids
  {
  }

  function VideoIds(vs: seq<Video>): (r: seq<int>)
    ensures |r| == |vs| && forall i :: 0 <= i < |vs| ==> r[i] == vs[i].id
  {
    seq(|vs|, i requires 0 <= i < |vs| => vs[i].id)
  }

  function UserIds(us: seq<UserRecord>): (r: seq<UserId>)
    ensures |r| == |us| && forall i :: 0 <= i < |us| ==> r[i] == us[i].id
  {
    seq(|us|, i requires 0 <= i < |us| => us[i].id)
  }

  // ---------- lookups ----------

  /** The position `videos.find(v => v.id === id)` stops at. */
  function FindVideoIndex(vs: seq<Video>, id: int): (r: Option<nat>)
    ensures r.Some? ==> r.value < |vs| && vs[r.value].id == id
    ensures r.Some? ==> forall j :: 0 <= j < r.value ==> vs[j].id != id
    ensures r.None? <==> forall j :: 0 <= j < |vs| ==> vs[j].id != id
  {
    var r := FirstIndex(VideoIds(vs), id);
    assert r.None? <==> id !in VideoIds(vs);
    r
  }

  /** `getVideo(id)`: the first video with that id, or null. */
  function FindVideo(vs: seq<Video>, id: int): (r: Option<Video>)
    ensures r.Some? <==> exists i :: 0 <= i < |vs| && vs[i].id == id
    ensures r.Some? ==> r.value in vs && r.value.id == id
    ensures r.Some? ==> FindVideoIndex(vs, id).Some? && r.value == vs[FindVideoIndex(vs, id).value]
  {
    match FindVideoIndex(vs, id)
    case None => None
    case Some(i) => Some(vs[i])
  }

  /** `getComments(videoId)`: that video's comment list, or `[]`. */
  function CommentsOf(vs: seq<Video>, id: int): (r: seq<Option<Comment>>)
    ensures FindVideo(vs, id).None? ==> r == []
    ensures FindVideo(vs, id).Some? ==> r == FindVideo(vs, id).value.comments
  {
    match FindVideoIndex(vs, id)
    case None => []
    case Some(i) => vs[i].comments
  }

  /** `getLikeCount(videoId)`: the length of that video's like list, or 0. */
  function LikeCount(vs: seq<Video>, id: int): (r: nat)
    ensures FindVideo(vs, id).None? ==> r == 0
    ensures FindVideo(vs, id).Some? ==> r == |FindVideo(vs, id).value.likes|
  {
    match FindVideoIndex(vs, id)
    case None => 0
    case Some(i) => |vs[i].likes|
  }

  /** `getUserLiked(videoId, userId)`: false for a falsy user or an unknown video,
      otherwise whether the user is in the video's like list. */
  function UserLiked(vs: seq<Video>, id: int, userId: Option<UserId>): (r: bool)
    ensures r <==> !Falsy(userId) && FindVideo(vs, id).Some? && userId in FindVideo(vs, id).value.likes
  {
    if Falsy(userId) then false
    else match FindVideoIndex(vs, id)
      case None => false
      case Some(i) => userId in vs[i].likes
  }

  // ---------- addVideo ----------

  /** The id `addVideo` gives the next video. */
  function NewVideoId(vs: seq<Video>): int {
    NextId(VideoIds(vs))
  }

  /** The record `addVideo` builds: the upload's fields, no views, no likes,
      no comments, created now. */
  function NewVideo(id: int, info: VideoInfo, now: int): Video {
    Video(id, info, 0, [], [], now)
  }

  /** The array `addVideo` writes back: the new record in front of the old ones. */
  function InsertVideo(vs: seq<Video>, info: VideoInfo, now: int): (r: seq<Video>)
    ensures |r| == |vs| + 1 && r[1..] == vs
    ensures r[0] == NewVideo(NewVideoId(vs), info, now)
    ensures forall i :: 0 <= i < |vs| ==> r[0].id != vs[i].id
  {
    [NewVideo(NewVideoId(vs), info, now)] + vs
  }

  /** Right after `addVideo`, `getVideo` of the returned id is the fresh record. */
  lemma AddThenGet(vs: seq<Video>, info: VideoInfo, now: int)
    ensures FindVideo(InsertVideo(vs, info, now), NewVideoId(vs)) == Some(NewVideo(NewVideoId(vs), info, now))
    ensures CommentsOf(InsertVideo(vs, info, now), NewVideoId(vs)) == []
    ensures LikeCount(InsertVideo(vs, info, now), NewVideoId(vs)) == 0
  {
  }

  /** Newest first in creation time. */
  ghost predicate NewestFirst(vs: seq<Video>) {
    forall i, j :: 0 <= i < j < |vs| ==> vs[i].createdAt >= vs[j].createdAt
  }

  /** Inserting with a clock that has not gone back keeps the list newest first. */
  lemma InsertKeepsNewestFirst(vs: seq<Video>, info: VideoInfo, now: int)
    requires NewestFirst(vs)
    requires vs != [] ==> now >= vs[0].createdAt
    ensures NewestFirst(InsertVideo(vs, info, now))
  {
    var r := InsertVideo(vs, info, now);
    forall i, j | 0 <= i < j < |r| ensures r[i].createdAt >= r[j].createdAt {
      if i > 0 {
        assert r[i] == vs[i - 1] && r[j] == vs[j - 1];
      } else {
        assert r[j] == vs[j - 1];
      }
    }
  }

  // ---------- incrementVideoViews ----------

  /** The video array after `incrementVideoViews(id)`. */
  function IncrementViews(vs: seq<Video>, id: int): (r: seq<Video>)
    ensures |r| == |vs|
    ensures FindVideoIndex(vs, id).None? ==> r == vs
    ensures FindVideoIndex(vs, id).Some? ==>
      var i := FindVideoIndex(vs, id).value;
      r[i].views == vs[i].views + 1 && r[i].(views := vs[i].views) == vs[i] &&
      forall j :: 0 <= j < |vs| && j != i ==> r[j] == vs[j]
  {
    match FindVideoIndex(vs, id)
    case None => vs
    case Some(i) => vs[i := vs[i].(views := vs[i].views + 1)]
  }

  function TotalViews(vs: seq<Video>): int {
    if vs == [] then 0 else TotalViews(vs[..|vs| - 1]) + vs[|vs| - 1].views
  }

  lemma {:induction false} TotalViewsBump(vs: seq<Video>, i: nat, v: Video)
    requires i < |vs| && v.views == vs[i].views + 1
    ensures TotalViews(vs[i := v]) == TotalViews(vs) + 1
    decreases |vs|
  {
    var w := vs[i := v];
    var n := |vs| - 1;
    if i < n {
      assert w[..n] == vs[..n][i := v];
      TotalViewsBump(vs[..n], i, v);
    } else {
      assert w[..n] == vs[..n];
    }
  }

  /** Opening a known video adds exactly one view in total; an unknown id adds none. */
  lemma IncrementViewsTotal(vs: seq<Video>, id: int)
    ensures TotalViews(IncrementViews(vs, id)) ==
      TotalViews(vs) + (if FindVideoIndex(vs, id).Some? then 1 else 0)
  {
    match FindVideoIndex(vs, id)
    case None =>
    case Some(i) => TotalViewsBump(vs, i, vs[i].(views := vs[i].views + 1));
  }

  // ---------- addComment ----------

  /** The comment `addComment` pushes onto a list: numbered one past its length. */
  function NewComment(cs: seq<Option<Comment>>, userId: UserId, userName: string, content: string, now: int): Comment {
    Comment(|cs| + 1, userId, userName, content, now)
  }

  /** The video array after `addComment(videoId, content, userId, userName)`. */
  function AddCommentTo(vs: seq<Video>, id: int, userId: UserId, userName: string, content: string, now: int): (r: seq<Video>)
    ensures |r| == |vs|
    ensures FindVideoIndex(vs, id).None? ==> r == vs
    ensures FindVideoIndex(vs, id).Some? ==>
      var i := FindVideoIndex(vs, id).value;
      r[i].comments == vs[i].comments + [Some(NewComment(vs[i].comments, userId, userName, content, now))] &&
      r[i].(comments := vs[i].comments) == vs[i] &&
      forall j :: 0 <= j < |vs| && j != i ==> r[j] == vs[j]
  {
    match FindVideoIndex(vs, id)
    case None => vs
    case Some(i) =>
      var v := vs[i];
      vs[i := v.(comments := v.comments + [Some(NewComment(v.comments, userId, userName, content, now))])]
  }

  /** Comment lists are append-only: `getComments` after `addComment` is the old
      list followed by exactly the new comment, numbered one past the old length. */
  lemma AddCommentAppends(vs: seq<Video>, id: int, userId: UserId, userName: string, content: string, now: int)
    ensures var after := AddCommentTo(vs, id, userId, userName, content, now);
      if FindVideo(vs, id).Some? then
        CommentsOf(after, id) == CommentsOf(vs, id) + [Some(Comment(|CommentsOf(vs, id)| + 1, userId, userName, content, now))]
      else
        CommentsOf(after, id) == []
  {
    var after := AddCommentTo(vs, id, userId, userName, content, now);
    match FindVideoIndex(vs, id)
    case None =>
    case Some(i) =>
      assert VideoIds(after) == VideoIds(vs);
      assert FindVideoIndex(after, id) == Some(i);
  }

  /** Comment `k` (0-based) of a list carries id `k + 1`. */
  ghost predicate NumberedComments(cs: seq<Option<Comment>>) {
    forall k :: 0 <= k < |cs| ==> cs[k].Some? && cs[k].value.id == k + 1
  }

  /** Oldest first in creation time. */
  ghost predicate OldestFirst(cs: seq<Option<Comment>>) {
    forall i, j :: 0 <= i < j < |cs| && cs[i].Some? && cs[j].Some? ==> cs[i].value.createdAt <= cs[j].value.createdAt
  }

  /** Appending with a clock that has not gone back keeps comments numbered and oldest first. */
  lemma AppendCommentKeepsOrder(cs: seq<Option<Comment>>, userId: UserId, userName: string, content: string, now: int)
    requires NumberedComments(cs) && OldestFirst(cs)
    requires cs != [] ==> cs[|cs| - 1].value.createdAt <= now
    ensures var r := cs + [Some(NewComment(cs, userId, userName, content, now))];
      NumberedComments(r) && OldestFirst(r)
  {
    var r := cs + [Some(NewComment(cs, userId, userName, content, now))];
    forall i, j | 0 <= i < j < |r| && r[i].Some? && r[j].Some?
      ensures r[i].value.createdAt <= r[j].value.createdAt
    {
      if j == |cs| && i < |cs| - 1 {
        assert cs[i].value.createdAt <= cs[|cs| - 1].value.createdAt;
      }
    }
  }

  // ---------- toggleLike ----------

  /** The video array after `toggleLike(videoId, userId)` for a truthy user. */
  function ToggleLikeIn(vs: seq<Video>, id: int, u: Option<UserId>): (r: seq<Video>)
    ensures |r| == |vs|
    ensures FindVideoIndex(vs, id).None? ==> r == vs
    ensures FindVideoIndex(vs, id).Some? ==>
      var i := FindVideoIndex(vs, id).value;
      r[i].likes == ToggleUser(vs[i].likes, u) &&
      r[i].(likes := vs[i].likes) == vs[i] &&
      forall j :: 0 <= j < |vs| && j != i ==> r[j] == vs[j]
  {
    match FindVideoIndex(vs, id)
    case None => vs
    case Some(i) => vs[i := vs[i].(likes := ToggleUser(vs[i].likes, u))]
  }

  /** Seen through `getUserLiked` and `getLikeCount`, a toggle on a known video with
      a duplicate-free like list flips the liked state and moves the count by one. */
  lemma ToggleObserved(vs: seq<Video>, id: int, u: Option<UserId>)
    requires !Falsy(u)
    requires FindVideo(vs, id).Some? && NoDup(FindVideo(vs, id).value.likes)
    ensures var after := ToggleLikeIn(vs, id, u);
      UserLiked(after, id, u) == !UserLiked(vs, id, u) &&
      LikeCount(after, id) == (if UserLiked(vs, id, u) then LikeCount(vs, id) - 1 else LikeCount(vs, id) + 1)
  {
    var after := ToggleLikeIn(vs, id, u);
    var i := FindVideoIndex(vs, id).value;
    assert VideoIds(after) == VideoIds(vs);
    assert FindVideoIndex(after, id) == Some(i);
    ToggleUserFlips(vs[i].likes, u);
  }

  // ---------- the invariant the local branches keep ----------

  /** Distinct video ids, duplicate-free like lists, numbered comment lists. */
  ghost predicate WellFormedVideos(vs: seq<Video>) {
    (forall i, j :: 0 <= i < j < |vs| ==> vs[i].id != vs[j].id) &&
    (forall i :: 0 <= i < |vs| ==> NoDup(vs[i].likes) && NumberedComments(vs[i].comments))
  }

  lemma InsertKeepsWellFormed(vs: seq<Video>, info: VideoInfo, now: int)
    requires WellFormedVideos(vs)
    ensures WellFormedVideos(InsertVideo(vs, info, now))
  {
    var r := InsertVideo(vs, info, now);
    forall i, j | 0 <= i < j < |r| ensures r[i].id != r[j].id {
      if i > 0 { assert r[i] == vs[i - 1] && r[j] == vs[j - 1]; }
      else { assert r[j] == vs[j - 1]; }
    }
    forall i | 0 <= i < |r| ensures NoDup(r[i].likes) && NumberedComments(r[i].comments) {
      if i > 0 { assert r[i] == vs[i - 1]; }
    }
  }

  lemma IncrementKeepsWellFormed(vs: seq<Video>, id: int)
    requires WellFormedVideos(vs)
    ensures WellFormedVideos(IncrementViews(vs, id))
  {
  }

  lemma AddCommentKeepsWellFormed(vs: seq<Video>, id: int, userId: UserId, userName: string, content: string, now: int)
    requires WellFormedVideos(vs)
    ensures WellFormedVideos(AddCommentTo(vs, id, userId, userName, content, now))
  {
    var r := AddCommentTo(vs, id, userId, userName, content, now);
    match FindVideoIndex(vs, id)
    case None =>
    case Some(i) =>
      forall j | 0 <= j < |r| ensures NoDup(r[j].likes) && NumberedComments(r[j].comments) {
        if j == i {
          var cs := vs[i].comments;
          assert r[i].comments == cs + [Some(NewComment(cs, userId, userName, content, now))];
        }
      }
  }

  lemma ToggleKeepsWellFormed(vs: seq<Video>, id: int, u: Option<UserId>)
    requires WellFormedVideos(vs)
    ensures WellFormedVideos(ToggleLikeIn(vs, id, u))
  {
    var r := ToggleLikeIn(vs, id, u);
    match FindVideoIndex(vs, id)
    case None =>
    case Some(i) =>
      ToggleUserFlips(vs[i].likes, u);
  }

  // ---------- authSignIn / authSignUp ----------

  /** The position `users.find(u => u.studentId === studentId && u.password === password)` stops at. */
  function FindCredentials(us: seq<UserRecord>, studentId: string, password: string): (r: Option<nat>)
    ensures r.Some? ==> r.value < |us| && us[r.value].studentId == studentId && us[r.value].password == password
    ensures r.Some? ==> forall j :: 0 <= j < r.value ==> !(us[j].studentId == studentId && us[j].password == password)
    ensures r.None? <==> forall j :: 0 <= j < |us| ==> !(us[j].studentId == studentId && us[j].password == password)
  {
    if us == [] then None
    else if us[0].studentId == studentId && us[0].password == password then Some(0)
    else match FindCredentials(us[1..], studentId, password)
      case None => None
      case Some(k) => Some(k + 1)
  }

  /** `authSignIn`: the matching account without its password, or a credentials error. */
  function SignIn(us: seq<UserRecord>, studentId: string, password: string): (r: Result<Session, ApiError>)
    ensures r.Ok? <==> exists i :: 0 <= i < |us| && us[i].studentId == studentId && us[i].password == password
    ensures r.Ok? ==> exists i :: (0 <= i < |us| && us[i].studentId == studentId && us[i].password == password &&
      r.value == Session(us[i].id, us[i].studentId, us[i].name))
    ensures r.Err? ==> r.error == WrongCredentials
    ensures r.Ok? ==> FindCredentials(us, studentId, password).Some? &&
                      (var i := FindCredentials(us, studentId, password).value;
                       r.value == Session(us[i].id, us[i].studentId, us[i].name))
  {
    match FindCredentials(us, studentId, password)
    case None => Err(WrongCredentials)
    case Some(i) => Ok(Session(us[i].id, us[i].studentId, us[i].name))
  }

  /** Some stored account already uses this student id. */
  predicate StudentIdInUse(us: seq<UserRecord>, studentId: string) {
    exists i :: 0 <= i < |us| && us[i].studentId == studentId
  }

  /** `authSignUp`: the users array written back and the session returned, or the
      duplicate error when the student id is taken. */
  function SignUp(us: seq<UserRecord>, studentId: string, password: string, name: string): (r: Result<(seq<UserRecord>, Session), ApiError>)
    ensures r.Err? <==> StudentIdInUse(us, studentId)
    ensures r.Err? ==> r.error == StudentIdTaken
    ensures r.Ok? ==>
      var id := NextId(UserIds(us));
      r.value.0 == us + [UserRecord(id, studentId, name, password)] &&
      r.value.1 == Session(id, studentId, name) &&
      forall i :: 0 <= i < |us| ==> us[i].id != id
  {
    if StudentIdInUse(us, studentId) then Err(StudentIdTaken)
    else
      var id := NextId(UserIds(us));
      Ok((us + [UserRecord(id, studentId, name, password)], Session(id, studentId, name)))
  }

  /** Distinct user ids and distinct student ids. */
  ghost predicate WellFormedUsers(us: seq<UserRecord>) {
    forall i, j :: 0 <= i < j < |us| ==> us[i].id != us[j].id && us[i].studentId != us[j].studentId
  }

  /** Sign-up keeps user ids and student ids distinct. */
  lemma SignUpKeepsWellFormed(us: seq<UserRecord>, studentId: string, password: string, name: string)
    requires WellFormedUsers(us)
    requires SignUp(us, studentId, password, name).Ok?
    ensures WellFormedUsers(SignUp(us, studentId, password, name).value.0)
  {
    var r := SignUp(us, studentId, password, name).value.0;
    forall i, j | 0 <= i < j < |r| ensures r[i].id != r[j].id && r[i].studentId != r[j].studentId {
      if j == |us| {
        assert r[i] == us[i];
        assert us[i].id != NextId(UserIds(us)) by { assert UserIds(us)[i] == us[i].id; }
      }
    }
  }

  /** Signing up and then signing in with the same credentials yields the session
      sign-up returned. */
  lemma SignUpThenSignIn(us: seq<UserRecord>, studentId: string, password: string, name: string)
    requires SignUp(us, studentId, password, name).Ok?
    ensures var (us', s) := SignUp(us, studentId, password, name).value;
      SignIn(us', studentId, password) == Ok(s)
  {
    var (us', s) := SignUp(us, studentId, password, name).value;
    assert FindCredentials(us, studentId, password).None?;
    FindCredentialsAppend(us, studentId, password, us'[|us|]);
    assert us' == us + [us'[|us|]];
  }

  lemma {:induction false} FindCredentialsAppend(us: seq<UserRecord>, studentId: string, password: string, u: UserRecord)
    requires FindCredentials(us, studentId, password).None?
    requires u.studentId == studentId && u.password == password
    ensures FindCredentials(us + [u], studentId, password) == Some(|us|)
  {
    if us != [] {
      assert (us + [u])[1..] == us[1..] + [u];
      FindCredentialsAppend(us[1..], studentId, password, u);
    }
  }
}
