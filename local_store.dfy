/** The local-storage backend: three storage slots and the API operations that
    read a slot, change the array in memory and write it back. */
module LocalStore {
  import opened Common
  import opened Records
  import opened StoreOps

  class Store {
    /** The `videos` key: absent, or the stored array. */
    var videosSlot: Option<seq<Video>>
    /** The `users` key: absent, or the stored array. */
    var usersSlot: Option<seq<UserRecord>>
    /** The `currentUser` key: absent, or the stored session snapshot. */
    var currentUserSlot: Option<Session>

    /** What `JSON.parse(localStorage.getItem(videos) || '[]')` reads. */
    function Videos(): seq<Video>
      reads this
    {
      videosSlot.GetOr([])
    }

    /** What `JSON.parse(localStorage.getItem(users) || '[]')` reads. */
    function Users(): seq<UserRecord>
      reads this
    {
      usersSlot.GetOr([])
    }

    /** The invariant every operation keeps: distinct video ids, duplicate-free
        like lists, comments numbered 1, 2, ..., distinct user and student ids. */
    ghost predicate Valid()
      reads this
    {
      WellFormedVideos(Videos()) && WellFormedUsers(Users())
    }

    /** A browser whose storage holds none of the three keys. */
    constructor ()
      ensures videosSlot == None && usersSlot == None && currentUserSlot == None
      ensures Valid()
    {
      videosSlot := None;
      usersSlot := None;
      currentUserSlot := None;
    }

    /** `initLocalStorage`: write an empty array under each missing key. */
    method InitLocalStorage()
      modifies this
      ensures videosSlot == Some(old(Videos())) && usersSlot == Some(old(Users()))
      ensures currentUserSlot == old(currentUserSlot)
    {
      if videosSlot.None? { videosSlot := Some([]); }
      if usersSlot.None? { usersSlot := Some([]); }
    }

    /** `getVideos`: initialise the store, then return the stored array. */
    method GetVideos() returns (vs: seq<Video>)
      modifies this
      ensures vs == old(Videos())
      ensures videosSlot == Some(vs) && usersSlot == Some(old(Users()))
      ensures currentUserSlot == old(currentUserSlot)
    {
      InitLocalStorage();
      vs := Videos();
    }

    /** `getVideo(id)`: the first stored video with that id, or null. */
    method GetVideo(id: int) returns (v: Option<Video>)
      ensures v == FindVideo(Videos(), id)
    {
      var videos := Videos();
      v := FindVideo(videos, id);
    }

    /** `addVideo(video)`: prepend a fresh record and return its id. */
    method AddVideo(info: VideoInfo, now: int) returns (newId: int)
      modifies this
      ensures newId == NewVideoId(old(Videos()))
      ensures newId !in VideoIds(old(Videos()))
      ensures videosSlot == Some(InsertVideo(old(Videos()), info, now))
      ensures usersSlot == old(usersSlot) && currentUserSlot == old(currentUserSlot)
      ensures old(Valid()) ==> Valid()
      ensures FindVideo(Videos(), newId) == Some(NewVideo(newId, info, now))
      ensures CommentsOf(Videos(), newId) == [] && LikeCount(Videos(), newId) == 0
    {
      var videos := Videos();
      ghost var before := videos;
      var ids := VideoIds(videos);
      newId := NextId(ids);
      videos := [NewVideo(newId, info, now)] + videos;
      assert videos == InsertVideo(before, info, now);
      AddThenGet(before, info, now);
      if WellFormedVideos(before) {
        InsertKeepsWellFormed(before, info, now);
      }
      videosSlot := Some(videos);
    }

    /** `incrementVideoViews(id)`: one more view on the first video with that id;
        nothing is written for an unknown id. */
    method IncrementVideoViews(id: int)
      modifies this
      ensures FindVideoIndex(old(Videos()), id).None? ==> videosSlot == old(videosSlot)
      ensures FindVideoIndex(old(Videos()), id).Some? ==> videosSlot == Some(IncrementViews(old(Videos()), id))
      ensures usersSlot == old(usersSlot) && currentUserSlot == old(currentUserSlot)
      ensures old(Valid()) ==> Valid()
      ensures TotalViews(Videos()) == old(TotalViews(Videos())) + (if FindVideoIndex(old(Videos()), id).Some? then 1 else 0)
    {
      var videos := Videos();
      var found := FindVideoIndex(videos, id);
      if found.Some? {
        var i := found.value;
        videos := videos[i := videos[i].(views := videos[i].views + 1)];
        ghost var before := Videos();
        videosSlot := Some(videos);
        IncrementViewsTotal(before, id);
        if WellFormedVideos(before) {
          IncrementKeepsWellFormed(before, id);
        }
      }
    }

    /** `getComments(videoId)`: that video's comments as stored, or `[]`. */
    method GetComments(videoId: int) returns (cs: seq<Option<Comment>>)
      ensures cs == CommentsOf(Videos(), videoId)
    {
      var videos := Videos();
      var found := FindVideoIndex(videos, videoId);
      cs := if found.Some? then videos[found.value].comments else [];
    }

    /** `addComment(videoId, content, userId, userName)`: push a comment numbered
        one past the list's length; nothing is written for an unknown video. */
    method AddComment(videoId: int, content: string, userId: UserId, userName: string, now: int)
      modifies this
      ensures FindVideoIndex(old(Videos()), videoId).None? ==> videosSlot == old(videosSlot)
      ensures FindVideoIndex(old(Videos()), videoId).Some? ==>
        videosSlot == Some(AddCommentTo(old(Videos()), videoId, userId, userName, content, now))
      ensures usersSlot == old(usersSlot) && currentUserSlot == old(currentUserSlot)
      ensures old(Valid()) ==> Valid()
      ensures FindVideo(old(Videos()), videoId).Some? ==>
        CommentsOf(Videos(), videoId) == old(CommentsOf(Videos(), videoId)) +
          [Some(Comment(|old(CommentsOf(Videos(), videoId))| + 1, userId, userName, content, now))]
    {
      var videos := Videos();
      var found := FindVideoIndex(videos, videoId);
      if found.Some? {
        var i := found.value;
        var v := videos[i];
        var c := Comment(|v.comments| + 1, userId, userName, content, now);
        videos := videos[i := v.(comments := v.comments + [Some(c)])];
        ghost var before := Videos();
        videosSlot := Some(videos);
        AddCommentAppends(before, videoId, userId, userName, content, now);
        if WellFormedVideos(before) {
          AddCommentKeepsWellFormed(before, videoId, userId, userName, content, now);
        }
      }
    }

    /** `getLikeCount(videoId)`. */
    method GetLikeCount(videoId: int) returns (n: nat)
      ensures n == LikeCount(Videos(), videoId)
    {
      var videos := Videos();
      var found := FindVideoIndex(videos, videoId);
      n := if found.Some? then |videos[found.value].likes| else 0;
    }

    /** `getUserLiked(videoId, userId)`. */
    method GetUserLiked(videoId: int, userId: Option<UserId>) returns (liked: bool)
      ensures liked == UserLiked(Videos(), videoId, userId)
    {
      if Falsy(userId) {
        return false;
      }
      var videos := Videos();
      var found := FindVideoIndex(videos, videoId);
      liked := found.Some? && userId in videos[found.value].likes;
    }

    /** `toggleLike(videoId, userId)`: a falsy user is refused before anything is
        read; an unknown video is left alone; otherwise the user's like flips. */
    method ToggleLike(videoId: int, userId: Option<UserId>) returns (r: Outcome<ApiError>)
      modifies this
      ensures Falsy(userId) <==> r == Fail(LoginRequired)
      ensures r.Pass? <==> !Falsy(userId)
      ensures (Falsy(userId) || FindVideoIndex(old(Videos()), videoId).None?) ==> videosSlot == old(videosSlot)
      ensures !Falsy(userId) && FindVideoIndex(old(Videos()), videoId).Some? ==>
        videosSlot == Some(ToggleLikeIn(old(Videos()), videoId, userId))
      ensures usersSlot == old(usersSlot) && currentUserSlot == old(currentUserSlot)
      ensures old(Valid()) ==> Valid()
      ensures old(Valid()) && !Falsy(userId) && FindVideo(old(Videos()), videoId).Some? ==>
        UserLiked(Videos(), videoId, userId) == !old(UserLiked(Videos(), videoId, userId)) &&
        LikeCount(Videos(), videoId) ==
          if old(UserLiked(Videos(), videoId, userId)) then old(LikeCount(Videos(), videoId)) - 1
          else old(LikeCount(Videos(), videoId)) + 1
    {
      if Falsy(userId) {
        return Fail(LoginRequired);
      }
      r := Pass;
      var videos := Videos();
      var found := FindVideoIndex(videos, videoId);
      if found.Some? {
        var i := found.value;
        var likes := videos[i].likes;
        var idx := FirstIndex(likes, userId);
        if idx.Some? {
          likes := RemoveAt(likes, idx.value);
        } else {
          likes := likes + [userId];
        }
        videos := videos[i := videos[i].(likes := likes)];
        ghost var before := Videos();
        videosSlot := Some(videos);
        if WellFormedVideos(before) {
          ToggleKeepsWellFormed(before, videoId, userId);
          assert FindVideo(before, videoId) == Some(before[i]);
          ToggleObserved(before, videoId, userId);
        }
      }
    }

    /** `authSignIn(studentId, password)`. */
    method AuthSignIn(studentId: string, password: string) returns (r: Result<Session, ApiError>)
      ensures r == SignIn(Users(), studentId, password)
    {
      var users := Users();
      var found := FindCredentials(users, studentId, password);
      if found.None? {
        return Err(WrongCredentials);
      }
      var u := users[found.value];
      r := Ok(Session(u.id, u.studentId, u.name));
    }

    /** `authSignUp(studentId, password, name)`: refuse a taken student id, otherwise
        append the account and return its session. */
    method AuthSignUp(studentId: string, password: string, name: string) returns (r: Result<Session, ApiError>)
      modifies this
      ensures StudentIdInUse(old(Users()), studentId) ==> r == Err(StudentIdTaken) && usersSlot == old(usersSlot)
      ensures !StudentIdInUse(old(Users()), studentId) ==>
        r == Ok(SignUp(old(Users()), studentId, password, name).value.1) &&
        usersSlot == Some(SignUp(old(Users()), studentId, password, name).value.0)
      ensures videosSlot == old(videosSlot) && currentUserSlot == old(currentUserSlot)
      ensures old(Valid()) ==> Valid()
      ensures r.Ok? ==> SignIn(Users(), studentId, password) == r
    {
      var users := Users();
      if StudentIdInUse(users, studentId) {
        return Err(StudentIdTaken);
      }
      var ids := UserIds(users);
      var id := NextId(ids);
      ghost var before := Users();
      usersSlot := Some(users + [UserRecord(id, studentId, name, password)]);
      r := Ok(Session(id, studentId, name));
      SignUpThenSignIn(before, studentId, password, name);
      if WellFormedUsers(before) {
        SignUpKeepsWellFormed(before, studentId, password, name);
      }
    }

    /** `authSignOut`: remove the session snapshot. */
    method AuthSignOut()
      modifies this
      ensures currentUserSlot == None
      ensures videosSlot == old(videosSlot) && usersSlot == old(usersSlot)
    {
      currentUserSlot := None;
    }

    /** `getCurrentUser`: the stored snapshot, or null. */
    method GetCurrentUser() returns (u: Option<Session>)
      ensures u == currentUserSlot
    {
      u := currentUserSlot;
    }

    /** `setCurrentUserLocal(user)`: store the session snapshot. */
    method SetCurrentUserLocal(user: Session)
      modifies this
      ensures currentUserSlot == Some(user)
      ensures videosSlot == old(videosSlot) && usersSlot == old(usersSlot)
    {
      currentUserSlot := Some(user);
    }
  }

  /** The sign-up scenario: a first sign-up succeeds with id 1, a second one with
      the same student id is refused, and signing in returns the first session. */
  method SignUpScenario()
  {
    var store := new Store();
    var first := store.AuthSignUp("20231234", "secret1", "Kim");
    assert first == Ok(Session(1, "20231234", "Kim"));
    var second := store.AuthSignUp("20231234", "another", "Lee");
    assert StudentIdInUse(store.Users(), "20231234") by {
      assert store.Users()[0].studentId == "20231234";
    }
    assert second == Err(StudentIdTaken);
    var signedIn := store.AuthSignIn("20231234", "secret1");
    SignUpThenSignIn([], "20231234", "secret1", "Kim");
    assert signedIn == first;
  }

  /** The like scenario: on a video without likes, a toggle makes the count 1 and
      the user liked; a second toggle restores count 0 and not liked. */
  method LikeScenario(info: VideoInfo, now: int)
  {
    var store := new Store();
    var id := store.AddVideo(info, now);
    var outcome := store.ToggleLike(id, Some(7));
    var count := store.GetLikeCount(id);
    var liked := store.GetUserLiked(id, Some(7));
    assert count == 1 && liked;
    outcome := store.ToggleLike(id, Some(7));
    count := store.GetLikeCount(id);
    liked := store.GetUserLiked(id, Some(7));
    assert count == 0 && !liked;
  }
}
