/** The documents the archive stores and returns. */
module Records {
  import opened Common

  /** A user id as the local store assigns it (a number starting at 1). */
  type UserId = int

  /** The fields an upload supplies; everything a video has besides its
      identity, counters, like list, comment list and creation time. */
  datatype VideoInfo = VideoInfo(
    title: string,
    director: string,
    directorId: UserId,
    year: int,
    genre: string,
    category: string,
    duration: string,
    youtubeUrl: string,
    thumbnail: string,
    description: string)

  /** A comment as stored inside its video. */
  datatype Comment = Comment(id: int, userId: UserId, userName: string, content: string, createdAt: int)

  /** A video document. `likes` holds the JavaScript values that were pushed
      (a user id, or `null` in a listing record); `comments` likewise. */
  datatype Video = Video(
    id: int,
    info: VideoInfo,
    views: int,
    likes: seq<Option<UserId>>,
    comments: seq<Option<Comment>>,
    createdAt: int)

  /** A stored account, password in plain text as the local store keeps it. */
  datatype UserRecord = UserRecord(id: UserId, studentId: string, name: string, password: string)

  /** The session snapshot `{id, studentId, name}`. */
  datatype Session = Session(id: UserId, studentId: string, name: string)

  /** The errors the local branches throw. */
  datatype ApiError = LoginRequired | WrongCredentials | StudentIdTaken

  /** The message each error carries. */
  function ApiMessage(e: ApiError): string {
    match e
    case LoginRequired => "로그인이 필요합니다."
    case WrongCredentials => "학번 또는 비밀번호가 일치하지 않습니다."
    case StudentIdTaken => "이미 사용 중인 학번입니다."
  }

  /** JavaScript's `!userId` for a number-or-null id. */
  predicate Falsy(userId: Option<UserId>) {
    userId.None? || userId.value == 0
  }
}
