/** The in-memory grouping the remote `getVideos` performs once its three
    queries have answered: like and comment rows are counted per video id, and
    each video row becomes a listing record whose like and comment arrays are
    placeholders of the counted length. */
module RemoteListing {
  import opened Common
  import opened Records

  /** A row of the `videos` table, with the column names of the remote schema. */
  datatype VideoRow = VideoRow(
    id: int,
    title: string,
    directorName: string,
    directorId: UserId,
    year: int,
    genre: string,
    category: string,
    duration: string,
    youtubeUrl: string,
    thumbnail: string,
    description: string,
    views: Option<int>,
    createdAt: int)

  /** The message thrown when the video query fails without one of its own. */
  const ListingFailed: string := "영상 목록을 불러오지 못했습니다."

  /** `counts[k] || 0`. */
  function CountOf(counts: map<int, nat>, k: int): nat {
    if k in counts then counts[k] else 0
  }

  /** `error.message || default`: an absent or empty message gives the default. */
  function FailureMessage(message: Option<string>): (r: string)
    ensures r == ListingFailed || (message.Some? && r == message.value)
    ensures message.Some? && message.value != [] ==> r == message.value
    ensures |r| > 0
  {
    if message.None? || message.value == [] then ListingFailed else message.value
  }

  /** The column-to-field renaming of one row (`director_name` becomes `director`, ...). */
  function RowInfo(row: VideoRow): VideoInfo {
    VideoInfo(row.title, row.directorName, row.directorId, row.year, row.genre, row.category,
              row.duration, row.youtubeUrl, row.thumbnail, row.description)
  }

  /** The `forEach` that bumps `byVideo[r.video_id]` once per row. */
  method CountByVideo(videoIds: seq<int>) returns (counts: map<int, nat>)
    ensures forall k :: CountOf(counts, k) == Count(videoIds, k)
    ensures forall k :: k in counts <==> k in videoIds
  {
    counts := map[];
    var i := 0;
    while i < |videoIds|
      invariant 0 <= i <= |videoIds|
      invariant forall k :: CountOf(counts, k) == Count(videoIds[..i], k)
      invariant forall k :: k in counts <==> k in videoIds[..i]
    {
      var k := videoIds[i];
      counts := counts[k := CountOf(counts, k) + 1];
      forall x
        ensures Count(videoIds[..i + 1], x) == Count(videoIds[..i], x) + (if k == x then 1 else 0)
      {
        assert videoIds[..i + 1] == videoIds[..i] + [k];
        CountAppend(videoIds[..i], k, x);
      }
      assert videoIds[..i + 1] == videoIds[..i] + [k];
      i := i + 1;
    }
    assert videoIds[..i] == videoIds;
  }

  /** The listing record of one row, with `likeCount` and `commentCount`
      placeholder entries. */
  function RowVideo(row: VideoRow, likeCount: nat, commentCount: nat): (v: Video)
    ensures v.id == row.id && v.info == RowInfo(row) && v.createdAt == row.createdAt
    ensures v.views == row.views.GetOr(0)
    ensures |v.likes| == likeCount && forall j :: 0 <= j < |v.likes| ==> v.likes[j].None?
    ensures |v.comments| == commentCount && forall j :: 0 <= j < |v.comments| ==> v.comments[j].None?
  {
    Video(row.id, RowInfo(row), if row.views.Some? then row.views.value else 0,
          seq(likeCount, _ => None), seq(commentCount, _ => None), row.createdAt)
  }

  /** The listing built from the three query answers: an error of the video query
      is thrown; absent like or comment data count as no rows. */
  method ListVideos(videosRes: Result<Option<seq<VideoRow>>, Option<string>>,
                    likeRows: Option<seq<int>>, commentRows: Option<seq<int>>)
    returns (r: Result<seq<Video>, string>)
    ensures videosRes.Err? <==> r.Err?
    ensures videosRes.Err? ==> r.error == FailureMessage(videosRes.error)
    ensures videosRes.Ok? ==>
      var rows := videosRes.value.GetOr([]);
      |r.value| == |rows| &&
      forall i :: 0 <= i < |rows| ==>
        r.value[i].id == rows[i].id &&
        r.value[i].info == RowInfo(rows[i]) &&
        r.value[i].views == rows[i].views.GetOr(0) &&
        r.value[i].createdAt == rows[i].createdAt &&
        |r.value[i].likes| == Count(likeRows.GetOr([]), rows[i].id) &&
        |r.value[i].comments| == Count(commentRows.GetOr([]), rows[i].id) &&
        (forall j :: 0 <= j < |r.value[i].likes| ==> r.value[i].likes[j].None?) &&
        (forall j :: 0 <= j < |r.value[i].comments| ==> r.value[i].comments[j].None?)
    ensures videosRes.Ok? && NoDup(RowIds(videosRes.value.GetOr([]))) ==>
      var ids := Elements(RowIds(videosRes.value.GetOr([])));
      Sum(LikeLengths(r.value)) == CountMembers(likeRows.GetOr([]), ids) &&
      Sum(CommentLengths(r.value)) == CountMembers(commentRows.GetOr([]), ids)
  {
    if videosRes.Err? {
      return Err(FailureMessage(videosRes.error));
    }
    var likes, comments := likeRows.GetOr([]), commentRows.GetOr([]);
    var likesByVideo := CountByVideo(likes);
    var commentsByVideo := CountByVideo(comments);
    var rows := videosRes.value.GetOr([]);
    var listing := seq(|rows|, i requires 0 <= i < |rows| =>
      RowVideo(rows[i], CountOf(likesByVideo, rows[i].id), CountOf(commentsByVideo, rows[i].id)));
    r := Ok(listing);
    if NoDup(RowIds(rows)) {
      ListingSums(rows, listing, likes, comments);
    }
  }

  /** With distinct row ids, the placeholder arrays of a listing hold one entry
      per like or comment row that belongs to a listed video. */
  lemma ListingSums(rows: seq<VideoRow>, listing: seq<Video>, likes: seq<int>, comments: seq<int>)
    requires |listing| == |rows| && NoDup(RowIds(rows))
    requires forall i :: 0 <= i < |rows| ==>
      |listing[i].likes| == Count(likes, rows[i].id) && |listing[i].comments| == Count(comments, rows[i].id)
    ensures Sum(LikeLengths(listing)) == CountMembers(likes, Elements(RowIds(rows)))
    ensures Sum(CommentLengths(listing)) == CountMembers(comments, Elements(RowIds(rows)))
  {
    SumOfCounts(LikeLengths(listing), RowIds(rows), likes);
    SumOfCounts(CommentLengths(listing), RowIds(rows), comments);
  }

  /** The ids of the video rows, in row order. */
  function RowIds(rows: seq<VideoRow>): (r: seq<int>)
    ensures |r| == |rows| && forall i :: 0 <= i < |rows| ==> r[i] == rows[i].id
  {
    seq(|rows|, i requires 0 <= i < |rows| => rows[i].id)
  }

  /** The like-array lengths of a listing, in order. */
  function LikeLengths(vs: seq<Video>): (r: seq<nat>)
    ensures |r| == |vs| && forall i :: 0 <= i < |vs| ==> r[i] == |vs[i].likes|
  {
    seq(|vs|, i requires 0 <= i < |vs| => |vs[i].likes|)
  }

  /** The comment-array lengths of a listing, in order. */
  function CommentLengths(vs: seq<Video>): (r: seq<nat>)
    ensures |r| == |vs| && forall i :: 0 <= i < |vs| ==> r[i] == |vs[i].comments|
  {
    seq(|vs|, i requires 0 <= i < |vs| => |vs[i].comments|)
  }
}
