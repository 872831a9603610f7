/** YouTube id extraction and the URLs built from it. */
module Youtube {
  import opened Common
  import opened Text

  const EmbedPrefix: string := "https://www.youtube.com/embed/"
  const ThumbnailPrefix: string := "https://img.youtube.com/vi/"
  const ThumbnailSuffix: string := "/maxresdefault.jpg"

  /** `getYoutubeVideoId(url)` on a string: the first `&`-piece of the second
      `v=`-piece when that is non-empty, otherwise the last `/`-piece. */
  function ExtractId(url: string): string {
    var fromQuery := QueryPiece(url);
    if fromQuery != "" then fromQuery
    else
      var segments := Split(url, "/");
      segments[|segments| - 1]
  }

  /** `url.split('v=')[1]?.split('&')[0]`, with `''` when there is no second piece. */
  function QueryPiece(url: string): string {
    var pieces := Split(url, "v=");
    if |pieces| >= 2 then Split(pieces[1], "&")[0] else ""
  }

  /** `getYoutubeVideoId(url)`: a missing URL makes `split` throw, and the
      handler returns the empty string. */
  function VideoId(url: Option<string>): (r: string)
    ensures url.None? ==> r == ""
  {
    match url
    case None => ""
    case Some(u) => ExtractId(u)
  }

  /** `getYoutubeEmbedUrl(url)`: the same extraction behind the embed prefix; a
      missing URL is handed back as it came. */
  function EmbedUrl(url: Option<string>): (r: Option<string>)
    ensures r.None? <==> url.None?
    ensures r.Some? ==> r.value == EmbedPrefix + VideoId(url)
  {
    match url
    case None => None
    case Some(u) =>
      var pieces := Split(u, "v=");
      var fromQuery := if |pieces| >= 2 then Split(pieces[1], "&")[0] else "";
      var segments := Split(u, "/");
      var id := if fromQuery != "" then fromQuery else segments[|segments| - 1];
      Some(EmbedPrefix + id)
  }

  /** The automatic thumbnail for an upload: it names the same video as the
      embedded player for that URL. */
  function AutoThumbnail(url: string): (r: string)
    ensures |ThumbnailPrefix| + |ThumbnailSuffix| <= |r|
    ensures r[..|ThumbnailPrefix|] == ThumbnailPrefix && r[|r| - |ThumbnailSuffix|..] == ThumbnailSuffix
    ensures EmbedUrl(Some(url)) == Some(EmbedPrefix + r[|ThumbnailPrefix|..|r| - |ThumbnailSuffix|])
  {
    var id := VideoId(Some(url));
    var r := ThumbnailPrefix + id + ThumbnailSuffix;
    assert r[|ThumbnailPrefix|..|r| - |ThumbnailSuffix|] == id;
    r
  }

  // ---------- a reference reading of the extraction ----------

  /** `s` up to the first occurrence of `q`, or all of `s` when there is none. */
  function Before(s: string, q: string): (r: string)
    ensures |r| <= |s| && r == s[..|r|]
    ensures r == s || OccursAt(s, q, |r|)
    ensures forall j :: 0 <= j < |r| ==> !OccursAt(s, q, j)
  {
    IndexOfSpec(s, q);
    match IndexOf(s, q)
    case None => s
    case Some(i) => s[..i]
  }

  /** The text stopped by the first `q` holds no `q`. */
  lemma BeforeFree(s: string, q: string)
    requires |q| > 0
    ensures !Contains(Before(s, q), q)
  {
    var r := Before(s, q);
    IndexOfSpec(s, q);
    if Contains(r, q) {
      var j := IndexOf(r, q).value;
      IndexOfSpec(r, q);
      OccursInPrefix(s, q, |r|, j);
      assert false;
    }
  }

  /** The value of the first `v=` parameter: what follows the first `v=`, up to the
      next `&` or the next `v=`, whichever comes first. */
  function QueryValue(url: string): Option<string> {
    match IndexOf(url, "v=")
    case None => None
    case Some(i) => Some(Before(Before(url[i + 2..], "v="), "&"))
  }

  lemma SplitHead(s: string, sep: string)
    requires |sep| > 0
    ensures Split(s, sep)[0] == Before(s, sep)
  {
    SplitFirst(s, sep);
  }

  /** The extraction returns the query value when there is a non-empty one, and
      otherwise the last `/`-separated segment: a suffix of the URL that holds no
      `/` and is the whole URL or follows a `/`. */
  lemma VideoIdMeaning(url: string)
    ensures QueryValue(url).Some? && QueryValue(url).value != "" ==>
      VideoId(Some(url)) == QueryValue(url).value
    ensures !(QueryValue(url).Some? && QueryValue(url).value != "") ==>
      IsLastPiece(url, "/", VideoId(Some(url))) && !Contains(VideoId(Some(url)), "/")
  {
    QueryPieceIsValue(url);
    SplitLast(url, "/");
  }

  /** The piece the extraction takes from the query is the query value, or `''`. */
  lemma QueryPieceIsValue(url: string)
    ensures QueryPiece(url) == if QueryValue(url).Some? then QueryValue(url).value else ""
  {
    var pieces := Split(url, "v=");
    SplitFirst(url, "v=");
    match IndexOf(url, "v=")
    case None =>
    case Some(i) =>
      var rest := url[i + 2..];
      SplitHead(rest, "v=");
      SplitHead(pieces[1], "&");
  }

  /** The query value never contains the `&` that stops it. */
  lemma QueryValueFree(url: string)
    requires QueryValue(url).Some?
    ensures !Contains(QueryValue(url).value, "&")
  {
    var i := IndexOf(url, "v=").value;
    BeforeFree(Before(url[i + 2..], "v="), "&");
  }
}
