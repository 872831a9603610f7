# Film department video archive: a Dafny model of the browser front end and its storage layer

The archive is a single web page on which students browse, watch, like and
comment on each other's films. `api.js` supplies the data layer. When no
remote database client is configured, every call is served from three
`localStorage` keys:

- `videos`: an array of video documents, each holding its own like list and comment list;
- `users`: an array of accounts;
- `currentUser`: the signed-in session snapshot.

When a remote client is configured, `getVideos` groups the rows of three
queries into listing records. `script.js` is the page script. It filters,
sorts and titles the visible list, builds the facet lists with their counts,
extracts YouTube ids, escapes text for HTML, and validates the login,
sign-up and upload forms before anything is sent.

The modules:

- `Common`: `Option`, `Result` and `Outcome`, plus the sequence helpers
  (`indexOf`, `splice`, counting, sums of counts).
- `Text`: the string built-ins the source relies on: ASCII `toLowerCase`,
  `includes`, `split`, `join`, `trim`, and the decimal rendering of numbers.
- `Records`: the documents the store keeps (video, comment, account,
  session) and the error messages.
- `StoreOps`: what each local-storage branch does to the stored arrays,
  written as functions over `seq`, with the lemmas about them. The two `find`
  calls of the source are `FindVideoIndex` and `FindCredentials`.
- `LikeLists`: a toggle on one like list and what repeated toggles do.
- `LocalStore`: class `Store`, whose three storage slots are fields. Each API
  operation is a method, proved against `StoreOps`. The methods also keep
  the store invariant `Valid`: distinct video ids, duplicate-free like lists,
  comments numbered 1, 2, …, and distinct user and student ids.
- `RemoteListing`: the per-video grouping of remote `getVideos`, with its
  counting loops.
- `HtmlEscape`: the fallback `escapeHtml` of the page script.
- `Youtube`: `getYoutubeVideoId` and `getYoutubeEmbedUrl`, with a reference
  reading of the extraction.
- `Browse`: the list filter, the in-place sort, the facet lists and counts,
  and the section title.
- `BrowsePage`: class `Page`, holding the page's module state and the
  handlers that change it.
- `Forms`: the checks in the login, sign-up and upload handlers.

Three methods without a contract are worked examples rather than models of
source code: `LocalStore.SignUpScenario` (a sign-up, a refused second sign-up
with the same student id, then a sign-in), `LocalStore.LikeScenario` (two
toggles on a fresh video) and `BrowsePage.ResetScenario` (a year selection,
then `resetFilters`, after which the whole cache is shown under the title
`'전체 영상'`). Their asserts are proved from the contracts of the
methods they call.

## Model

| member | source | states |
|---|---|---|
| Common.FirstIndex | api.js:251 | `indexOf` on the like list: the index found holds the value and no earlier entry does; none exactly when the value is absent |
| Common.RemoveAt | api.js:252 | `splice(idx, 1)`: the list one shorter, the entries before the index kept, those after it shifted down by one |
| StoreOps.MaxOf | api.js:154 | `Math.max` of a non-empty id list bounds every element and is one of them |
| StoreOps.NextId | api.js:154 | the id `addVideo` and `authSignUp` assign: 1 for an empty store, otherwise one past an existing id and above every id |
| StoreOps.NextIdFresh | api.js:154 | the assigned id differs from every existing id |
| StoreOps.FindVideoIndex | api.js:175 | the index `find(x => x.id === id)` stops at: a video with that id and none before it; none exactly when no video has the id |
| StoreOps.FindVideo | api.js:125-126 | `getVideo`: a video is returned exactly when some stored video has the id, and it is the first stored video with that id |
| StoreOps.CommentsOf | api.js:190-192 | `getComments`: the found video's comment list as stored, or `[]` for an unknown video |
| StoreOps.LikeCount | api.js:220-222 | `getLikeCount`: the found video's like-list length, or 0 |
| StoreOps.UserLiked | api.js:226-233 | `getUserLiked` holds exactly when the user id is truthy, the video exists and its like list includes the user |
| StoreOps.InsertVideo | api.js:153-165 | `addVideo` leaves a store one longer: at index 0 a record with the fresh id, zero views, no likes, no comments and the given time; the old records follow unchanged and in order |
| StoreOps.AddThenGet | api.js:153-165 | after `addVideo`, `getVideo` of the returned id is the new record, with no comments and like count 0 |
| StoreOps.InsertKeepsNewestFirst | api.js:163 | prepending with a clock that has not gone back keeps the store newest first |
| StoreOps.IncrementViews | api.js:174-176 | `incrementVideoViews` raises the first matching video's views by exactly one and changes no other field and no other video; an unknown id changes nothing |
| StoreOps.IncrementViewsTotal | api.js:174-176 | the store's total view count grows by one for a known id and by nothing for an unknown one |
| StoreOps.AddCommentTo | api.js:206-211 | `addComment` appends one comment numbered one past the list's length to the matching video and changes nothing else; an unknown video changes nothing |
| StoreOps.AddCommentAppends | api.js:206-211 | comment lists are append-only: `getComments` afterwards is the old list followed by exactly the new comment |
| StoreOps.AppendCommentKeepsOrder | api.js:209-210 | appending keeps comments numbered 1, 2, … and oldest first when the clock has not gone back |
| StoreOps.ToggleLikeIn | api.js:247-254 | `toggleLike` on a truthy user replaces the matching video's like list by its toggle and changes nothing else; an unknown video changes nothing |
| StoreOps.ToggleObserved | api.js:247-254 | seen through `getUserLiked` and `getLikeCount`, a toggle flips the liked state and moves the count by exactly one |
| StoreOps.InsertKeepsWellFormed | api.js:153-165 | adding a video keeps video ids distinct, like lists duplicate-free and comments numbered |
| StoreOps.IncrementKeepsWellFormed | api.js:174-176 | counting a view keeps the store well formed |
| StoreOps.AddCommentKeepsWellFormed | api.js:206-211 | adding a comment keeps the store well formed |
| StoreOps.ToggleKeepsWellFormed | api.js:247-254 | a toggle keeps every like list duplicate-free and the store well formed |
| StoreOps.FindCredentials | api.js:267 | the first account matching both student id and password; none exactly when no account matches |
| StoreOps.SignIn | api.js:266-269 | `authSignIn` succeeds exactly when an account matches both fields, returns the first such account's id, student id and name but not its password, and otherwise fails with the wrong-credentials error |
| StoreOps.SignUp | api.js:286-291 | `authSignUp` fails with the taken-id error exactly when the student id is in use; otherwise it appends the account under a fresh id and returns its session |
| StoreOps.SignUpKeepsWellFormed | api.js:287-289 | sign-up keeps user ids and student ids distinct |
| StoreOps.SignUpThenSignIn | api.js:286-291 | signing in after signing up with the same credentials returns the session sign-up returned |
| LikeLists.ToggleUser | api.js:251-253 | no contract; specified by `LikeLists.ToggleUserMeaning` and `LikeLists.ToggleUserFlips` |
| LikeLists.ToggleUserMeaning | api.js:251-253 | a toggle removes one occurrence of a present user (the list shrinks by one) and appends an absent one |
| LikeLists.ToggleUserFlips | api.js:251-253 | on a duplicate-free list a toggle flips that user's membership, leaves every other user's membership alone, changes the length by one and keeps the list duplicate-free |
| LikeLists.ToggleParity | api.js:251-253 | after any sequence of toggles by any users on a duplicate-free list, each user is in the list exactly when they were in it at the start xor they toggled an odd number of times |
| LikeLists.ToggleCountsLikers | api.js:251-253 | after any sequence of toggles by any users on a duplicate-free list, the like count equals the number of distinct likers |
| LikeLists.ToggleEachNoDup | api.js:251-253 | any sequence of toggles by any users keeps a duplicate-free like list duplicate-free |
| LocalStore.Store.constructor | api.js:43-51 | a browser with none of the three keys stored |
| LocalStore.Store.InitLocalStorage | api.js:43-51 | each missing array key is written as `[]`; stored arrays and the session are kept |
| LocalStore.Store.GetVideos | api.js:87-88 | initialises the store and returns the stored videos |
| LocalStore.Store.GetVideo | api.js:125-126 | returns `FindVideo` of the stored array |
| LocalStore.Store.AddVideo | api.js:153-165 | returns the fresh id, writes `InsertVideo` of the old array, touches no other key and keeps `Valid`; afterwards `getVideo` of the id is the new record, with no comments and like count 0 |
| LocalStore.Store.IncrementVideoViews | api.js:174-176 | writes `IncrementViews` for a known id, writes nothing otherwise, and keeps `Valid`; the total view count grows by one for a known id and stays put otherwise |
| LocalStore.Store.GetComments | api.js:190-192 | returns `CommentsOf` of the stored array |
| LocalStore.Store.AddComment | api.js:206-211 | writes `AddCommentTo` for a known video, writes nothing otherwise, and keeps `Valid`; for a known video `getComments` afterwards is the old list plus the new comment numbered one past its length |
| LocalStore.Store.GetLikeCount | api.js:220-222 | returns `LikeCount` of the stored array |
| LocalStore.Store.GetUserLiked | api.js:226-233 | returns `UserLiked` of the stored array; a falsy user gets `false` before anything is read |
| LocalStore.Store.ToggleLike | api.js:237-254 | a falsy user fails with the login error and nothing is written; an unknown video is left alone; otherwise writes `ToggleLikeIn`; keeps `Valid`; on a valid store, for a signed-in user and a known video, `getUserLiked` flips and `getLikeCount` moves by one in the matching direction |
| LocalStore.Store.AuthSignIn | api.js:266-269 | returns `SignIn` of the stored accounts |
| LocalStore.Store.AuthSignUp | api.js:286-291 | a taken student id fails and nothing is written; otherwise writes the extended account array and returns its session; keeps `Valid`; after a success, `authSignIn` with the same student id and password returns that session |
| LocalStore.Store.AuthSignOut | api.js:296 | removes the session and nothing else |
| LocalStore.Store.GetCurrentUser | api.js:306-311 | returns the stored session, or none |
| LocalStore.Store.SetCurrentUserLocal | api.js:314-316 | stores the session and nothing else |
| RemoteListing.FailureMessage | api.js:63 | the thrown message is the query's own message when it is present and non-empty, otherwise the default |
| RemoteListing.CountByVideo | api.js:65-68 | the count kept for each video id is the number of rows carrying it, and only ids that occur have entries |
| RemoteListing.RowVideo | api.js:69-85 | one row becomes a record with the renamed columns, views defaulting to 0, and placeholder like and comment arrays of the counted lengths |
| RemoteListing.ListVideos | api.js:61-85 | a failed video query throws its message; otherwise one record per row in row order, with like and comment arrays as long as the number of rows for that video id (0 if none); with distinct row ids, the placeholders add up to the like and comment rows of listed videos |
| RemoteListing.ListingSums | api.js:82-83 | with distinct row ids the total placeholder length is the number of rows that belong to listed videos |
| HtmlEscape.Escape | script.js:7 | `null` and `undefined` become the empty string |
| HtmlEscape.EscapeIsPerChar | script.js:7 | the four passes in their order (`&` first) equal escaping each character on its own, so no entity is escaped twice |
| HtmlEscape.EscapeNoMarkup | script.js:7 | the output contains no `<`, `>` or `"` |
| HtmlEscape.EscapeIdentity | script.js:7 | text without any of the four characters comes back unchanged |
| HtmlEscape.EscapeRoundTrip | script.js:7 | decoding the four entities gives back the original text, so the browser shows what was typed |
| Youtube.ExtractId | script.js:42 | no contract; specified by `Youtube.VideoIdMeaning` |
| Youtube.QueryPiece | script.js:42 | no contract; specified by `Youtube.QueryPieceIsValue` |
| Youtube.VideoId | script.js:40-44 | a missing URL, which makes `split` throw, gives the empty string |
| Youtube.EmbedUrl | script.js:33-38 | the embed URL is the embed prefix followed by the id `getYoutubeVideoId` extracts; a missing URL is handed back |
| Youtube.Before | script.js:42 | a prefix of the text that is all of it or is stopped by an occurrence of the separator, with no occurrence of the separator starting inside it, so the stop is the first one |
| Youtube.BeforeFree | script.js:42 | the text stopped by the first separator does not contain it |
| Youtube.QueryValue | script.js:42 | no contract; the reference reading of the query value that `Youtube.QueryPieceIsValue` and `Youtube.QueryValueFree` are about |
| Youtube.AutoThumbnail | script.js:521 | the automatic thumbnail URL is the thumbnail prefix, an id and the `maxresdefault.jpg` suffix, and that id is the one the embedded player for the same URL uses |
| Youtube.QueryPieceIsValue | script.js:42 | `url.split('v=')[1]?.split('&')[0]` is what follows the first `v=`, up to the next `&` or `v=`, or `''` when there is no `v=` |
| Youtube.VideoIdMeaning | script.js:40-44 | the extraction returns the non-empty query value; otherwise it returns the last `/`-separated segment: a suffix of the URL that contains no `/` and is the whole URL or follows a `/` |
| Youtube.QueryValueFree | script.js:42 | the query value never contains `&` |
| Browse.MatchesSearch | script.js:272 | no contract; specified by `Browse.Filter` and `Browse.SearchIgnoresCase` |
| Browse.Matches | script.js:271-277 | no contract; the predicate `Browse.Filter` and `Browse.FilterMultiset` select by |
| Browse.Filter | script.js:271-277 | the filter result is an order-preserving subsequence of the cache, and a video is in it exactly when it matches the search and the three facet selections |
| Browse.FilterMultiset | script.js:271-277 | the filter keeps each matching video as many times as the cache holds it and drops every other one |
| Browse.FilterKeepsAll | script.js:271-277 | with an empty search and every facet at `'전체'` the whole cache is shown, in order |
| Browse.FilterIdempotent | script.js:271-277 | filtering twice with the same selections is filtering once |
| Browse.SearchIgnoresCase | script.js:268-272 | the search ignores the case of the query |
| Browse.SortOptionOf | script.js:279-282 | no contract; the four option values and the fall-through, specified through `Browse.SortVideos` |
| Browse.SortKey | script.js:279-282 | no contract; the comparator keys, specified by `Browse.KeySortedOrdered` |
| Browse.SortVideos | script.js:279-282 | the in-place sort produces a permutation of the filtered list, ordered by the option (`latest`, `oldest`, `views`, `likes`); an unknown option leaves the list as it is |
| Browse.InsertNext | script.js:279-282 | one insertion step extends the sorted prefix by one element and keeps the contents |
| Browse.KeySortedOrdered | script.js:279-282 | a list sorted by the option's key is ordered as the option says |
| Browse.DescendingDistinct | script.js:212 | the intended year list (the de-duplicated years sorted newest first; see Findings) is strictly descending, and a year is in it exactly when some video has it |
| Browse.Distinct | script.js:213-214 | the distinct values of a list: each once, and exactly the values of the list; their first-occurrence order is stated by `Browse.DistinctFirstOccurrenceOrder` |
| Browse.DistinctFirstOccurrenceOrder | script.js:213-214 | distinct values appear in the order of their first occurrence |
| Browse.YearFacets | script.js:212 | the intended year list: `'전체'`, then each year of the cache once, strictly descending |
| Browse.ValueFacets | script.js:213-214 | the intended genre or category list: `'전체'`, then each value once, exactly the values that occur; the order of first occurrence is stated of `Browse.Distinct` by `Browse.DistinctFirstOccurrenceOrder` |
| Browse.YearCount | script.js:217 | no contract; specified by `Browse.YearCountIsSelection` and `Browse.YearCountsPartition` |
| Browse.ValueCount | script.js:222-226 | no contract; specified by `Browse.GenreCountIsSelection`, `Browse.CategoryCountIsSelection` and `Browse.ValueCountsPartition` |
| Browse.YearCountIsSelection | script.js:217 | the count beside a year is the number of videos shown when that year alone is selected; beside `'전체'` it is the total |
| Browse.GenreCountIsSelection | script.js:222 | the count beside a genre is the number of videos shown with that genre alone selected |
| Browse.CategoryCountIsSelection | script.js:226 | the count beside a category is the number of videos shown with that category alone selected |
| Browse.YearCountsPartition | script.js:212-217 | the counts beside the years (not `'전체'`) add up to the number of videos, and the count beside `'전체'` is that total |
| Browse.ValueCountsPartition | script.js:213-226 | the counts beside the values (not `'전체'`) add up to the number of videos, and the count beside `'전체'` is that total |
| Browse.SliceOfSet | script.js:212-214 | no contract; `[].slice.call` of a `Set`, the as-written half of the Findings row, specified by `Browse.FacetsAsWrittenDropValues` |
| Browse.YearFacetsAsWritten | script.js:212 | no contract; the year list as written, specified by `Browse.FacetsAsWrittenDropValues` |
| Browse.ValueFacetsAsWritten | script.js:213-214 | no contract; the genre and category lists as written, specified by `Browse.FacetsAsWrittenDropValues` |
| Browse.FacetsAsWrittenDropValues | script.js:212-214 | on a non-empty cache the lists as written are `'전체'` alone, and the year, genre and category of a cached video are missing from them but present in the intended lists |
| Browse.YearOffered | script.js:212 | every cached video's year is offered in the intended list |
| Browse.ValueOffered | script.js:213-214 | every cached value is offered in the intended list |
| Browse.TitleParts | script.js:284-287 | the title parts are the selections other than `'전체'`, in the order year, category, genre |
| Browse.SectionTitle | script.js:288 | no contract; specified by `Browse.SectionTitleMeaning` |
| Browse.SectionTitleMeaning | script.js:288 | with nothing selected the title is `'전체 영상'`; otherwise, when the selections contain no `>`, splitting the title at `' > '` gives back exactly the title parts |
| BrowsePage.Page.constructor | script.js:10-15 | on load, every facet is `'전체'` and the cache is empty; the empty search box and the `latest` sort are assumed starting values of the page's controls |
| BrowsePage.Page.LoadVideos | script.js:95 | the list the backend returned becomes the cache; the selections are kept |
| BrowsePage.Page.SelectYear | script.js:235-239 | sets the year selection and nothing else |
| BrowsePage.Page.SelectGenre | script.js:241-245 | sets the genre selection and nothing else |
| BrowsePage.Page.SelectCategory | script.js:247-251 | sets the category selection and nothing else |
| BrowsePage.Page.ResetFilters | script.js:253-261 | every facet back to `'전체'`, the search emptied, the sort back to `latest`, the cache kept |
| BrowsePage.Page.RenderFilters | script.js:210-227 | the year, genre and category lists (the corrected lists of the Findings row), each entry paired with the count shown beside it: the whole cache for `'전체'`, otherwise the videos with that value |
| BrowsePage.Page.EditControls | script.js:268-269 | typing a search and choosing a sort set those two controls and change nothing else |
| BrowsePage.Page.RenderVideos | script.js:267-289 | the shown list is a permutation of the filtered cache ordered by the sort option (the filtered list itself for an unknown option); the section title and the `'<n>개의 영상'` count line |
| Forms.CheckLogin | script.js:137-143 | the login form passes exactly when the trimmed student id has 8 characters, and passes the trimmed id and the untrimmed password |
| Forms.CheckSignUp | script.js:160-176 | sign-up passes exactly when the trimmed id has 8 characters, the password at least 6 and the confirmation matches; the first failing check, in that order, names the error |
| Forms.SignUpPassesLogin | script.js:160-176 | credentials the sign-up form accepts pass the login form, with the same trimmed id |
| Forms.LoginOfTrimmed | script.js:137 | the login check gives the same answer on an id that was already trimmed |
| Forms.CheckUpload | script.js:495-535 | the upload passes exactly when title, URL, duration and description are non-empty after trimming, the URL names YouTube, and a chosen custom thumbnail was loaded; the errors come in that order; the record carries the trimmed fields, the signed-in user as director, and either the automatic YouTube thumbnail or the loaded one |
| Forms.UploadResubmit | script.js:495-535 | submitting again the fields of an accepted upload gives the same record |
| Text.Lower | script.js:268-272 | `toLowerCase` keeps the length and lower-cases each character |
| Text.LowerIdempotent | script.js:268-272 | lower-casing leaves no upper-case letter and twice is once |
| Text.IndexOf | script.js:42 | string `indexOf`, the search `split` performs: a position found leaves room for the searched text; that it is the first occurrence is `Text.IndexOfSpec` |
| Text.Contains | script.js:272 | no contract; `includes` as an `indexOf` that finds something, so it is specified by `Text.IndexOfSpec` |
| Text.Split | script.js:42 | `split` with a non-empty separator gives at least one piece; specified by `Text.JoinSplit`, `Text.SplitPiecesFree` and `Text.SplitLast` |
| Text.Join | script.js:288 | no contract; specified by `Text.JoinSplit` and `Text.SplitJoinMarked` |
| Text.IndexOfSpec | script.js:42 | the index found is the first occurrence; none is found exactly when there is none |
| Text.JoinSplit | script.js:42 | joining the pieces of a split with the same separator gives back the text |
| Text.SplitPiecesFree | script.js:42 | no piece of a split contains the separator |
| Text.SplitLast | script.js:42 | the last piece (`pop()`) is a suffix containing no separator, either the whole text or following a separator |
| Text.SplitJoinMarked | script.js:288 | splitting at a separator the parts cannot contain undoes the join |
| Text.Trim | script.js:137 | `trim()` is a contiguous slice with only whitespace cut off both ends |
| Text.TrimIdempotent | script.js:137 | trimming twice is trimming once |
| Text.NatToDecimal | script.js:285-289 | a number renders as digits with no leading zero |
| Text.DecimalRoundTrip | script.js:285-289 | reading back the rendered digits gives the number |
| Text.IntToString | script.js:285-288 | no contract; `String(n)`, specified by `Text.NatToDecimal`, `Text.DecimalRoundTrip` and `Text.IntToStringInjective` |
| Text.IntToStringInjective | script.js:285 | distinct years render as distinct strings |

## Left out

- The remote branches of `api.js`, except the grouping of `getVideos`. They go through a database client whose code is not part of this model. This includes the remote `getVideo`, the `getProfile` helper and the DOM-based `escapeHtml` of `api.js:31-36`.
- `localStorage` and JSON. The keys are fields of `Store`, and serialisation is taken to round-trip. A JSON reading that fails at `api.js:308-311` is not modelled, and the session is stored as given.
- The clock. `new Date().toISOString()` becomes a `now` parameter, and `createdAt` is an integer timestamp. The `created_at` sort of the remote query is not modelled.
- `Promise` and `async`. Interleaved calls and races are not modelled.
- The DOM: rendering, modals, messages, loading states and the click handlers' redraws. `RenderVideos` returns the values written into the page; `RenderFilters` returns the corrected facet lists, not the ones written by the code as it stands. `Page.EditControls` stands in for typing into the search box and choosing a sort order. `loadAndRender` is modelled only as its cache update at `script.js:95`.
- The `FileReader` handling of custom thumbnails. The loaded data URL is an `Option` in the form.
- Text.Lower: lower-cases only ASCII letters. JavaScript's `toLowerCase` is Unicode-aware.
- Text.Trim: covers the ECMAScript white-space and line-terminator characters up to U+FFFF.
- Forms.CheckLogin and Forms.CheckSignUp: count the lengths of the student id and the password in code points, where JavaScript's `length` counts UTF-16 code units, so a character outside the Basic Multilingual Plane counts once here and twice in the source.
- BrowsePage.Page.RenderFilters: renders the corrected facet lists of the Findings row, not the `['전체']` alone that script.js:212-214 as written produces.
- Browse.SortVideos: does not prove the stability that `Array.prototype.sort` guarantees. The result is proved to be an ordered permutation only.
- Missing fields (`v.likes || []`, `v.comments || []`, `video.title || ''`) are not modelled. Every record has every field. `views` defaults to 0 only in the remote grouping, where `row.views || 0` is modelled.
- Upload year: `parseInt` of the year field is not modelled. The year is given as an integer.
- Ids: video and user ids are integers, and the remote UUID user ids are not modelled. A like list holds `null` only as the placeholder of remote listing records.
- `escapeHtml` of a non-string: `String(s)` on a number or an object is not modelled. The input is `null`/`undefined` or a string.
- Browse.ValueCountsPartition: requires that no video's genre or category is literally `'전체'`. Such a value would be counted twice, once as the total and once as itself.
- Only the remote `addVideo` refuses a caller who is not signed in (api.js:132); the local branch does not, and the model follows it.
- Forms.CheckUpload: takes the signed-in session as a parameter. `submitUpload` dereferences `currentUser`, and the throw it produces when nobody is signed in is not modelled.
- The local `getVideo` does not initialise the store first, unlike `getVideos`, and the model follows it.
- StoreOps.UserLiked: returns `false` for an unknown video. `v && ...` yields `undefined` there, which callers read as false.

## Findings

| source | as written | input that shows it | evidently intended | confidence | as-written member | corrected member |
|---|---|---|---|---|---|---|
| script.js:212-214 | `[].slice.call(new Set(...))` reads the `length` of a `Set`, which is undefined, so it yields `[]`. Each facet list is therefore `['전체']` alone | a cache with one video of year 2024, genre `드라마`, category `단편`; the year list shown is only `'전체'` | the distinct years in descending order, and the distinct genres and categories in first-occurrence order, each after `'전체'` | high, not executed | Browse.FacetsAsWrittenDropValues | Browse.YearFacets, Browse.ValueFacets |
