/** The browse logic of the page script: the list filter, the sort options, the
    facet lists with their counts, and the section title. */
module Browse {
  import opened Common
  import opened Text
  import opened Records

  /** The facet value that selects everything. */
  const All: string := "전체"
  /** The section title when no facet is selected. */
  const AllVideos: string := "전체 영상"
  const TitleSeparator: string := " > "

  /** `selectedYear`: the string `'전체'` or a year number. */
  datatype YearChoice = AnyYear | Year(year: int)

  // ---------- filter ----------

  /** `matchSearch`: the lower-cased query occurs in the lower-cased title or director. */
  predicate MatchesSearch(v: Video, query: string) {
    var q := Lower(query);
    Contains(Lower(v.info.title), q) || Contains(Lower(v.info.director), q)
  }

  /** The filter predicate of `renderVideos`. */
  predicate Matches(v: Video, query: string, year: YearChoice, genre: string, category: string) {
    MatchesSearch(v, query) &&
    (year.AnyYear? || v.info.year == year.year) &&
    (genre == All || v.info.genre == genre) &&
    (category == All || v.info.category == category)
  }

  /** `videosCache.filter(...)`: the matching videos, in cache order. */
  function Filter(vs: seq<Video>, query: string, year: YearChoice, genre: string, category: string): (r: seq<Video>)
    ensures IsSubsequence(r, vs)
    ensures forall v :: v in r <==> v in vs && Matches(v, query, year, genre, category)
  {
    if vs == [] then []
    else
      var rest := Filter(vs[1..], query, year, genre, category);
      assert vs == [vs[0]] + vs[1..];
      if Matches(vs[0], query, year, genre, category) then
        assert ([vs[0]] + rest)[1..] == rest;
        [vs[0]] + rest
      else rest
  }

  /** Every matching video is kept as often as it occurs, every other one dropped. */
  lemma {:induction false} FilterMultiset(vs: seq<Video>, query: string, year: YearChoice, genre: string, category: string)
    ensures forall v :: multiset(Filter(vs, query, year, genre, category))[v] ==
                        (if Matches(v, query, year, genre, category) then multiset(vs)[v] else 0)
  {
    if vs != [] {
      FilterMultiset(vs[1..], query, year, genre, category);
      assert vs == [vs[0]] + vs[1..];
      assert multiset(vs) == multiset{vs[0]} + multiset(vs[1..]);
    }
  }

  lemma ContainsEmpty(s: string)
    ensures Contains(s, "")
  {
    assert "" <= s;
  }

  /** An empty search with every facet at `'전체'` shows the whole cache. */
  lemma {:induction false} FilterKeepsAll(vs: seq<Video>)
    ensures Filter(vs, "", AnyYear, All, All) == vs
  {
    if vs != [] {
      assert Lower("") == "";
      ContainsEmpty(Lower(vs[0].info.title));
      FilterKeepsAll(vs[1..]);
    }
  }

  /** Filtering twice with the same choices is filtering once. */
  lemma {:induction false} FilterIdempotent(vs: seq<Video>, query: string, year: YearChoice, genre: string, category: string)
    ensures Filter(Filter(vs, query, year, genre, category), query, year, genre, category) ==
            Filter(vs, query, year, genre, category)
  {
    if vs != [] {
      var rest := Filter(vs[1..], query, year, genre, category);
      FilterIdempotent(vs[1..], query, year, genre, category);
      if Matches(vs[0], query, year, genre, category) {
        assert ([vs[0]] + rest)[1..] == rest;
      }
    }
  }

  /** The search ignores the case of the query. */
  lemma SearchIgnoresCase(v: Video, query: string)
    ensures MatchesSearch(v, query) <==> MatchesSearch(v, Lower(query))
  {
    LowerIdempotent(query);
  }

  // ---------- sort ----------

  /** The values of the sort control; any other value leaves the order alone. */
  datatype SortOption = Latest | Oldest | MostViewed | MostLiked | Unsorted

  function SortOptionOf(value: string): SortOption {
    if value == "latest" then Latest
    else if value == "oldest" then Oldest
    else if value == "views" then MostViewed
    else if value == "likes" then MostLiked
    else Unsorted
  }

  /** The number each comparator subtracts: ordering by it ascending is what the
      comparator asks for. */
  function SortKey(option: SortOption, v: Video): int {
    match option
    case Latest => -v.createdAt
    case Oldest => v.createdAt
    case MostViewed => -v.views
    case MostLiked => -|v.likes|
    case Unsorted => 0
  }

  /** The order each option promises. */
  predicate Ordered(option: SortOption, s: seq<Video>) {
    match option
    case Latest => forall p, q :: 0 <= p < q < |s| ==> s[p].createdAt >= s[q].createdAt
    case Oldest => forall p, q :: 0 <= p < q < |s| ==> s[p].createdAt <= s[q].createdAt
    case MostViewed => forall p, q :: 0 <= p < q < |s| ==> s[p].views >= s[q].views
    case MostLiked => forall p, q :: 0 <= p < q < |s| ==> |s[p].likes| >= |s[q].likes|
    case Unsorted => true
  }

  predicate KeySorted(option: SortOption, s: seq<Video>, n: nat)
    requires n <= |s|
  {
    forall p, q :: 0 <= p < q < n ==> SortKey(option, s[p]) <= SortKey(option, s[q])
  }

  lemma KeySortedOrdered(option: SortOption, s: seq<Video>)
    requires KeySorted(option, s, |s|)
    ensures Ordered(option, s)
  {
    match option
    case Latest =>
      forall p, q | 0 <= p < q < |s| ensures s[p].createdAt >= s[q].createdAt {
        assert SortKey(option, s[p]) <= SortKey(option, s[q]);
      }
    case Oldest =>
    case MostViewed =>
      forall p, q | 0 <= p < q < |s| ensures s[p].views >= s[q].views {
        assert SortKey(option, s[p]) <= SortKey(option, s[q]);
      }
    case MostLiked =>
      forall p, q | 0 <= p < q < |s| ensures |s[p].likes| >= |s[q].likes| {
        assert SortKey(option, s[p]) <= SortKey(option, s[q]);
      }
    case Unsorted =>
  }

  /** `filtered.sort(comparator)`: an insertion sort by the option's key, in place;
      an unknown option sorts nothing. */
  method SortVideos(a: array<Video>, option: SortOption)
    modifies a
    ensures multiset(a[..]) == multiset(old(a[..]))
    ensures Ordered(option, a[..])
    ensures option.Unsorted? ==> a[..] == old(a[..])
  {
    if option.Unsorted? {
      return;
    }
    var i := 0;
    while i < a.Length
      invariant 0 <= i <= a.Length
      invariant KeySorted(option, a[..], i)
      invariant multiset(a[..]) == multiset(old(a[..]))
    {
      InsertNext(a, option, i);
      i := i + 1;
    }
    KeySortedOrdered(option, a[..]);
  }

  /** During an insertion step: the prefix up to `n` is in key order except for
      the moving element at `j`. */
  predicate SortedExcept(option: SortOption, s: seq<Video>, n: nat, j: nat)
    requires n < |s|
  {
    forall p, q :: 0 <= p < q <= n && p != j && q != j ==> SortKey(option, s[p]) <= SortKey(option, s[q])
  }

  /** The moving element at `j` has a smaller key than everything it has passed. */
  predicate BelowPassed(option: SortOption, s: seq<Video>, n: nat, j: nat)
    requires j <= n < |s|
  {
    forall q :: j < q <= n ==> SortKey(option, s[j]) < SortKey(option, s[q])
  }

  lemma StartStep(option: SortOption, s: seq<Video>, n: nat)
    requires n < |s| && KeySorted(option, s, n)
    ensures SortedExcept(option, s, n, n) && BelowPassed(option, s, n, n)
  {
  }

  /** Swapping the moving element with a larger left neighbour keeps both
      properties, one position further left. */
  lemma SwapStep(option: SortOption, s: seq<Video>, n: nat, j: nat)
    requires 0 < j <= n < |s|
    requires SortedExcept(option, s, n, j) && BelowPassed(option, s, n, j)
    requires SortKey(option, s[j - 1]) > SortKey(option, s[j])
    ensures var t := s[j - 1 := s[j]][j := s[j - 1]];
      SortedExcept(option, t, n, j - 1) && BelowPassed(option, t, n, j - 1) &&
      multiset(t) == multiset(s)
  {
    var t := s[j - 1 := s[j]][j := s[j - 1]];
    forall p, q | 0 <= p < q <= n && p != j - 1 && q != j - 1
      ensures SortKey(option, t[p]) <= SortKey(option, t[q])
    {
      if p == j {
        assert t[p] == s[j - 1];
      } else if q == j {
        assert t[q] == s[j - 1] && t[p] == s[p];
        assert SortKey(option, s[p]) <= SortKey(option, s[j - 1]);
      }
    }
  }

  /** When the moving element has stopped, the prefix up to `n` is in key order. */
  lemma StopStep(option: SortOption, s: seq<Video>, n: nat, j: nat)
    requires j <= n < |s|
    requires SortedExcept(option, s, n, j) && BelowPassed(option, s, n, j)
    requires j == 0 || SortKey(option, s[j - 1]) <= SortKey(option, s[j])
    ensures KeySorted(option, s, n + 1)
  {
    forall p, q | 0 <= p < q <= n ensures SortKey(option, s[p]) <= SortKey(option, s[q]) {
      if q == j && p < j - 1 {
        assert SortKey(option, s[p]) <= SortKey(option, s[j - 1]);
      }
    }
  }

  /** One insertion step: move `a[i]` left past every larger key. */
  method InsertNext(a: array<Video>, option: SortOption, i: nat)
    requires i < a.Length && KeySorted(option, a[..], i)
    modifies a
    ensures KeySorted(option, a[..], i + 1)
    ensures multiset(a[..]) == multiset(old(a[..]))
  {
    var j := i;
    StartStep(option, a[..], i);
    while j > 0 && SortKey(option, a[j - 1]) > SortKey(option, a[j])
      invariant 0 <= j <= i
      invariant multiset(a[..]) == multiset(old(a[..]))
      invariant SortedExcept(option, a[..], i, j) && BelowPassed(option, a[..], i, j)
    {
      ghost var s := a[..];
      SwapStep(option, s, i, j);
      a[j - 1], a[j] := a[j], a[j - 1];
      assert a[..] == s[j - 1 := s[j]][j := s[j - 1]];
      j := j - 1;
    }
    StopStep(option, a[..], i, j);
  }

  // ---------- facets ----------

  function YearsOf(vs: seq<Video>): (r: seq<int>)
    ensures |r| == |vs| && forall i :: 0 <= i < |vs| ==> r[i] == vs[i].info.year
  {
    seq(|vs|, i requires 0 <= i < |vs| => vs[i].info.year)
  }

  function GenresOf(vs: seq<Video>): (r: seq<string>)
    ensures |r| == |vs| && forall i :: 0 <= i < |vs| ==> r[i] == vs[i].info.genre
  {
    seq(|vs|, i requires 0 <= i < |vs| => vs[i].info.genre)
  }

  function CategoriesOf(vs: seq<Video>): (r: seq<string>)
    ensures |r| == |vs| && forall i :: 0 <= i < |vs| ==> r[i] == vs[i].info.category
  {
    seq(|vs|, i requires 0 <= i < |vs| => vs[i].info.category)
  }

  predicate StrictlyDescending(xs: seq<int>) {
    forall i, j :: 0 <= i < j < |xs| ==> xs[i] > xs[j]
  }

  /** Insert `x` into a strictly descending list, dropping it when already there. */
  function InsertDescending(x: int, ys: seq<int>): (r: seq<int>)
    requires StrictlyDescending(ys)
    ensures StrictlyDescending(r)
    ensures forall y :: y in r <==> y == x || y in ys
  {
    if ys == [] then [x]
    else if x > ys[0] then [x] + ys
    else if x == ys[0] then ys
    else
      var rest := InsertDescending(x, ys[1..]);
      assert forall k :: 0 <= k < |rest| ==> rest[k] < ys[0] by {
        forall k | 0 <= k < |rest| ensures rest[k] < ys[0] {
          assert rest[k] in rest;
        }
      }
      [ys[0]] + rest
  }

  /** `new Set(years)` sorted by `(a, b) => b - a`: each year once, largest first. */
  function DescendingDistinct(xs: seq<int>): (r: seq<int>)
    ensures StrictlyDescending(r)
    ensures forall y :: y in r <==> y in xs
  {
    if xs == [] then [] else InsertDescending(xs[0], DescendingDistinct(xs[1..]))
  }

  /** `Array.from(new Set(xs))`: each value once, in first-occurrence order. */
  function Distinct<T(==)>(xs: seq<T>): (r: seq<T>)
    ensures NoDup(r)
    ensures forall i :: 0 <= i < |r| ==> r[i] in xs
    ensures forall i :: 0 <= i < |xs| ==> xs[i] in r
  {
    if xs == [] then []
    else
      var init := xs[..|xs| - 1];
      var d := Distinct(init);
      assert xs == init + [xs[|xs| - 1]];
      if xs[|xs| - 1] in init then d else d + [xs[|xs| - 1]]
  }

  /** Where `x` first occurs in `xs`. */
  function Position<T(==)>(xs: seq<T>, x: T): nat
    requires x in xs
  {
    FirstIndex(xs, x).value
  }

  lemma {:induction false} PositionAppend<T>(xs: seq<T>, y: T, x: T)
    requires x in xs
    ensures x in xs + [y] && Position(xs + [y], x) == Position(xs, x)
  {
    var k := Position(xs, x);
    assert (xs + [y])[k] == x;
    forall j | 0 <= j < k ensures (xs + [y])[j] != x {
      assert (xs + [y])[j] == xs[j];
    }
  }

  /** The distinct values keep the order in which they first occur. */
  lemma {:induction false} DistinctFirstOccurrenceOrder<T>(xs: seq<T>)
    ensures forall i, j :: 0 <= i < j < |Distinct(xs)| ==>
      Position(xs, Distinct(xs)[i]) < Position(xs, Distinct(xs)[j])
  {
    if xs != [] {
      var init, last := xs[..|xs| - 1], xs[|xs| - 1];
      var d := Distinct(init);
      assert xs == init + [last];
      DistinctFirstOccurrenceOrder(init);
      forall k | 0 <= k < |d| ensures Position(xs, d[k]) == Position(init, d[k]) {
        PositionAppend(init, last, d[k]);
      }
      if last !in init {
        assert Position(xs, last) == |init| by {
          assert xs[|init|] == last;
        }
      }
    }
  }

  /** The year facets: `'전체'`, then each year of the cache once, largest first. */
  function YearFacets(vs: seq<Video>): (r: seq<YearChoice>)
    ensures |r| >= 1 && r[0] == AnyYear
    ensures forall i :: 1 <= i < |r| ==> r[i].Year?
    ensures forall i, j :: 1 <= i < j < |r| ==> r[i].Year? && r[j].Year? && r[i].year > r[j].year
    ensures forall y :: Year(y) in r <==> y in YearsOf(vs)
  {
    var ys := DescendingDistinct(YearsOf(vs));
    var choices := seq(|ys|, i requires 0 <= i < |ys| => Year(ys[i]));
    assert forall y :: Year(y) in choices <==> y in ys by {
      forall y ensures Year(y) in choices <==> y in ys {
        if y in ys {
          var k :| 0 <= k < |ys| && ys[k] == y;
          assert choices[k] == Year(y);
        }
      }
    }
    [AnyYear] + choices
  }

  /** The genre or category facets: `'전체'`, then each value once, in
      first-occurrence order (the order is `DistinctFirstOccurrenceOrder`). */
  function ValueFacets(values: seq<string>): (r: seq<string>)
    ensures |r| >= 1 && r[0] == All
    ensures NoDup(r[1..])
    ensures forall g :: g in r[1..] <==> g in values
  {
    var d := Distinct(values);
    assert ([All] + d)[1..] == d;
    [All] + d
  }

  /** The count beside a year facet: the whole cache for `'전체'`, otherwise the
      videos of that year. */
  function YearCount(vs: seq<Video>, y: YearChoice): nat {
    match y
    case AnyYear => |vs|
    case Year(n) => Count(YearsOf(vs), n)
  }

  /** The count beside a genre or category facet. */
  function ValueCount(values: seq<string>, g: string): nat {
    if g == All then |values| else Count(values, g)
  }

  lemma {:induction false} CountPrepend<T>(a: T, xs: seq<T>, x: T)
    ensures Count([a] + xs, x) == (if a == x then 1 else 0) + Count(xs, x)
    decreases |xs|
  {
    if xs != [] {
      var init := xs[..|xs| - 1];
      assert ([a] + xs)[..|[a] + xs| - 1] == [a] + init;
      CountPrepend(a, init, x);
    }
  }

  /** The count beside a year is the number of videos that selecting the year
      (with an empty search and the other facets at `'전체'`) shows. */
  lemma {:induction false} YearCountIsSelection(vs: seq<Video>, y: YearChoice)
    ensures YearCount(vs, y) == |Filter(vs, "", y, All, All)|
  {
    if y.AnyYear? {
      FilterKeepsAll(vs);
    } else if vs != [] {
      YearCountIsSelection(vs[1..], y);
      assert YearsOf(vs) == [vs[0].info.year] + YearsOf(vs[1..]);
      CountPrepend(vs[0].info.year, YearsOf(vs[1..]), y.year);
      assert Lower("") == "";
      ContainsEmpty(Lower(vs[0].info.title));
    }
  }

  /** The count beside a genre is the number of videos selecting it shows. */
  lemma {:induction false} GenreCountIsSelection(vs: seq<Video>, g: string)
    ensures ValueCount(GenresOf(vs), g) == |Filter(vs, "", AnyYear, g, All)|
  {
    if g == All {
      FilterKeepsAll(vs);
    } else if vs != [] {
      GenreCountIsSelection(vs[1..], g);
      assert GenresOf(vs) == [vs[0].info.genre] + GenresOf(vs[1..]);
      CountPrepend(vs[0].info.genre, GenresOf(vs[1..]), g);
      assert Lower("") == "";
      ContainsEmpty(Lower(vs[0].info.title));
    }
  }

  /** The count beside a category is the number of videos selecting it shows. */
  lemma {:induction false} CategoryCountIsSelection(vs: seq<Video>, c: string)
    ensures ValueCount(CategoriesOf(vs), c) == |Filter(vs, "", AnyYear, All, c)|
  {
    if c == All {
      FilterKeepsAll(vs);
    } else if vs != [] {
      CategoryCountIsSelection(vs[1..], c);
      assert CategoriesOf(vs) == [vs[0].info.category] + CategoriesOf(vs[1..]);
      CountPrepend(vs[0].info.category, CategoriesOf(vs[1..]), c);
      assert Lower("") == "";
      ContainsEmpty(Lower(vs[0].info.title));
    }
  }

  /** The counts beside the individual years add up to the count beside `'전체'`:
      every video is counted under exactly one year. */
  lemma YearCountsPartition(vs: seq<Video>)
    ensures var facets := YearFacets(vs);
      Sum(seq(|facets| - 1, k requires 0 <= k < |facets| - 1 => YearCount(vs, facets[k + 1]))) == YearCount(vs, facets[0])
  {
    var facets := YearFacets(vs);
    var years := YearsOf(vs);
    var ys := DescendingDistinct(years);
    var ns := seq(|facets| - 1, k requires 0 <= k < |facets| - 1 => YearCount(vs, facets[k + 1]));
    YearFacetsShape(vs);
    forall k | 0 <= k < |ys| ensures ns[k] == Count(years, ys[k]) {
      assert facets[k + 1] == Year(ys[k]);
    }
    DistinctYearCounts(years, ns);
  }

  /** Per-year counts of the distinct years add up to the number of videos. */
  lemma DistinctYearCounts(years: seq<int>, ns: seq<nat>)
    requires |ns| == |DescendingDistinct(years)|
    requires forall k :: 0 <= k < |ns| ==> ns[k] == Count(years, DescendingDistinct(years)[k])
    ensures Sum(ns) == |years|
  {
    var ys := DescendingDistinct(years);
    assert forall i :: 0 <= i < |years| ==> years[i] in ys;
    DescendingNoDup(ys);
    PartitionCounts(ns, ys, years);
  }

  /** The year facets after `'전체'` are the distinct years, largest first. */
  lemma YearFacetsShape(vs: seq<Video>)
    ensures var ys := DescendingDistinct(YearsOf(vs));
      |YearFacets(vs)| == |ys| + 1 && forall k :: 0 <= k < |ys| ==> YearFacets(vs)[k + 1] == Year(ys[k])
  {
  }

  lemma DescendingNoDup(ys: seq<int>)
    requires StrictlyDescending(ys)
    ensures NoDup(ys)
  {
    forall i, j | 0 <= i < j < |ys| ensures ys[i] != ys[j] {
      assert ys[i] > ys[j];
    }
  }

  /** The same for genres and categories, when no video carries `'전체'` itself
      as its value. */
  lemma ValueCountsPartition(values: seq<string>)
    requires All !in values
    ensures var facets := ValueFacets(values);
      Sum(seq(|facets| - 1, k requires 0 <= k < |facets| - 1 => ValueCount(values, facets[k + 1]))) == ValueCount(values, facets[0])
  {
    var facets := ValueFacets(values);
    var d := Distinct(values);
    var ns := seq(|facets| - 1, k requires 0 <= k < |facets| - 1 => ValueCount(values, facets[k + 1]));
    assert facets == [All] + d;
    forall k | 0 <= k < |d| ensures ns[k] == Count(values, d[k]) {
      assert facets[k + 1] == d[k];
      assert d[k] in values;
    }
    PartitionCounts(ns, d, values);
  }

  // ---------- facet lists as written ----------

  /** `[].slice.call(new Set(...))`: `slice` copies `length` elements of its
      receiver, and a `Set` has no `length` property, so nothing is copied. */
  function SliceOfSet<T>(s: set<T>): seq<T> {
    []
  }

  /** The year list as the facet code builds it. */
  function YearFacetsAsWritten(vs: seq<Video>): seq<YearChoice> {
    var ys := DescendingDistinct(SliceOfSet(Elements(YearsOf(vs))));
    [AnyYear] + seq(|ys|, i requires 0 <= i < |ys| => Year(ys[i]))
  }

  /** The genre or category list as the facet code builds it. */
  function ValueFacetsAsWritten(values: seq<string>): seq<string> {
    [All] + SliceOfSet(Elements(values))
  }

  /** As written, the facet lists hold only `'전체'`, so a cache with a video of
      some year, genre and category offers none of them for selection, while the
      intended lists offer all three. */
  lemma FacetsAsWrittenDropValues(vs: seq<Video>)
    requires |vs| > 0
    ensures YearFacetsAsWritten(vs) == [AnyYear]
    ensures ValueFacetsAsWritten(GenresOf(vs)) == [All] && ValueFacetsAsWritten(CategoriesOf(vs)) == [All]
    ensures Year(vs[0].info.year) !in YearFacetsAsWritten(vs) && Year(vs[0].info.year) in YearFacets(vs)
    ensures vs[0].info.genre != All ==>
      vs[0].info.genre !in ValueFacetsAsWritten(GenresOf(vs)) && vs[0].info.genre in ValueFacets(GenresOf(vs))
    ensures vs[0].info.category != All ==>
      vs[0].info.category !in ValueFacetsAsWritten(CategoriesOf(vs)) && vs[0].info.category in ValueFacets(CategoriesOf(vs))
  {
    assert DescendingDistinct(SliceOfSet(Elements(YearsOf(vs)))) == [];
    YearOffered(vs, 0);
    ValueDropped(GenresOf(vs), 0);
    ValueDropped(CategoriesOf(vs), 0);
  }

  /** A value other than `'전체'` is missing from the list as written and offered
      by the intended one. */
  lemma ValueDropped(values: seq<string>, i: nat)
    requires i < |values|
    ensures values[i] != All ==> values[i] !in ValueFacetsAsWritten(values) && values[i] in ValueFacets(values)
  {
    assert ValueFacetsAsWritten(values) == [All];
    ValueOffered(values, i);
  }

  /** Every year in the cache is offered by the intended year list. */
  lemma YearOffered(vs: seq<Video>, i: nat)
    requires i < |vs|
    ensures Year(vs[i].info.year) in YearFacets(vs)
  {
    assert YearsOf(vs)[i] == vs[i].info.year;
  }

  /** Every value in the cache is offered by the intended genre or category list. */
  lemma ValueOffered(values: seq<string>, i: nat)
    requires i < |values|
    ensures values[i] in ValueFacets(values)
  {
    var f := ValueFacets(values);
    assert values[i] in f[1..];
  }

  // ---------- title ----------

  /** `titleParts`: the selected year (as decimal text), category and genre, in
      that order, each only when it is not `'전체'`. */
  function TitleParts(year: YearChoice, category: string, genre: string): (r: seq<string>)
    ensures |r| == (if year.Year? then 1 else 0) + (if category != All then 1 else 0) + (if genre != All then 1 else 0)
    ensures year.Year? ==> r[0] == IntToString(year.year)
    ensures category != All ==> r[if year.Year? then 1 else 0] == category
    ensures genre != All ==> r[|r| - 1] == genre
  {
    (if year.Year? then [IntToString(year.year)] else []) +
    (if category != All then [category] else []) +
    (if genre != All then [genre] else [])
  }

  /** The section title: the parts joined with `' > '`, or `'전체 영상'`. */
  function SectionTitle(year: YearChoice, category: string, genre: string): string {
    var parts := TitleParts(year, category, genre);
    if |parts| > 0 then Join(parts, TitleSeparator) else AllVideos
  }

  lemma DecimalLacksMarker(n: int)
    ensures Lacks(IntToString(n), '>')
  {
    var d := NatToDecimal(if n < 0 then -n else n);
    assert forall k :: 0 <= k < |d| ==> IsDigit(d[k]);
    if n < 0 {
      assert IntToString(n) == "-" + d;
      forall k | 0 <= k < |IntToString(n)| ensures IntToString(n)[k] != '>' {
        if k > 0 {
          assert IntToString(n)[k] == d[k - 1];
        }
      }
    }
  }

  /** With no selection the title is `'전체 영상'`; otherwise splitting the title at
      `' > '` gives back the selected parts, provided no selected name holds `>`. */
  lemma SectionTitleMeaning(year: YearChoice, category: string, genre: string)
    ensures year.AnyYear? && category == All && genre == All ==> SectionTitle(year, category, genre) == AllVideos
    ensures !(year.AnyYear? && category == All && genre == All) && Lacks(category, '>') && Lacks(genre, '>') ==>
      Split(SectionTitle(year, category, genre), TitleSeparator) == TitleParts(year, category, genre)
  {
    var parts := TitleParts(year, category, genre);
    if |parts| > 0 && Lacks(category, '>') && Lacks(genre, '>') {
      if year.Year? {
        DecimalLacksMarker(year.year);
      }
      assert forall k :: 0 <= k < |parts| ==> Lacks(parts[k], '>');
      SplitJoinMarked(parts, TitleSeparator, '>', 1);
    }
  }
}
