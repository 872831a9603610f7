/** The page script's module state (the three facet selections and the cached
    video list), the two controls it reads on every redraw, and the handlers
    that change them. */
module BrowsePage {
  import opened Common
  import opened Text
  import opened Records
  import opened Browse

  class Page {
    var selectedYear: YearChoice
    var selectedGenre: string
    var selectedCategory: string
    var videosCache: seq<Video>
    /** The value of the search box. */
    var searchInput: string
    /** The value of the sort control. */
    var sortSelect: string

    /** A freshly loaded page: nothing selected, nothing cached, empty search, newest first. */
    constructor ()
      ensures selectedYear == AnyYear && selectedGenre == All && selectedCategory == All
      ensures videosCache == [] && searchInput == "" && sortSelect == "latest"
    {
      selectedYear := AnyYear;
      selectedGenre := All;
      selectedCategory := All;
      videosCache := [];
      searchInput := "";
      sortSelect := "latest";
    }

    /** `loadAndRender`: cache the list the backend returned. */
    method LoadVideos(videos: seq<Video>)
      modifies this
      ensures videosCache == videos
      ensures selectedYear == old(selectedYear) && selectedGenre == old(selectedGenre) && selectedCategory == old(selectedCategory)
      ensures searchInput == old(searchInput) && sortSelect == old(sortSelect)
    {
      videosCache := videos;
    }

    /** The user typing in the search box or choosing a sort order. */
    method EditControls(search: string, sort: string)
      modifies this
      ensures searchInput == search && sortSelect == sort
      ensures videosCache == old(videosCache)
      ensures selectedYear == old(selectedYear) && selectedGenre == old(selectedGenre) && selectedCategory == old(selectedCategory)
    {
      searchInput := search;
      sortSelect := sort;
    }

    /** `selectYear(year)`. */
    method SelectYear(year: YearChoice)
      modifies this
      ensures selectedYear == year
      ensures selectedGenre == old(selectedGenre) && selectedCategory == old(selectedCategory)
      ensures videosCache == old(videosCache) && searchInput == old(searchInput) && sortSelect == old(sortSelect)
    {
      selectedYear := year;
    }

    /** `selectGenre(genre)`. */
    method SelectGenre(genre: string)
      modifies this
      ensures selectedGenre == genre
      ensures selectedYear == old(selectedYear) && selectedCategory == old(selectedCategory)
      ensures videosCache == old(videosCache) && searchInput == old(searchInput) && sortSelect == old(sortSelect)
    {
      selectedGenre := genre;
    }

    /** `selectCategory(category)`. */
    method SelectCategory(category: string)
      modifies this
      ensures selectedCategory == category
      ensures selectedYear == old(selectedYear) && selectedGenre == old(selectedGenre)
      ensures videosCache == old(videosCache) && searchInput == old(searchInput) && sortSelect == old(sortSelect)
    {
      selectedCategory := category;
    }

    /** `resetFilters`: every facet back to `'전체'`, the search emptied, newest first. */
    method ResetFilters()
      modifies this
      ensures selectedYear == AnyYear && selectedGenre == All && selectedCategory == All
      ensures searchInput == "" && sortSelect == "latest"
      ensures videosCache == old(videosCache)
    {
      selectedYear := AnyYear;
      selectedGenre := All;
      selectedCategory := All;
      searchInput := "";
      sortSelect := "latest";
    }

    /** `renderFilters`: each facet list with the count shown beside each entry. */
    method RenderFilters() returns (years: seq<(YearChoice, nat)>, genres: seq<(string, nat)>, categories: seq<(string, nat)>)
      ensures |years| == |YearFacets(videosCache)|
      ensures forall i :: 0 <= i < |years| ==>
        years[i] == (YearFacets(videosCache)[i], YearCount(videosCache, YearFacets(videosCache)[i]))
      ensures |genres| == |ValueFacets(GenresOf(videosCache))|
      ensures forall i :: 0 <= i < |genres| ==>
        genres[i] == (ValueFacets(GenresOf(videosCache))[i], ValueCount(GenresOf(videosCache), ValueFacets(GenresOf(videosCache))[i]))
      ensures |categories| == |ValueFacets(CategoriesOf(videosCache))|
      ensures forall i :: 0 <= i < |categories| ==>
        categories[i] == (ValueFacets(CategoriesOf(videosCache))[i], ValueCount(CategoriesOf(videosCache), ValueFacets(CategoriesOf(videosCache))[i]))
    {
      var videos := videosCache;
      var ys := YearFacets(videos);
      years := seq(|ys|, i requires 0 <= i < |ys| => (ys[i], YearCount(videos, ys[i])));
      var gs := GenresOf(videos);
      var gf := ValueFacets(gs);
      genres := seq(|gf|, i requires 0 <= i < |gf| => (gf[i], ValueCount(gs, gf[i])));
      var cs := CategoriesOf(videos);
      var cf := ValueFacets(cs);
      categories := seq(|cf|, i requires 0 <= i < |cf| => (cf[i], ValueCount(cs, cf[i])));
    }

    /** `renderVideos`: the cached videos that match the search and the facets,
        sorted as the sort control says, with the section title and the count line. */
    method RenderVideos() returns (shown: seq<Video>, title: string, countLabel: string)
      ensures multiset(shown) == multiset(Filter(videosCache, searchInput, selectedYear, selectedGenre, selectedCategory))
      ensures Ordered(SortOptionOf(sortSelect), shown)
      ensures SortOptionOf(sortSelect).Unsorted? ==> shown == Filter(videosCache, searchInput, selectedYear, selectedGenre, selectedCategory)
      ensures title == SectionTitle(selectedYear, selectedCategory, selectedGenre)
      ensures countLabel == IntToString(|shown|) + "개의 영상"
    {
      var filtered := Filter(videosCache, searchInput, selectedYear, selectedGenre, selectedCategory);
      var a := new Video[|filtered|](i requires 0 <= i < |filtered| => filtered[i]);
      assert a[..] == filtered;
      SortVideos(a, SortOptionOf(sortSelect));
      shown := a[..];
      var titleParts: seq<string> := [];
      if selectedYear.Year? {
        titleParts := titleParts + [IntToString(selectedYear.year)];
      }
      if selectedCategory != All {
        titleParts := titleParts + [selectedCategory];
      }
      if selectedGenre != All {
        titleParts := titleParts + [selectedGenre];
      }
      assert titleParts == TitleParts(selectedYear, selectedCategory, selectedGenre);
      title := if |titleParts| > 0 then Join(titleParts, TitleSeparator) else AllVideos;
      countLabel := IntToString(|shown|) + "개의 영상";
    }
  }

  /** Selecting a year and then resetting shows the whole cache again, newest first. */
  method ResetScenario(videos: seq<Video>, year: int)
  {
    var page := new Page();
    page.LoadVideos(videos);
    page.SelectYear(Year(year));
    page.ResetFilters();
    var shown, title, countLabel := page.RenderVideos();
    FilterKeepsAll(videos);
    assert multiset(shown) == multiset(videos);
    assert title == AllVideos;
  }
}
