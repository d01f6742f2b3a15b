/**
 * The photo and video gallery: filter tabs, filtering by normalised category,
 * the full-screen slider with wrap-around navigation, and the YouTube id
 * taken from a video URL.
 */
module Gallery {
  import opened Wrappers
  import opened JsText
  import Cycle

  datatype FilterTab = FilterTab(caption: string, value: string)

  /** A gallery entry; the image assets and descriptions are not modelled. */
  datatype GalleryItem = GalleryItem(title: string, filter: Option<string>,
                                     videoUrl: Option<string>, isYoutube: bool)

  const AllPhotosValue := "all photos"
  const AllPhotos := FilterTab("All Photos", AllPhotosValue)

  const DefaultFilters := [
    AllPhotos,
    FilterTab("Videos", "videos"),
    FilterTab("Trails", "trails"),
    FilterTab("Fauna & Flora", "fauna & flora"),
    FilterTab("Camping & Accommodation", "camping & accommodation")
  ]

  /** `normalizeFilter`: `toLowerCase`, then `trim`, then every whitespace run becomes one space. */
  function NormalizeFilter(f: string): string {
    CollapseWhitespace(Trim(ToLowerCase(f)))
  }

  /** `availableFilters`: "All Photos" and the custom tabs when there are any, else the five defaults. */
  function AvailableFilters(filters: Option<seq<FilterTab>>): (r: seq<FilterTab>)
    ensures |r| >= 1 && r[0] == AllPhotos
  {
    if filters.Some? && |filters.value| > 0 then [AllPhotos] + filters.value else DefaultFilters
  }

  /** `item.filter || ""`. */
  function ItemFilter(item: GalleryItem): string {
    item.filter.GetOr("")
  }

  predicate MatchesKey(item: GalleryItem, key: string) {
    NormalizeFilter(ItemFilter(item)) == key
  }

  /** `s.filter(keep)`: the elements for which `keep` holds, in their order. */
  function Filter<T>(s: seq<T>, keep: T -> bool): (r: seq<T>)
    ensures |r| <= |s|
  {
    if s == [] then []
    else if keep(s[0]) then [s[0]] + Filter(s[1..], keep)
    else Filter(s[1..], keep)
  }

  /** The filter callback: the item's normalised category equals `key`. */
  function KeyTest(key: string): GalleryItem -> bool {
    item => MatchesKey(item, key)
  }

  /** The items whose normalised category is `key`, in order. */
  function Matching(items: seq<GalleryItem>, key: string): seq<GalleryItem> {
    Filter(items, KeyTest(key))
  }

  /** `filteredItems`. */
  function FilterItems(items: seq<GalleryItem>, activeFilter: string): seq<GalleryItem> {
    if |items| == 0 then []
    else if NormalizeFilter(activeFilter) == AllPhotosValue then items
    else Matching(items, NormalizeFilter(activeFilter))
  }

  /** `getYouTubeVideoId`; `None` stands for both `null` and `undefined`. */
  function YouTubeVideoId(url: string): Option<string> {
    if url == "" then None
    else if Contains(url, "youtube.com/watch?v=") then
      var parts := Split(url, "v=");
      if |parts| < 2 then None else Some(Split(parts[1], "&")[0])
    else if Contains(url, "youtu.be/") then
      var parts := Split(url, "youtu.be/");
      if |parts| < 2 then None else Some(Split(parts[1], "?")[0])
    else Some(Last(Split(url, "/")))
  }

  class GalleryView {
    const items: seq<GalleryItem>
    const filters: Option<seq<FilterTab>>
    var activeFilter: string
    var sliderOpen: bool
    var currentIndex: int

    ghost predicate Valid()
      reads this
    {
      currentIndex >= 0
    }

    constructor (items: seq<GalleryItem>, filters: Option<seq<FilterTab>>)
      ensures Valid()
      ensures this.items == items && this.filters == filters
      ensures activeFilter == AllPhotosValue && !sliderOpen && currentIndex == 0
    {
      this.items := items;
      this.filters := filters;
      activeFilter := AllPhotosValue;
      sliderOpen := false;
      currentIndex := 0;
    }

    function FilteredItems(): seq<GalleryItem>
      reads this`activeFilter
    {
      FilterItems(items, activeFilter)
    }

    /** `filteredItems[currentIndex]`, undefined when the index is past the end. */
    function CurrentItem(): Option<GalleryItem>
      reads this`activeFilter, this`currentIndex
    {
      if 0 <= currentIndex < |FilteredItems()| then Some(FilteredItems()[currentIndex]) else None
    }

    /** The slider is rendered only when open and there is an item at the index. */
    predicate SliderShown()
      reads this
    {
      sliderOpen && |FilteredItems()| > 0 && CurrentItem().Some?
    }

    /** A filter tab click: `setActiveFilter(filter.value)`. The slider index is kept. */
    method SelectFilter(value: string)
      modifies this`activeFilter
      ensures activeFilter == value
    {
      activeFilter := value;
    }

    /** `openSlider(index)`, called with the index of a tile of the filtered grid. */
    method OpenSlider(index: int)
      requires 0 <= index < |FilteredItems()|
      modifies this`currentIndex, this`sliderOpen
      ensures Valid() && sliderOpen && currentIndex == index
      ensures SliderShown() && CurrentItem() == Some(FilteredItems()[index])
    {
      currentIndex := index;
      sliderOpen := true;
    }

    method CloseSlider()
      modifies this`sliderOpen
      ensures !sliderOpen && !SliderShown()
    {
      sliderOpen := false;
    }

    /** `nextItem`: `(prev + 1) % filteredItems.length`. */
    method NextItem()
      requires Valid() && |FilteredItems()| > 0
      modifies this`currentIndex
      ensures Valid()
      ensures currentIndex == Cycle.Next(old(currentIndex), |FilteredItems()|)
      ensures CurrentItem().Some?
    {
      var n := |FilteredItems()|;
      Cycle.StepsStayInRange(currentIndex, n);
      currentIndex := Cycle.Next(currentIndex, n);
    }

    /** `prevItem`: `(prev - 1 + filteredItems.length) % filteredItems.length`. */
    method PrevItem()
      requires Valid() && |FilteredItems()| > 0
      modifies this`currentIndex
      ensures Valid()
      ensures currentIndex == Cycle.Prev(old(currentIndex), |FilteredItems()|)
      ensures CurrentItem().Some?
    {
      var n := |FilteredItems()|;
      Cycle.StepsStayInRange(currentIndex, n);
      currentIndex := Cycle.Prev(currentIndex, n);
    }
  }

  // ---------------------------------------------------------------------------
  // Lemmas: normalisation

  /** The shape of a normalised filter: lower case, trimmed, single-spaced. */
  predicate IsNormalized(t: string) {
    && SingleSpaced(t)
    && (t == [] || (!IsWhitespace(t[0]) && !IsWhitespace(t[|t| - 1])))
    && NoUpper(t)
  }

  /** `normalizeFilter` always yields a normalised filter. */
  lemma NormalizeShape(f: string)
    ensures IsNormalized(NormalizeFilter(f))
  {
    var l := ToLowerCase(f);
    TrimNoUpper(l);
    CollapseTrimmed(Trim(l));
  }

  /** Collapsing the whitespace of a trimmed string without capitals normalises it. */
  lemma CollapseTrimmed(t: string)
    requires NoUpper(t) && (t == [] || (!IsWhitespace(t[0]) && !IsWhitespace(t[|t| - 1])))
    ensures IsNormalized(CollapseWhitespace(t))
  {
    CollapseSingleSpaced(t);
    CollapseNoUpper(t);
    if t != [] {
      CollapseHead(t);
      CollapseLast(t);
    }
  }

  /** A normalised filter is left as it is. */
  lemma NormalizeFixed(t: string)
    requires IsNormalized(t)
    ensures NormalizeFilter(t) == t
  {
    assert ToLowerCase(t) == t;
    assert TrimStart(t) == t;
    assert TrimEnd(t) == t;
    CollapseFixed(t);
  }

  /** Normalising twice is normalising once. */
  lemma NormalizeIdempotent(f: string)
    ensures NormalizeFilter(NormalizeFilter(f)) == NormalizeFilter(f)
  {
    NormalizeShape(f);
    NormalizeFixed(NormalizeFilter(f));
  }

  /** Normalising keeps every character that is not whitespace, lowered, in its order. */
  lemma NormalizeKeepsText(f: string)
    ensures NonSpace(NormalizeFilter(f)) == ToLowerCase(NonSpace(f))
  {
    var l := ToLowerCase(f);
    NonSpaceLower(f);
    NonSpaceTrim(l);
    NonSpaceCollapse(Trim(l));
  }

  /** Spellings that differ only in the case of letters normalise to the same filter. */
  lemma NormalizeIgnoresCase(f: string, g: string)
    requires |f| == |g| && forall i :: 0 <= i < |f| ==> EqualIgnoringCase(f[i], g[i])
    ensures NormalizeFilter(f) == NormalizeFilter(g)
  {
    LowerCaseFolds(f, g);
  }

  /** Outer whitespace goes, inner runs become one space, capitals become lower case. */
  lemma NormalizeExample()
    ensures NormalizeFilter("  Fauna \t&  Flora ") == "fauna & flora"
  {
    ExampleTrimmed("  Fauna \t&  Flora ");
    ExampleCollapsed("fauna \t&  flora");
  }

  // The example's steps, one literal fact per lemma.

  lemma ExampleTrimmed(f: string)
    requires f == "  Fauna \t&  Flora "
    ensures Trim(ToLowerCase(f)) == "fauna \t&  flora"
  {
    ExampleLowered(f);
    ExampleTrimStart(ToLowerCase(f));
    ExampleTrimEnd(TrimStart(ToLowerCase(f)));
  }

  lemma ExampleLowered(f: string)
    requires f == "  Fauna \t&  Flora "
    ensures ToLowerCase(f) == "  " + ("fauna \t&  flora" + " ")
  {
  }

  lemma ExampleTrimStart(l: string)
    requires l == "  " + ("fauna \t&  flora" + " ")
    ensures TrimStart(l) == "fauna \t&  flora" + " "
  {
    TrimStartRun("  ", "fauna \t&  flora" + " ");
  }

  lemma ExampleTrimEnd(m: string)
    requires m == "fauna \t&  flora" + " "
    ensures TrimEnd(m) == "fauna \t&  flora"
  {
    TrimEndRun("fauna \t&  flora", " ");
  }

  lemma ExampleCollapsed(t: string)
    requires t == "fauna \t&  flora"
    ensures CollapseWhitespace(t) == "fauna & flora"
  {
    ExampleCollapsedHead(t);
    ExampleCollapsedTail("&  flora");
    ExampleJoined();
  }

  lemma ExampleJoined()
    ensures "fauna" + " " + "& flora" == "fauna & flora"
  {
  }

  lemma ExampleCollapsedHead(t: string)
    requires t == "fauna \t&  flora"
    ensures CollapseWhitespace(t) == "fauna" + " " + CollapseWhitespace("&  flora")
  {
    assert t == "fauna" + " \t" + "&  flora";
    CollapseRun("fauna", " \t", "&  flora");
  }

  lemma ExampleCollapsedTail(t: string)
    requires t == "&  flora"
    ensures CollapseWhitespace(t) == "& flora"
  {
    ExampleCollapsedRun(t);
    ExampleCollapsedWord();
    ExampleJoinedTail();
  }

  lemma ExampleJoinedTail()
    ensures "&" + " " + "flora" == "& flora"
  {
  }

  lemma ExampleCollapsedRun(t: string)
    requires t == "&  flora"
    ensures CollapseWhitespace(t) == "&" + " " + CollapseWhitespace("flora")
  {
    assert t == "&" + "  " + "flora";
    CollapseRun("&", "  ", "flora");
  }

  lemma ExampleCollapsedWord()
    ensures CollapseWhitespace("flora") == "flora"
  {
    CollapseNoSpace("flora");
  }

  // ---------------------------------------------------------------------------
  // Lemmas: tabs and filtering

  /** Filtering keeps the order: it distributes over concatenation. */
  lemma {:induction false} FilterAppend<T>(a: seq<T>, b: seq<T>, keep: T -> bool)
    ensures Filter(a + b, keep) == Filter(a, keep) + Filter(b, keep)
  {
    if a != [] {
      assert (a + b)[0] == a[0];
      assert (a + b)[1..] == a[1..] + b;
      FilterAppend(a[1..], b, keep);
      if keep(a[0]) {
        assert [a[0]] + (Filter(a[1..], keep) + Filter(b, keep))
            == ([a[0]] + Filter(a[1..], keep)) + Filter(b, keep);
      }
    } else {
      assert a + b == b;
    }
  }

  /** An element is kept exactly when it is in the list and passes the test. */
  lemma {:induction false} FilterMembers<T>(s: seq<T>, keep: T -> bool)
    ensures forall x :: x in Filter(s, keep) <==> x in s && keep(x)
  {
    if s != [] {
      FilterMembers(s[1..], keep);
      assert s == [s[0]] + s[1..];
    }
  }

  /** A list whose elements all pass is kept whole. */
  lemma {:induction false} FilterAllPass<T>(s: seq<T>, keep: T -> bool)
    requires forall x :: x in s ==> keep(x)
    ensures Filter(s, keep) == s
  {
    if s != [] {
      FilterAllPass(s[1..], keep);
    }
  }

  /** The items of a category are exactly the listed items whose normalised category is the key. */
  lemma MatchingMembers(items: seq<GalleryItem>, key: string)
    ensures forall x :: x in Matching(items, key) <==> x in items && MatchesKey(x, key)
  {
    FilterMembers(items, KeyTest(key));
  }

  /** The filtered list: all items for "all photos" in any spelling, otherwise exactly the matching items. */
  lemma FilterItemsMeaning(items: seq<GalleryItem>, activeFilter: string)
    ensures NormalizeFilter(activeFilter) == AllPhotosValue ==> FilterItems(items, activeFilter) == items
    ensures NormalizeFilter(activeFilter) != AllPhotosValue ==>
      FilterItems(items, activeFilter) == Matching(items, NormalizeFilter(activeFilter))
    ensures items == [] ==> FilterItems(items, activeFilter) == []
    ensures forall x :: x in FilterItems(items, activeFilter) ==> x in items
  {
    MatchingMembers(items, NormalizeFilter(activeFilter));
  }

  /** The first tab always shows the whole list, whatever the custom tabs are. */
  lemma FirstTabShowsAll(filters: Option<seq<FilterTab>>, items: seq<GalleryItem>)
    ensures FilterItems(items, AvailableFilters(filters)[0].value) == items
  {
    AllPhotosNormalized();
    NormalizeFixed(AllPhotosValue);
  }

  lemma AllPhotosNormalized()
    ensures IsNormalized(AllPhotosValue)
  {
    var t := AllPhotosValue;
    assert NoUpper(t);
    forall i | 0 <= i < |t| && i != 3
      ensures !IsWhitespace(t[i])
    {
    }
    assert t[3] == ' ' && t[4] == 'p';
  }

  /** Custom tabs follow "All Photos" in their given order; without them the five defaults are used. */
  lemma AvailableFiltersShape(filters: Option<seq<FilterTab>>)
    ensures filters.Some? && |filters.value| > 0 ==>
      |AvailableFilters(filters)| == |filters.value| + 1 && AvailableFilters(filters)[1..] == filters.value
    ensures (filters.None? || filters.value == []) ==> |AvailableFilters(filters)| == 5
    ensures (filters.None? || filters.value == []) ==>
      var r := AvailableFilters(filters);
      && r[0] == FilterTab("All Photos", "all photos")
      && r[1] == FilterTab("Videos", "videos")
      && r[2] == FilterTab("Trails", "trails")
      && r[3] == FilterTab("Fauna & Flora", "fauna & flora")
      && r[4] == FilterTab("Camping & Accommodation", "camping & accommodation")
  {
  }

  // ---------------------------------------------------------------------------
  // Lemmas: YouTube ids

  const WatchMarker := "youtube.com/watch?v="
  const ShortMarker := "youtu.be/"

  lemma ContainsExtend(s: string, t: string, u: string)
    requires Contains(s, u)
    ensures Contains(s + t, u)
  {
    var i := IndexOf(s, u).value;
    assert (s + t)[i..i + |u|] == s[i..i + |u|];
    assert MatchesAt(s + t, u, i);
  }

  /** A window that lies inside `p` reads the same in `p + q`. */
  lemma PrefixWindow(p: string, q: string, j: int, n: nat)
    requires 0 <= j && j + n <= |p|
    ensures (p + q)[j..j + n] == p[j..j + n]
  {
  }

  /** Only the empty URL has no id: every other branch finds a piece to return. */
  lemma VideoIdDefined(url: string)
    ensures YouTubeVideoId(url).None? <==> url == ""
  {
    if url != "" && Contains(url, WatchMarker) {
      ContainsWindow(url, WatchMarker, 18, "v=");
      SplitHasTwoPieces(url, "v=");
    } else if url != "" && Contains(url, ShortMarker) {
      SplitHasTwoPieces(url, ShortMarker);
    }
  }

  /** The id never holds the character its branch cuts at. */
  lemma VideoIdCut(url: string)
    requires url != ""
    ensures YouTubeVideoId(url).Some?
    ensures Contains(url, WatchMarker) ==> !Contains(YouTubeVideoId(url).value, "&")
    ensures !Contains(url, WatchMarker) && Contains(url, ShortMarker) ==>
      !Contains(YouTubeVideoId(url).value, "?")
    ensures !Contains(url, WatchMarker) && !Contains(url, ShortMarker) ==>
      !Contains(YouTubeVideoId(url).value, "/")
  {
    VideoIdDefined(url);
    if Contains(url, WatchMarker) {
      var parts := Split(url, "v=");
      SplitPiecesAvoidSeparator(parts[1], "&");
    } else if Contains(url, ShortMarker) {
      var parts := Split(url, ShortMarker);
      SplitPiecesAvoidSeparator(parts[1], "?");
    } else {
      SplitPiecesAvoidSeparator(url, "/");
    }
  }

  /** No `v=` starts inside `a` in `a + "v=" + b` when `a + "v"` holds none. */
  lemma WatchKeyFirst(a: string, b: string)
    requires !Contains(a + "v", "v=")
    ensures forall j :: 0 <= j < |a| ==> !MatchesAt(a + "v=" + b, "v=", j)
  {
    var url := a + "v=" + b;
    forall j | 0 <= j < |a|
      ensures !MatchesAt(url, "v=", j)
    {
      assert !MatchesAt(a + "v", "v=", j);
      assert url[j..j + 2] == (a + "v")[j..j + 2];
    }
  }

  /** No `youtu.be/` starts inside `a` in `a + "youtu.be/" + b` when `a + "youtu.be"` holds none. */
  lemma ShortMarkerFirst(a: string, b: string)
    requires !Contains(a + "youtu.be", ShortMarker)
    ensures forall j :: 0 <= j < |a| ==> !MatchesAt(a + ShortMarker + b, ShortMarker, j)
  {
    var url := a + ShortMarker + b;
    assert url == (a + "youtu.be") + ("/" + b);
    forall j | 0 <= j < |a|
      ensures !MatchesAt(url, ShortMarker, j)
    {
      PrefixWindow(a + "youtu.be", "/" + b, j, 9);
      assert !MatchesAt(a + "youtu.be", ShortMarker, j);
    }
  }

  /** A watch URL gives back the id after its first `v=`, when the id has no `&` and no `v=`. */
  lemma WatchUrlId(a: string, id: string)
    requires Contains(a + "v=", WatchMarker)
    requires !Contains(a + "v", "v=")
    requires !Contains(id, "v=") && '&' !in id
    ensures YouTubeVideoId(a + "v=" + id) == Some(id)
  {
    ContainsExtend(a + "v=", id, WatchMarker);
    WatchKeyFirst(a, id);
    SplitAt(a, "v=", id);
    SplitWithoutSeparator(id, "v=");
    ContainsChar(id, '&');
    SplitWithoutSeparator(id, "&");
  }

  /** A watch URL with further parameters gives back the text between its first `v=` and the next `&`. */
  lemma WatchUrlIdWithParams(a: string, id: string, rest: string)
    requires Contains(a + "v=", WatchMarker)
    requires !Contains(a + "v", "v=")
    requires !Contains(id, "v=") && '&' !in id
    ensures YouTubeVideoId(a + "v=" + id + "&" + rest) == Some(id)
  {
    var b := id + "&" + rest;
    assert a + "v=" + id + "&" + rest == (a + "v=") + b;
    ContainsExtend(a + "v=", b, WatchMarker);
    WatchKeyFirst(a, b);
    SplitAt(a, "v=", b);
    MarkerChars();
    PieceBeforeChar(id, '&', rest, "v=");
  }

  /** The first piece of `x + [c] + rest` split at `sep`, split again at `c`, is `x`. */
  lemma PieceBeforeChar(x: string, c: char, rest: string, sep: string)
    requires |sep| > 0 && c !in sep && !Contains(x, sep) && c !in x
    ensures Split(Split(x + [c] + rest, sep)[0], [c])[0] == x
  {
    SplitHeadPast(x, c, rest, sep);
    HeadBeforeChar(Split(x + [c] + rest, sep)[0], x, c);
  }

  /** A short link gives back the id after `youtu.be/`, when nothing in it has a `?`. */
  lemma ShortUrlId(a: string, id: string)
    requires !Contains(a + "youtu.be", ShortMarker)
    requires '?' !in a && '?' !in id && !Contains(id, ShortMarker)
    ensures YouTubeVideoId(a + ShortMarker + id) == Some(id)
  {
    var url := a + ShortMarker + id;
    MarkerChars();
    NoQueryNoWatch(url);
    ShortMarkerFirst(a, id);
    SplitAt(a, ShortMarker, id);
    SplitWithoutSeparator(id, ShortMarker);
    ContainsChar(id, '?');
    SplitWithoutSeparator(id, "?");
  }

  /**
   * A short link with a query gives back the text between `youtu.be/` and the
   * next `?`, provided the URL is not also a watch URL, which is tested first.
   */
  lemma ShortUrlIdWithQuery(a: string, id: string, rest: string)
    requires !Contains(a + ShortMarker + id + "?" + rest, WatchMarker)
    requires !Contains(a + "youtu.be", ShortMarker)
    requires '?' !in id && !Contains(id, ShortMarker)
    ensures YouTubeVideoId(a + ShortMarker + id + "?" + rest) == Some(id)
  {
    var b := id + "?" + rest;
    assert a + ShortMarker + id + "?" + rest == a + ShortMarker + b;
    ShortSplit(a, b);
    MarkerChars();
    PieceBeforeChar(id, '?', rest, ShortMarker);
  }

  /** The characters the markers lack, and the `?` a watch URL needs. */
  lemma MarkerChars()
    ensures '?' !in ShortMarker && '&' !in "v="
    ensures WatchMarker[17..18] == "?"
  {
  }

  /** A URL without `?` is not a watch URL. */
  lemma NoQueryNoWatch(url: string)
    requires '?' !in url
    ensures !Contains(url, WatchMarker)
  {
    ContainsChar(url, '?');
    if Contains(url, WatchMarker) {
      MarkerChars();
      ContainsWindow(url, WatchMarker, 17, "?");
    }
  }

  /** Splitting at the first `youtu.be/`, which follows `a`. */
  lemma ShortSplit(a: string, b: string)
    requires !Contains(a + "youtu.be", ShortMarker)
    ensures Split(a + ShortMarker + b, ShortMarker) == [a] + Split(b, ShortMarker)
    ensures Contains(a + ShortMarker + b, ShortMarker)
  {
    ShortMarkerFirst(a, b);
    SplitAt(a, ShortMarker, b);
    SplitHasTwoPieces(a + ShortMarker + b, ShortMarker);
  }

  /** Any other URL gives the text after its last `/`, or the whole URL when it has no `/`. */
  lemma FallbackLastSegment(url: string)
    requires url != "" && !Contains(url, WatchMarker) && !Contains(url, ShortMarker)
    ensures YouTubeVideoId(url).Some?
    ensures var r := YouTubeVideoId(url).value;
      && |r| <= |url| && url[|url| - |r|..] == r
      && '/' !in r
      && ('/' in url ==> |r| < |url| && url[|url| - |r| - 1] == '/')
      && ('/' !in url ==> r == url)
  {
    var r := Last(Split(url, "/"));
    SplitLastPiece(url, "/");
    ContainsChar(url, '/');
    ContainsChar(r, '/');
    if '/' in url {
      assert url[|url| - |r| - 1] == url[|url| - |r| - 1..|url| - |r|][0];
    }
  }

  /** The prefix of the canonical watch URL holds the marker. */
  lemma WatchPrefixMarker()
    ensures Contains(WatchHost + "v=", WatchMarker)
  {
    WatchHostSpelled();
    OccursAfter("https://www.", WatchMarker);
  }

  lemma WatchHostSpelled()
    ensures WatchHost + "v=" == "https://www." + WatchMarker
  {
  }

  /** `m` occurs in `p + m` right after `p`. */
  lemma OccursAfter(p: string, m: string)
    ensures MatchesAt(p + m, m, |p|)
  {
    assert (p + m)[|p|..|p| + |m|] == m;
  }

  /** The prefix of the canonical watch URL has no `v=` before its own. */
  lemma WatchPrefixNoKey()
    ensures !Contains(WatchHost + "v", "v=")
  {
    var u := WatchHost + "v";
    assert '=' !in u;
    ContainsChar(u, '=');
    if Contains(u, "v=") {
      ContainsWindow(u, "v=", 1, "=");
    }
  }

  const WatchHost := "https://www.youtube.com/watch?"

  /** The canonical watch URL `https://www.youtube.com/watch?v=ID` gives back `ID`. */
  lemma CanonicalWatchUrl(id: string)
    requires !Contains(id, "v=") && '&' !in id
    ensures YouTubeVideoId("https://www.youtube.com/watch?v=" + id) == Some(id)
  {
    WatchPrefixMarker();
    WatchPrefixNoKey();
    assert WatchHost + "v=" + id == "https://www.youtube.com/watch?v=" + id;
    WatchUrlId(WatchHost, id);
  }

  /** The canonical watch URL with further parameters, `https://www.youtube.com/watch?v=ID&...`, gives back `ID`. */
  lemma CanonicalWatchUrlWithParams(id: string, rest: string)
    requires !Contains(id, "v=") && '&' !in id
    ensures YouTubeVideoId("https://www.youtube.com/watch?v=" + id + "&" + rest) == Some(id)
  {
    WatchPrefixMarker();
    WatchPrefixNoKey();
    assert WatchHost + "v=" + id + "&" + rest == "https://www.youtube.com/watch?v=" + id + "&" + rest;
    WatchUrlIdWithParams(WatchHost, id, rest);
  }

  /** The canonical short link `https://youtu.be/ID` gives back `ID`. */
  lemma CanonicalShortUrl(id: string)
    requires '?' !in id && !Contains(id, ShortMarker)
    ensures YouTubeVideoId("https://youtu.be/" + id) == Some(id)
  {
    var h := "https://";
    var s := h + "youtu.be";
    forall j | 0 <= j
      ensures !MatchesAt(s, ShortMarker, j)
    {
      if j + 9 <= |s| {
        assert s[j..j + 9][8] == s[j + 8];
      }
    }
    assert h + ShortMarker + id == "https://youtu.be/" + id;
    ShortUrlId(h, id);
  }
}
