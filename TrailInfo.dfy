/**
 * The trail information section: the CMS data merged with built-in defaults,
 * and the image carousel whose index survives a change of data and is
 * clamped back to the first image when it falls past the end.
 */
module TrailInfo {
  import opened Wrappers
  import Cycle

  datatype Stat = Stat(icon: string, value: string, caption: string)

  datatype AboutSection = AboutSection(title: string, highlightedText: string, description: string,
                                       stats: Option<seq<Stat>>)

  datatype Highlight = Highlight(icon: string, title: string, description: string)

  datatype HistoricalNote = HistoricalNote(title: string, content: string)

  datatype Card = Card(icon: string, title: string, subtitle: string, description: string)

  /** A carousel entry; `asset` is the CMS image reference, absent in the built-in entry. */
  datatype CarouselImage = CarouselImage(asset: Option<string>, card: Option<Card>)

  datatype Carousel = Carousel(images: Option<seq<CarouselImage>>)

  /** The `data` prop; every part of it may be missing. */
  datatype TrailData = TrailData(aboutSection: Option<AboutSection>, trailHighlights: Option<seq<Highlight>>,
                                 historicalNote: Option<HistoricalNote>, carousel: Option<Carousel>)

  // ---------------------------------------------------------------------------
  // The built-in data

  const DefaultAbout := AboutSection(
    "About the", "Donkey Trail",
    "Long ago, before modern roads, the daring 'Donkey Trail' over the majestic Swartberg Mountain connected Calitzdorp to Die Hel\U{00E2}\U{20AC}\U{201D}the sole lifeline linking this remote region to the outside world. Join us on a memorable hike along this historic route, and step back in time to experience the rugged beauty and storied past of the trail that once carried hope and connection through challenging terrains.",
    Some([
      Stat("map", "77km", "Total Distance"),
      Stat("clock", "5 Days", "Duration"),
      Stat("trendingUp", "Mod - Difficult", "Difficulty"),
      Stat("users", "10 People", "Max Group Size")
    ]))

  const DefaultHighlights := [
    Highlight("award", "UNESCO World Heritage Site",
      "Experience walking through the breathtaking Swartberg Mountains, recognized globally for their outstanding natural beauty and geological significance."),
    Highlight("clock", "Historical Gamkaskloof",
      "Explore the legendary 'Die Hel,' a remote and rugged area rich in history and untouched wilderness, the Donkey Trail was once a vital trade route for this community."),
    Highlight("camera", "Scenic Bosch Luys Kloof",
      "Conclude your journey at the stunning Bosch Luys Kloof, a pristine nature reserve renowned for its dramatic cliffs, clear streams and landscapes."),
    Highlight("heart", "Cultural and Natural Heritage",
      "Traverse a trail steeped in history, from ancient pathways used by early explorers to vibrant flora and fauna thriving in this protected landscape. Along the way, experience the warmth of Karoo hospitality, and uncover the fascinating cultures that make this region truly special while supporting local communities.")
  ]

  const DefaultNote := HistoricalNote("Historical Note",
    "Between the years 1830 and 1962 the inhabitants of the isolated valley of Gamkaskloof (Die Hel) had no road access into the valley. Access was only possible via a few footpaths which crossed the mountains and connected the valley to Calitzdorp and Prince Albert. These paths were used for transporting their produce from the valley to the markets and for bringing supplies to the area. Donkeys were utilized to carry the items from the valley to Calitzdorp via the Wyenek route.")

  const DefaultCard := Card("award", "UNESCO World Heritage Site", "Cape Floral Region",
    "The Swartberg Mountains were declared part of the Cape Floral Region World Heritage Site in June 2004. This declaration was made by UNESCO in recognition of the region's exceptional biodiversity and the unique fynbos vegetation found there.")

  /** The one built-in carousel entry: no image asset, the default card. */
  const DefaultImages := [CarouselImage(None, Some(DefaultCard))]

  const DefaultCarousel := Carousel(Some(DefaultImages))

  // ---------------------------------------------------------------------------
  // Merging with the defaults

  /** `data?.aboutSection || DEFAULT_DATA.aboutSection`. */
  function About(data: Option<TrailData>): (r: AboutSection)
    ensures data.Some? && data.value.aboutSection.Some? ==> r == data.value.aboutSection.value
    ensures (data.None? || data.value.aboutSection.None?) ==> r == DefaultAbout
  {
    if data.Some? && data.value.aboutSection.Some? then data.value.aboutSection.value else DefaultAbout
  }

  /** `data?.historicalNote || DEFAULT_DATA.historicalNote`. */
  function Note(data: Option<TrailData>): (r: HistoricalNote)
    ensures data.Some? && data.value.historicalNote.Some? ==> r == data.value.historicalNote.value
    ensures (data.None? || data.value.historicalNote.None?) ==> r == DefaultNote
  {
    if data.Some? && data.value.historicalNote.Some? then data.value.historicalNote.value else DefaultNote
  }

  /** The given highlights when there is at least one, otherwise the four defaults. */
  function Highlights(data: Option<TrailData>): seq<Highlight> {
    if data.Some? && data.value.trailHighlights.Some? && |data.value.trailHighlights.value| > 0
    then data.value.trailHighlights.value
    else DefaultHighlights
  }

  /** `data?.carousel || DEFAULT_DATA.carousel`. */
  function CarouselOf(data: Option<TrailData>): Carousel {
    if data.Some? && data.value.carousel.Some? then data.value.carousel.value else DefaultCarousel
  }

  /** `carouselImages`: the carousel's images when there is at least one, otherwise the built-in entry. */
  function CarouselImages(data: Option<TrailData>): seq<CarouselImage> {
    var c := CarouselOf(data);
    if c.images.Some? && |c.images.value| > 0 then c.images.value else DefaultImages
  }

  /** `safeIndex`: an index at or past the end falls back to the first image. */
  function SafeIndex(index: int, n: nat): (r: int)
    ensures n > 0 && index >= 0 ==> 0 <= r < n
    ensures index < n ==> r == index
    ensures index >= n ==> r == 0
  {
    if index >= n then 0 else index
  }

  /** `currentImage?.card || DEFAULT_DATA.carousel.images[0]?.card`. */
  function CurrentCard(images: seq<CarouselImage>, index: int): (r: Card)
    requires 0 <= index < |images|
    ensures images[index].card.Some? ==> r == images[index].card.value
    ensures images[index].card.None? ==> r == DefaultCard
  {
    match images[index].card
    case Some(c) => c
    case None => DefaultImages[0].card.value
  }

  /** The carousel state: the `data` prop as last rendered and the `currentImageIndex` state. */
  class TrailCarousel {
    var data: Option<TrailData>
    var currentImageIndex: int

    ghost predicate Valid()
      reads this`currentImageIndex
    {
      currentImageIndex >= 0
    }

    constructor (data: Option<TrailData>)
      ensures Valid() && this.data == data && currentImageIndex == 0
    {
      this.data := data;
      currentImageIndex := 0;
    }

    function Images(): seq<CarouselImage>
      reads this`data
    {
      CarouselImages(data)
    }

    /** The index the section renders: the image shown, the active dot and the counter. */
    function Shown(): (r: int)
      reads this`data, this`currentImageIndex
      requires Valid()
      ensures 0 <= r < |Images()|
    {
      CarouselImagesNonEmpty(data);
      SafeIndex(currentImageIndex, |Images()|)
    }

    /** The card beside the image. */
    function ShownCard(): Card
      reads this`data, this`currentImageIndex
      requires Valid()
    {
      CurrentCard(Images(), Shown())
    }

    /** The parent renders the section again with new data; the index state is kept. */
    method ReceiveData(data: Option<TrailData>)
      modifies this`data
      ensures this.data == data && currentImageIndex == old(currentImageIndex)
    {
      this.data := data;
    }

    /** `nextImage`. */
    method NextImage()
      requires Valid()
      modifies this`currentImageIndex
      ensures Valid()
      ensures currentImageIndex == Cycle.Next(old(currentImageIndex), |Images()|)
    {
      var n := |Images()|;
      if n > 0 {
        Cycle.StepsStayInRange(currentImageIndex, n);
        currentImageIndex := Cycle.Next(currentImageIndex, n);
      }
      CarouselImagesNonEmpty(data);
    }

    /** `prevImage`. */
    method PrevImage()
      requires Valid()
      modifies this`currentImageIndex
      ensures Valid()
      ensures currentImageIndex == Cycle.Prev(old(currentImageIndex), |Images()|)
    {
      var n := |Images()|;
      if n > 0 {
        Cycle.StepsStayInRange(currentImageIndex, n);
        currentImageIndex := Cycle.Prev(currentImageIndex, n);
      }
      CarouselImagesNonEmpty(data);
    }

    /** `goToImage(index)`: an index outside the images is ignored. */
    method GoToImage(index: int)
      requires Valid()
      modifies this`currentImageIndex
      ensures Valid()
      ensures 0 <= index < |Images()| ==> currentImageIndex == index
      ensures !(0 <= index < |Images()|) ==> currentImageIndex == old(currentImageIndex)
    {
      if 0 <= index < |Images()| {
        currentImageIndex := index;
      }
    }
  }

  // ---------------------------------------------------------------------------
  // Lemmas

  /** The about section is merged with its default on its own: giving a note leaves it as it was. */
  lemma AboutIgnoresNote(d: TrailData, n: HistoricalNote)
    ensures About(Some(d.(historicalNote := Some(n)))) == About(Some(d))
  {
  }

  /** The note is merged with its default on its own: giving an about section leaves it as it was. */
  lemma NoteIgnoresAbout(d: TrailData, a: AboutSection)
    ensures Note(Some(d.(aboutSection := Some(a)))) == Note(Some(d))
  {
  }

  /** The highlights and the carousel do not depend on the text sections. */
  lemma ListsIgnoreTextSections(d: TrailData, a: AboutSection, n: HistoricalNote)
    ensures Highlights(Some(d.(aboutSection := Some(a), historicalNote := Some(n)))) == Highlights(Some(d))
    ensures CarouselImages(Some(d.(aboutSection := Some(a), historicalNote := Some(n)))) == CarouselImages(Some(d))
  {
  }

  /** The section always has highlights: the given ones when there are any, else the four defaults. */
  lemma HighlightsFallback(data: Option<TrailData>)
    ensures |Highlights(data)| > 0
    ensures data.Some? && data.value.trailHighlights.Some? && |data.value.trailHighlights.value| > 0 ==>
      Highlights(data) == data.value.trailHighlights.value
    ensures !(data.Some? && data.value.trailHighlights.Some? && |data.value.trailHighlights.value| > 0) ==>
      |Highlights(data)| == 4 && Highlights(data)[0].title == "UNESCO World Heritage Site"
    ensures !(data.Some? && data.value.trailHighlights.Some? && |data.value.trailHighlights.value| > 0) ==>
      Highlights(data) == DefaultHighlights
    ensures !(data.Some? && data.value.trailHighlights.Some? && |data.value.trailHighlights.value| > 0) ==>
      var h := Highlights(data);
      && h[0].icon == "award" && h[0].title == "UNESCO World Heritage Site"
      && h[1].icon == "clock" && h[1].title == "Historical Gamkaskloof"
      && h[2].icon == "camera" && h[2].title == "Scenic Bosch Luys Kloof"
      && h[3].icon == "heart" && h[3].title == "Cultural and Natural Heritage"
  {
  }

  /** The carousel is never empty. */
  lemma CarouselImagesNonEmpty(data: Option<TrailData>)
    ensures |CarouselImages(data)| > 0
  {
  }

  /**
   * The carousel shows exactly the uploaded images when there are any; a
   * missing carousel, missing images or an empty list all give the one built-in entry.
   */
  lemma CarouselImagesFallback(data: Option<TrailData>)
    ensures var c := CarouselOf(data);
      c.images.Some? && |c.images.value| > 0 ==> CarouselImages(data) == c.images.value
    ensures (data.Some? && data.value.carousel.Some? && data.value.carousel.value.images.Some? &&
             |data.value.carousel.value.images.value| > 0) ==>
      CarouselImages(data) == data.value.carousel.value.images.value
    ensures (data.None? || data.value.carousel.None? ||
             data.value.carousel.value.images.None? || data.value.carousel.value.images.value == []) ==>
      CarouselImages(data) == DefaultImages
  {
  }

  /** The counter `safeIndex + 1 / length` always reads a position between 1 and the number of images. */
  lemma CounterInRange(index: int, data: Option<TrailData>)
    requires index >= 0
    ensures 1 <= SafeIndex(index, |CarouselImages(data)|) + 1 <= |CarouselImages(data)|
  {
    CarouselImagesNonEmpty(data);
  }

  /** With new data holding fewer images, a stale index shows the first image, not a missing one. */
  lemma StaleIndexShowsFirst(index: int, data: Option<TrailData>)
    requires index >= |CarouselImages(data)|
    ensures SafeIndex(index, |CarouselImages(data)|) == 0
    ensures CurrentCard(CarouselImages(data), 0) ==
      CurrentCard(CarouselImages(data), SafeIndex(index, |CarouselImages(data)|))
  {
    CarouselImagesNonEmpty(data);
  }

  /** The built-in carousel has one entry, so the arrows and dots are hidden and its card is the default card. */
  lemma DefaultCarouselSingle(index: int)
    requires index >= 0
    ensures |CarouselImages(None)| == 1
    ensures SafeIndex(index, 1) == 0
    ensures CurrentCard(CarouselImages(None), 0) == DefaultCard
  {
  }
}
