# Donkey Main Trail site: verified model of the interactive widgets and the preview route

This project models the behaviour of the hiking-trail brochure site's interactive
parts in Dafny, and proves properties of that model:

- **Availability calendar** (`Calendar`, with `CivilDate` and `DateFormat`): the
  Sunday-first 42-cell month grid, built by three loops exactly as the component
  builds it; month navigation through the `Date` constructor's month carry; the
  status of every cell (today, booked, available, disabled) and the click rule that
  reports a date as `YYYY-MM-DD` and asks the host to close. The clock is injected:
  the constructor receives the current date.
- **Gallery** (`Gallery`, with `JsText` and `Cycle`): filter-tab construction,
  normalisation of category names (`toLowerCase`, `trim`, `replace(/\s+/g, " ")`),
  filtering, the full-screen slider and the YouTube id taken from a video URL.
- **Trail information** (`TrailInfo`): the CMS data merged with the built-in
  defaults, and the image carousel with its clamped index.
- **Interactive map** (`InteractiveMap`): the expand/collapse toggle of the trail
  points and the image modal with its keyboard handling.
- **Testimonials** (`Testimonials`): the carousel of testimonials.
- **Preview** (`PreviewRoute`, `PreviewUrl`): `GET /api/preview`, which checks the
  shared secret, refuses the built-in default secret in production and redirects
  into draft mode. The route map from a CMS document type to a path is also modelled.

State that the components change in place is modelled as classes:
`AvailabilityCalendar`, `GalleryView`, `TrailCarousel`, `MapView` and
`TestimonialCarousel`. Each handler is a method with a `modifies` clause. The pure
computations are functions, and their properties are lemmas. JavaScript's
truncating `%` is written out in `Cycle.JsRem`. All index steps go through
`Cycle.Next` and `Cycle.Prev`. `Cycle.NextPrevInverse` proves those two undo each
other.

Points where the model deliberately follows the code:

- The calendar's displayed month is not reset when the calendar closes. The
  contact form keeps the component mounted and only flips `isOpen`, so reopening
  shows the month browsed last. The model follows the code (`SetOpen` keeps
  `currentMonth`). It does not follow the reset-on-open reading.
- Toggling the same trail point twice restores the previous state only when nothing,
  or that point, was expanded. When another point was expanded, the first toggle
  replaces it and the second leaves all points collapsed (`InteractiveMap.ToggleTwice`).
- The calendar compares a cell's month number only, not its year.
  `Calendar.GridMonthTest` shows that inside the 42-cell grid this equals comparing
  year and month.

## Model

| member | source | states |
|---|---|---|
| CivilDate.DaysInMonth | components/Calendar.tsx:40-45 | a month has 28 to 31 days, and February has 29 exactly in Gregorian leap years |
| CivilDate.Weekday | components/Calendar.tsx:44 | `getDay` gives a weekday 0..6, Sunday first |
| CivilDate.WeekdayAnchors | components/Calendar.tsx:44 | the weekday numbering is anchored to real dates: 1 January 1970 is a Thursday (4), 1 March 2025 a Saturday (6) and 25 December 2024 a Wednesday (3) |
| CivilDate.MakeDate | components/Calendar.tsx:37-41 | `new Date(y, m, d)` with a month index that carries into the year and day 0 meaning the previous month's last day always yields a real date |
| CivilDate.MakeDateMonth | components/Calendar.tsx:48-54 | the constructor places month index `m` of year `y` at month number `12*y + m` and keeps the day |
| CivilDate.DayZeroIsMonthEnd | components/Calendar.tsx:40-45 | `new Date(y, m + 1, 0)` is the last day of the month, so `daysInMonth` is the Gregorian month length |
| CivilDate.NextMonthSteps | components/Calendar.tsx:48-54 | next and previous month move the month line by exactly one |
| CivilDate.NextPrevInverse | components/Calendar.tsx:48-54 | going to the next month and back (or back and forward) returns to the same month |
| CivilDate.NextDayNumber | components/Calendar.tsx:105-130 | the day after a date is the next point on the continuous day line |
| CivilDate.NextDayWeekday | components/Calendar.tsx:44 | one day later is one weekday later |
| DateFormat.Pad2RoundTrip | components/Calendar.tsx:59-60 | `String(n).padStart(2, "0")` is two digits reading back as `n` for 1..99 |
| DateFormat.FormatDate | components/Calendar.tsx:57-62 | `formatDate`: year, month and day joined by dashes, month and day padded to two digits; what it means is stated by `FormatParseRoundTrip` (it can be read back), `FormatDateInjective` (one string per date) and `FormatDateShape` (`YYYY-MM-DD`) |
| DateFormat.IntToStringRoundTrip | components/Calendar.tsx:58 | `String(year)` reads back as the year, negative years included |
| DateFormat.FormatParseRoundTrip | components/Calendar.tsx:57-62 | reading `formatDate(d)` back gives `d` |
| DateFormat.FormatDateInjective | components/Calendar.tsx:57-62 | two dates have the same string exactly when they are equal, so string membership is date membership |
| DateFormat.FormatDateShape | components/Calendar.tsx:57-62 | for four-digit years the string is `YYYY-MM-DD`: ten characters, dashes at 4 and 7, digits elsewhere |
| Calendar.MonthGrid | components/Calendar.tsx:105-130 | the month view has exactly 42 cells |
| Calendar.AvailabilityCalendar.constructor | components/Calendar.tsx:27-33 | today and the first displayed month come from the injected current date |
| Calendar.AvailabilityCalendar.SetOpen | components/ContactForm.tsx:577-584 | the host opening or closing the calendar leaves the displayed month unchanged |
| Calendar.AvailabilityCalendar.GoToPreviousMonth | components/Calendar.tsx:48-50 | the displayed month becomes the previous month, January rolling back to December |
| Calendar.AvailabilityCalendar.GoToNextMonth | components/Calendar.tsx:52-54 | the displayed month becomes the next month, December rolling over to January |
| Calendar.AddLeadingDays | components/Calendar.tsx:109-116 | the first loop, counting down from the previous month's last day, yields exactly that month's last `FirstWeekday` days in calendar order |
| Calendar.AddMonthDays | components/Calendar.tsx:119-121 | the second loop appends exactly the days 1 to `daysInMonth` of the displayed month |
| Calendar.AddTrailingDays | components/Calendar.tsx:124-127 | the third loop appends the next month's first `42 - days.length` days, so the grid ends at 42 cells |
| Calendar.AvailabilityCalendar.CalendarDays | components/Calendar.tsx:105-130 | the three loops together build exactly `MonthGrid`: leading days, the month's days and trailing days |
| Calendar.AvailabilityCalendar.HandleDateClick | components/Calendar.tsx:94-102 | a click reports the formatted date and then asks to close exactly when the date is selectable; otherwise nothing happens |
| Calendar.MonthIndexCarry | components/Calendar.tsx:109-127 | the month indices one below, equal to and one above the displayed one resolve to the previous, the same and the next month |
| Calendar.GetDateStatus | components/Calendar.tsx:65-91 | `getDateStatus`: a booked cell is listed booked, an available cell is listed available and not booked, and both belong to the displayed month; the full characterisation is `StatusPrecedence`, the click rule `ClickRuleIsSelectable` |
| Calendar.ClickRuleIsSelectable | components/Calendar.tsx:94-102 | the click condition (available, or today and listed) holds exactly when the date is listed available and is today or an unbooked day of the displayed month |
| Calendar.StatusPrecedence | components/Calendar.tsx:65-91 | each status in both directions: Today exactly for today; Booked exactly for another day of the displayed month listed booked; Available exactly for another day of the displayed month listed available and not booked; Disabled exactly for every other day; booked or disabled dates never select |
| Calendar.EnabledCells | components/Calendar.tsx:187-196 | a button is enabled exactly for displayed-month cells that are today or selectable; an unlisted today is enabled but inert; a listed today in an adjacent month is disabled |
| Calendar.StatusDependsOnDatesOnly | components/Calendar.tsx:65-91 | dates with the same string get the same status |
| Calendar.GridCellsValid | components/Calendar.tsx:105-130 | every cell is a real date and day 1 sits at the first weekday's index |
| Calendar.GridConsecutive | components/Calendar.tsx:105-130 | the 42 cells are consecutive days with no gaps and no repeats |
| Calendar.GridDayNumbers | components/Calendar.tsx:105-130 | cell `i` is `i` days after cell 0 |
| Calendar.GridWeekdays | components/Calendar.tsx:44 | the grid is Sunday-first: cell `i` falls on weekday `i % 7` |
| Calendar.GridMonthTest | components/Calendar.tsx:189 | inside the grid, comparing month numbers only equals comparing year and month, which holds exactly for the cells from the first weekday to the month's end |
| Calendar.GridHasMonth | components/Calendar.tsx:118-121 | the grid shows every real day of the displayed month and no other day of it |
| Calendar.LeapFebruary | components/Calendar.tsx:40-45 | February 2024 shows the 29th, and February 2023 does not |
| Calendar.AdjacentCellsDisabled | components/Calendar.tsx:74-77 | adjacent-month cells are rendered disabled and have status disabled unless they are today, even when listed available |
| Calendar.FormatMarch12 | components/Calendar.tsx:57-62 | 12 March 2025 is formatted as `2025-03-12` |
| Calendar.MarchScenario | components/Calendar.tsx:65-102 | with today 10 March 2025, available 12 and 20 and booked 15: the 12th selects as `2025-03-12`; the booked 15th, the unlisted today and 5 April do nothing |
| Calendar.MonthRollover | components/Calendar.tsx:48-54 | December 2025 is followed by January 2026 and January 2025 is preceded by December 2024 |
| Cycle.JsRem | components/Gallery.tsx:86 | JavaScript's `%` takes the dividend's sign and stays strictly between `-n` and `n` |
| Cycle.StepsStayInRange | components/Gallery.tsx:85-91 | from any non-negative index, one step forward or back lands on a valid index |
| Cycle.StepsOnValidIndex | components/Gallery.tsx:85-91 | on valid indices a step forward adds one and wraps the last to 0, and a step back subtracts one and wraps 0 to the last |
| Cycle.NextPrevInverse | components/Gallery.tsx:85-91 | a step forward and a step back undo each other; every carousel (gallery slider, trail images, map modal, testimonials) steps through `Next` and `Prev`, so this covers all of them |
| JsText.LowerChar | components/Gallery.tsx:41 | an ASCII capital becomes its own lower-case letter (code point plus 32), every other character is kept, and whitespace stays whitespace |
| JsText.LowerCaseFolds | components/Gallery.tsx:41 | two strings lower to the same string exactly when they have the same length and agree letter by letter up to case |
| JsText.LowerCaseIdempotent | components/Gallery.tsx:41 | `toLowerCase` leaves no capitals, keeps a string without capitals as it is, and applied twice equals applied once |
| JsText.TrimStart | components/Gallery.tsx:41 | leading whitespace is removed: the result is a suffix, does not start with whitespace, and only whitespace was dropped |
| JsText.TrimEnd | components/Gallery.tsx:41 | trailing whitespace is removed: the result is a prefix, does not end with whitespace, and only whitespace was dropped |
| JsText.Trim | app/api/preview/route.ts:40 | `trim` leaves no whitespace at either end |
| JsText.IndexOf | components/Gallery.tsx:98 | `indexOf` finds the first occurrence, and none means no occurrence anywhere |
| JsText.Split | components/Gallery.tsx:99 | `split` always yields at least one piece |
| JsText.SplitFirstPiece | components/Gallery.tsx:99 | `split` cuts from the left: the first piece is a prefix with no occurrence of the separator starting inside it, and it is the whole string or is followed by the separator |
| JsText.SplitLastPiece | components/Gallery.tsx:104 | the last piece of `split` is a suffix without the separator, and it is the whole string or directly preceded by the separator |
| JsText.SplitHasTwoPieces | components/Gallery.tsx:99 | `split` yields a second piece exactly when the separator occurs |
| JsText.JoinSplit | components/Gallery.tsx:99 | joining the pieces of `split` with the separator gives the string back |
| JsText.SplitPiecesAvoidSeparator | components/Gallery.tsx:99-104 | no piece of `split` contains the separator |
| JsText.CollapseSingleSpaced | components/Gallery.tsx:41 | after `replace(/\s+/g, " ")` whitespace is single spaces, never two in a row |
| JsText.CollapseRun | components/Gallery.tsx:41 | a whitespace run of any length between a word and the next non-whitespace character becomes exactly one space, and the word before it is kept |
| JsText.CollapseFixed | components/Gallery.tsx:41 | a single-spaced string is left unchanged by the replacement |
| Gallery.AvailableFilters | components/Gallery.tsx:45-59 | the first tab is always "All Photos" |
| Gallery.AvailableFiltersShape | components/Gallery.tsx:45-58 | custom tabs follow "All Photos" in their given order; without them the tabs are the five defaults, caption and value: All Photos, Videos, Trails, Fauna & Flora, Camping & Accommodation |
| Gallery.NormalizeFilter | components/Gallery.tsx:40-42 | `normalizeFilter`: lower case, trimmed, whitespace runs made one space; its meaning is stated by `NormalizeShape`, `NormalizeKeepsText`, `NormalizeIgnoresCase`, `NormalizeIdempotent` and `NormalizeExample` |
| Gallery.NormalizeShape | components/Gallery.tsx:40-42 | a normalised filter has no capitals, no whitespace at either end and single spaces inside |
| Gallery.NormalizeFixed | components/Gallery.tsx:40-42 | normalising an already normalised filter leaves it unchanged |
| Gallery.NormalizeIdempotent | components/Gallery.tsx:40-42 | normalising twice is normalising once |
| Gallery.NormalizeKeepsText | components/Gallery.tsx:40-42 | normalising keeps every non-whitespace character, lowered, in its order: dropping whitespace from the result gives the lowered non-whitespace text of the input |
| Gallery.NormalizeIgnoresCase | components/Gallery.tsx:40-42 | spellings that differ only in the case of letters normalise to the same filter |
| Gallery.NormalizeExample | components/Gallery.tsx:40-42 | `"  Fauna \t&  Flora "` normalises to `"fauna & flora"`: outer whitespace dropped, inner runs made one space, capitals lowered |
| Gallery.FilterMembers | components/Gallery.tsx:69-73 | an item is kept exactly when it is in the list and passes the test |
| Gallery.FilterAppend | components/Gallery.tsx:69-73 | filtering distributes over concatenation, so the order of items is kept |
| Gallery.FilterAllPass | components/Gallery.tsx:69-73 | a list whose items all pass is kept whole |
| Gallery.MatchingMembers | components/Gallery.tsx:69-73 | a category shows exactly the listed items whose normalised category equals the normalised active filter |
| Gallery.FilterItems | components/Gallery.tsx:62-74 | `filteredItems`: everything for "all photos", otherwise the items whose normalised category is the normalised filter; its meaning is stated by `FilterItemsMeaning`, `MatchingMembers` and `FirstTabShowsAll` |
| Gallery.FilterItemsMeaning | components/Gallery.tsx:62-74 | "all photos" in any spelling shows every item, another filter shows exactly the matching items, and an empty list stays empty |
| Gallery.FirstTabShowsAll | components/Gallery.tsx:45-67 | the first tab always shows the whole list |
| Gallery.GalleryView.constructor | components/Gallery.tsx:33-37 | the view starts on "all photos" with the slider closed at index 0 |
| Gallery.GalleryView.SelectFilter | components/Gallery.tsx:130 | a tab click sets the active filter to the tab's value |
| Gallery.GalleryView.OpenSlider | components/Gallery.tsx:76-79 | opening at tile `i` opens the slider and shows item `i` of the filtered list |
| Gallery.GalleryView.CloseSlider | components/Gallery.tsx:81-83 | closing hides the slider |
| Gallery.GalleryView.NextItem | components/Gallery.tsx:85-87 | the index steps forward with wrap-around and still names an item |
| Gallery.GalleryView.PrevItem | components/Gallery.tsx:89-91 | the index steps back with wrap-around and still names an item |
| Gallery.VideoIdDefined | components/Gallery.tsx:96-105 | only the empty URL has no id |
| Gallery.YouTubeVideoId | components/Gallery.tsx:96-105 | `getYouTubeVideoId`: the id after the first `v=` cut at `&`, else after `youtu.be/` cut at `?`, else the last `/`-segment; its meaning is stated by `VideoIdDefined`, `VideoIdCut`, `WatchUrlIdWithParams`, `ShortUrlIdWithQuery` and `FallbackLastSegment` |
| Gallery.VideoIdCut | components/Gallery.tsx:96-105 | the id never holds the character its branch cuts at: `&` for watch URLs, `?` for short links, `/` otherwise |
| Gallery.WatchUrlId | components/Gallery.tsx:98-100 | a watch URL with nothing after the id gives back the id after its first `v=` |
| Gallery.WatchUrlIdWithParams | components/Gallery.tsx:98-100 | a watch URL `...v=ID&rest` gives `ID` for any `rest`: the text after the first `v=` is cut at the first `&` |
| Gallery.ShortUrlId | components/Gallery.tsx:101-103 | a short link with nothing after the id gives back the id after `youtu.be/` |
| Gallery.ShortUrlIdWithQuery | components/Gallery.tsx:96-103 | a short link `...youtu.be/ID?rest` that is not also a watch URL gives `ID` for any `rest`: the text after `youtu.be/` is cut at the first `?` |
| Gallery.FallbackLastSegment | components/Gallery.tsx:104 | any other non-empty URL gives the text after its last `/`, or the whole URL when it has none |
| Gallery.CanonicalWatchUrl | components/Gallery.tsx:98-100 | `https://www.youtube.com/watch?v=ID` gives back `ID` |
| Gallery.CanonicalWatchUrlWithParams | components/Gallery.tsx:98-100 | `https://www.youtube.com/watch?v=ID&...` gives back `ID` whatever follows the `&` |
| Gallery.CanonicalShortUrl | components/Gallery.tsx:101-103 | `https://youtu.be/ID` gives back `ID` |
| TrailInfo.AboutIgnoresNote | components/TrailInfo.tsx:121-128 | the about section is merged with its default independently: giving a historical note does not change it |
| TrailInfo.NoteIgnoresAbout | components/TrailInfo.tsx:121-128 | the historical note is merged with its default independently: giving an about section does not change it |
| TrailInfo.ListsIgnoreTextSections | components/TrailInfo.tsx:121-146 | the highlights and the carousel images do not depend on the about section or the note |
| TrailInfo.HighlightsFallback | components/TrailInfo.tsx:123-126 | highlights are the given ones when there are any; otherwise exactly the built-in list, whose four entries are, in order, (award, UNESCO World Heritage Site), (clock, Historical Gamkaskloof), (camera, Scenic Bosch Luys Kloof) and (heart, Cultural and Natural Heritage) |
| TrailInfo.CarouselImagesNonEmpty | components/TrailInfo.tsx:143-146 | the carousel is never empty |
| TrailInfo.CarouselImagesFallback | components/TrailInfo.tsx:128-146 | the uploaded images are shown when there are any; a missing carousel, missing images or an empty list give the built-in entry |
| TrailInfo.SafeIndex | components/TrailInfo.tsx:169-171 | an in-range index is kept, an index at or past the end becomes 0, and the result is always valid |
| TrailInfo.TrailCarousel.constructor | components/TrailInfo.tsx:119 | the carousel starts at index 0 |
| TrailInfo.TrailCarousel.Shown | components/TrailInfo.tsx:169-171 | the rendered index always names an image |
| TrailInfo.TrailCarousel.ReceiveData | components/TrailInfo.tsx:119-128 | new data from the parent keeps the index state |
| TrailInfo.TrailCarousel.NextImage | components/TrailInfo.tsx:148-152 | the index steps forward modulo the number of images |
| TrailInfo.TrailCarousel.PrevImage | components/TrailInfo.tsx:154-160 | the index steps back modulo the number of images |
| TrailInfo.TrailCarousel.GoToImage | components/TrailInfo.tsx:162-166 | an in-range index is taken; any other index leaves the state unchanged |
| TrailInfo.CounterInRange | components/TrailInfo.tsx:294 | the counter `safeIndex + 1 / length` reads a position from 1 to the number of images |
| TrailInfo.StaleIndexShowsFirst | components/TrailInfo.tsx:169-173 | after the images shrink, a stale index shows the first image and its card |
| TrailInfo.DefaultCarouselSingle | components/TrailInfo.tsx:100-115 | the built-in carousel has one entry with the default card, so its controls are hidden |
| InteractiveMap.Thumbnails | components/InteractiveMap.tsx:331-332 | at most four thumbnails are rendered, the first four images in order |
| InteractiveMap.MapView.constructor | components/InteractiveMap.tsx:73-82 | nothing expanded, modal closed, no images, index 0 |
| InteractiveMap.MapView.CurrentMedia | components/InteractiveMap.tsx:464-486 | the modal displays an item exactly when images are selected |
| InteractiveMap.MapView.HandlePointToggle | components/InteractiveMap.tsx:85-87 | the expanded point becomes the toggled value |
| InteractiveMap.MapView.HandleImageClick | components/InteractiveMap.tsx:89-103 | the images are selected, the index is the start index and the modal opens |
| InteractiveMap.MapView.HandleCloseImageModal | components/InteractiveMap.tsx:105-109 | whatever the state, the modal is closed with no images at index 0 and is not shown |
| InteractiveMap.MapView.HandleNextImage | components/InteractiveMap.tsx:111-114 | nothing happens without images; otherwise the index steps forward with wrap-around |
| InteractiveMap.MapView.HandlePrevImage | components/InteractiveMap.tsx:116-121 | nothing happens without images; otherwise the index steps back with wrap-around |
| InteractiveMap.MapView.HandleKeyDown | components/InteractiveMap.tsx:124-144 | Escape closes an open modal; the arrow keys step only while it is open; other keys, and every key while closed, change nothing |
| InteractiveMap.MapView.SelectThumbnail | components/InteractiveMap.tsx:521-529 | a thumbnail click in the strip shows that image |
| InteractiveMap.MapView.ClickPointThumbnail | components/InteractiveMap.tsx:331-341 | a click on one of the first four thumbnails opens the modal on the point's full image list at that position |
| InteractiveMap.ToggleTwice | components/InteractiveMap.tsx:85-87 | toggling twice restores the state when nothing or that point was expanded, and otherwise collapses everything |
| InteractiveMap.ToggleOther | components/InteractiveMap.tsx:239 | toggling one point while another is expanded expands only the new one |
| InteractiveMap.ThumbnailsArePrefix | components/InteractiveMap.tsx:331-341 | the thumbnails are a prefix of the images, four long when there are more than four |
| Testimonials.SafeTestimonialsMeaning | components/Testimonials.tsx:38 | the list is the given one, or empty when none is given; it is empty exactly when none or an empty list was given |
| Testimonials.SafeTestimonials | components/Testimonials.tsx:38 | the list shown by the carousel; its meaning is stated by `SafeTestimonialsMeaning` and `RenderConditions` |
| Testimonials.TestimonialCarousel.constructor | components/Testimonials.tsx:34 | the carousel starts at index 0 |
| Testimonials.TestimonialCarousel.NextTestimonial | components/Testimonials.tsx:40-42 | the index steps forward modulo the length and names a testimonial |
| Testimonials.TestimonialCarousel.PrevTestimonial | components/Testimonials.tsx:44-46 | the index steps back modulo the length and names a testimonial |
| Testimonials.TestimonialCarousel.GoToTestimonial | components/Testimonials.tsx:48-50 | the index is set without any bounds check; it names a testimonial exactly when in range |
| Testimonials.TestimonialCarousel.ClickDot | components/Testimonials.tsx:148-155 | a dot click shows that testimonial |
| Testimonials.RenderConditions | components/Testimonials.tsx:69 | the card shows exactly when testimonials exist, and the arrows and dots need at least two |
| PreviewRoute.ConfiguredSecret | app/api/preview/route.ts:11-14 | the secret is the first non-empty of the two variables, else the non-empty default |
| PreviewRoute.SlugParam | app/api/preview/route.ts:19 | `searchParams.get('slug') \|\| '/'`: a present, non-empty slug is kept as given, and a missing or empty one becomes `/`; the result is never empty |
| PreviewRoute.SlugPathAsWritten | app/api/preview/route.ts:40-43 | as written, a slug's path is the trimmed slug with `/` prepended when missing: it starts with `/` and is the trimmed slug with at most one added character |
| PreviewRoute.SlugPath | app/api/preview/route.ts:38-44 | corrected: the path starts with exactly one `/`, followed by the trimmed slug with only its leading slashes removed |
| PreviewRoute.SlugPathAgrees | app/api/preview/route.ts:39-43 | the correction changes nothing for a slug that does not start with `//` once trimmed |
| PreviewRoute.DoubleSlashKeptAsWritten | app/api/preview/route.ts:39-43 | as written, a slug `//host...` is redirected to unchanged, a protocol-relative address on another host |
| PreviewRoute.DoubleSlashCorrected | app/api/preview/route.ts:39-43 | corrected, the slug `//host...` becomes the local path `/host...` |
| PreviewRoute.SlugPathFixed | app/api/preview/route.ts:39-43 | a path with one leading `/` and no trailing whitespace is its own path |
| PreviewRoute.Get | app/api/preview/route.ts:16-52 | 401 exactly for a missing or wrong secret; then 403 exactly in production on the default secret; otherwise draft mode and a redirect to the resolved document path, or to the corrected slug path, always starting with exactly one `/` |
| PreviewRoute.SlugPathIdempotent | app/api/preview/route.ts:39-44 | normalising an already normalised path changes nothing |
| PreviewRoute.BlankSlugIsHome | app/api/preview/route.ts:19 | a missing, empty or blank slug leads to `/` |
| PreviewRoute.PathSlugKept | app/api/preview/route.ts:19-50 | a slug that is already a path, with one leading `/` and no trailing whitespace, has itself as its path, so `Get` redirects to it unchanged when no document type and id are given |
| PreviewRoute.UnconfiguredProductionRefuses | app/api/preview/route.ts:29-32 | with no secret variable set, production refuses every preview |
| PreviewUrl.ResolvePreviewUrl | sanity/lib/resolve-preview-url.ts:2-18 | the preview path is `/` for every document |
| PreviewUrl.KnownTypes | sanity/lib/resolve-preview-url.ts:4-14 | `homepage`, `header` and `footer` map to `/`, and a missing type is looked up as "" and falls back to `/` |
| PreviewUrl.AsWrittenOffPrototype | sanity/lib/resolve-preview-url.ts:11-17 | for any type that is not an inherited property name, the code gives the same `/` |
| PreviewUrl.ResolveAsWritten | sanity/lib/resolve-preview-url.ts:2-18 | the as-written lookup, which returns any truthy value found, inherited ones included; its meaning is stated by `AsWrittenOffPrototype` and `InheritedTypeEscapes` |
| PreviewUrl.OnlyTypeMatters | sanity/lib/resolve-preview-url.ts:2-18 | neither the id nor the slug affects the result |
| PreviewUrl.InheritedTypeEscapes | sanity/lib/resolve-preview-url.ts:11-14 | a type named `toString` returns the inherited property, not `/` |

## Left out

- Rendering (JSX, CSS classes, icon and colour tables), `urlFor` image URLs, image assets, and the locale month title of the calendar.
- `useEffect` effects: listener registration beyond the open/closed condition, scroll lock and `scrollIntoView`. These are DOM side effects.
- The clock: the calendar reads `new Date()` twice at mount, for the state and for `today`. The model assumes both fall on the same local day and injects it. Time of day and time zones are not modelled.
- CivilDate.MakeDate: does not model the `Date` constructor's mapping of years 0..99 to 1900..1999. Navigating back from January of year 100 reaches it (`new Date(99, 10, 1)` is November 1999); the model keeps counting on the month line instead.
- CivilDate.MakeDate: requires a day between 0 and the month's length; the component never passes a day past the end of the month.
- CivilDate.Date: covers the proleptic Gregorian calendar on unbounded integers. It ignores the ±100,000,000-day limit of JavaScript dates.
- JsText.ToLowerCase: lowers only ASCII letters. `String.prototype.toLowerCase` applies the full Unicode case mapping.
- JsText: strings are sequences of Unicode scalar values, while JavaScript strings are sequences of UTF-16 code units. A character outside the Basic Multilingual Plane is one element here and two in JavaScript, so lengths and indices differ for such text, and lone surrogates cannot be represented. There is no Unicode normalisation.
- Cycle.JsRem: indices are unbounded integers, not IEEE doubles. Precision loss past 2^53 is not modelled.
- Gallery.YouTubeVideoId: a single `None` stands for both `null` and `undefined`.
- Gallery: `data || {}` and the default `items = []` are modelled by passing the item list, empty when absent. Item titles, descriptions and media are carried but not rendered.
- TrailInfo: the about-section stats and the icon lookups are display only.
- Testimonials: the list is fixed at construction. A props change while mounted is not modelled. The header text fallbacks (`title || ...`) are display only.
- InteractiveMap: the legend, map URL and point details other than the id, title and images are display only.
- InteractiveMap.MapView.HandleImageClick: requires a start index inside a non-empty list. Its only caller passes a rendered thumbnail's index.
- PreviewRoute.Get: `console.error` is left out. `draftMode().enable()` and `redirect` are modelled by the returned outcome and the draft flag. Query parsing by `new URL` is modelled by the `Query` value.
- PreviewRoute.Get: redirects to the corrected `SlugPath`, with a single leading `/` (see Findings); the as-written path is `SlugPathAsWritten`.
- PreviewRoute.Get: resolves document paths with the corrected `PreviewUrl.ResolvePreviewUrl` (see Findings). The as-written lookup's non-string result is not carried into the redirect.

## Findings

| source | as written | input that shows it | evidently intended | confidence | as-written member | corrected member |
|---|---|---|---|---|---|---|
| sanity/lib/resolve-preview-url.ts:11-14 | `routeMap[doc._type \|\| '']` reads a plain object literal, so inherited `Object.prototype` properties are found too; a truthy one is returned as the route (modelled by `PreviewUrl.ResolveAsWritten`) | `_type` = `toString` (reachable as `?type=toString&id=x` with a valid secret) returns the inherited `toString` function instead of `/` | only the listed document types map to routes; every other type falls back to `/` | not executed; high for the lookup, the framework's handling of the non-string redirect target is not modelled | PreviewUrl.InheritedTypeEscapes | PreviewUrl.ResolvePreviewUrl |
| app/api/preview/route.ts:39-43 | the comment promises to remove a duplicate leading `/`, but the code only trims the slug and prepends `/` when none is there, so a slug starting with `//` is kept (modelled by `PreviewRoute.SlugPathAsWritten`) | `?secret=<valid>&slug=//evil.example` redirects to `//evil.example`, a protocol-relative address on another host | the path keeps exactly one leading `/`, so the redirect stays on the site | not executed; high for the path computed, the browser's reading of `//` as a host is standard URL resolution | PreviewRoute.DoubleSlashKeptAsWritten | PreviewRoute.DoubleSlashCorrected |
