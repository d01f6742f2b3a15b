/**
 * The testimonials carousel: one testimonial at a time, wrap-around arrows
 * and a dot per testimonial.
 */
module Testimonials {
  import opened Wrappers
  import Cycle

  datatype Author = Author(name: string, location: string, year: string, image: Option<string>)

  datatype Testimonial = Testimonial(quote: string, author: Author, rating: Option<int>)

  /** `safeTestimonials`: the given list when it has entries, otherwise the empty list. */
  function SafeTestimonials(testimonials: Option<seq<Testimonial>>): seq<Testimonial> {
    if testimonials.Some? && |testimonials.value| > 0 then testimonials.value else []
  }

  class TestimonialCarousel {
    const testimonials: Option<seq<Testimonial>>
    var currentIndex: int

    ghost predicate Valid()
      reads this`currentIndex
    {
      0 <= currentIndex && (|SafeTestimonials(testimonials)| > 0 ==> currentIndex < |SafeTestimonials(testimonials)|)
    }

    constructor (testimonials: Option<seq<Testimonial>>)
      ensures Valid() && this.testimonials == testimonials && currentIndex == 0
    {
      this.testimonials := testimonials;
      currentIndex := 0;
    }

    function Items(): seq<Testimonial> {
      SafeTestimonials(testimonials)
    }

    /** The carousel card is rendered only when there is a testimonial. */
    predicate CarouselShown() {
      |Items()| > 0
    }

    /** The arrows and the dots are rendered only when there is more than one testimonial. */
    predicate ControlsShown() {
      |Items()| > 1
    }

    /** `safeTestimonials[currentIndex]`; `None` is `undefined`. */
    function Current(): (r: Option<Testimonial>)
      reads this`currentIndex
      ensures r.Some? <==> 0 <= currentIndex < |Items()|
      ensures r.Some? ==> r.value == Items()[currentIndex]
    {
      if 0 <= currentIndex < |Items()| then Some(Items()[currentIndex]) else None
    }

    /** `nextTestimonial`; the arrows exist only when there are testimonials, so the length is positive. */
    method NextTestimonial()
      requires Valid() && |Items()| > 0
      modifies this`currentIndex
      ensures Valid() && Current().Some?
      ensures currentIndex == Cycle.Next(old(currentIndex), |Items()|)
    {
      Cycle.StepsStayInRange(currentIndex, |Items()|);
      currentIndex := Cycle.Next(currentIndex, |Items()|);
    }

    /** `prevTestimonial`. */
    method PrevTestimonial()
      requires Valid() && |Items()| > 0
      modifies this`currentIndex
      ensures Valid() && Current().Some?
      ensures currentIndex == Cycle.Prev(old(currentIndex), |Items()|)
    {
      Cycle.StepsStayInRange(currentIndex, |Items()|);
      currentIndex := Cycle.Prev(currentIndex, |Items()|);
    }

    /** `goToTestimonial(index)`: the index is taken as it is, with no bounds check. */
    method GoToTestimonial(index: int)
      modifies this`currentIndex
      ensures currentIndex == index
      ensures Current().Some? <==> 0 <= index < |Items()|
    {
      currentIndex := index;
    }

    /** A click on dot `k`: the dots are drawn one per testimonial, so `k` is in range. */
    method ClickDot(k: int)
      requires 0 <= k < |Items()|
      modifies this`currentIndex
      ensures Valid() && currentIndex == k && Current() == Some(Items()[k])
    {
      GoToTestimonial(k);
    }
  }

  // ---------------------------------------------------------------------------
  // Lemmas

  /** The fallback to the empty list changes nothing but the absent case: the list is the given one or empty. */
  lemma SafeTestimonialsMeaning(testimonials: Option<seq<Testimonial>>)
    ensures SafeTestimonials(testimonials) == testimonials.GetOr([])
    ensures |SafeTestimonials(testimonials)| == 0 <==> testimonials.None? || testimonials.value == []
  {
  }

  /** The card shows exactly when testimonials were given; the controls need at least two of them. */
  lemma RenderConditions(c: TestimonialCarousel)
    ensures c.CarouselShown() <==> c.testimonials.Some? && |c.testimonials.value| > 0
    ensures c.ControlsShown() <==> c.testimonials.Some? && |c.testimonials.value| > 1
    ensures c.ControlsShown() ==> c.CarouselShown()
  {
  }
}
