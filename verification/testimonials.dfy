/**
 * The testimonial carousel: a cyclic index over the non-empty list of
 * testimonials, moved by "next", "prev" and by clicking one of the dots.
 */
module Testimonials {

  /** One entry of the testimonial list. */
  datatype Testimonial = Testimonial(
    id: nat,
    name: string,
    role: string,
    initials: string,
    gradient: string,
    content: string)

  /** The list the carousel shows (three entries; the quoted texts are abbreviated). */
  function Shipped(): (ts: seq<Testimonial>)
    ensures |ts| == 3
    ensures forall k :: 0 <= k < |ts| ==> ts[k].id == k + 1
  {
    [ Testimonial(1, "Sarah Mitchell", "VP of Engineering, TechCorp", "SM", "#3b82f6, #8b5cf6",
                  "Alex is an exceptional frontend engineer ..."),
      Testimonial(2, "David Johnson", "CTO, StartupXYZ", "DJ", "#10b981, #06b6d4",
                  "Working with Alex was a game-changer for our startup ..."),
      Testimonial(3, "Emily Rodriguez", "Senior Developer, InnovateTech", "ER", "#8b5cf6, #ec4899",
                  "Alex's mentorship and technical leadership transformed our frontend team ...") ]
  }

  /**
   * JavaScript's `%` on numbers: the remainder of a division truncated toward
   * zero, which carries the sign of the dividend (Dafny's own `%` never goes
   * negative).
   */
  function JsRem(a: int, b: int): (r: int)
    requires b > 0
    ensures a == JsQuot(a, b) * b + r
    ensures -b < r < b
    ensures a >= 0 ==> r >= 0
    ensures a <= 0 ==> r <= 0
  {
    if a >= 0 then a % b else -((-a) % b)
  }

  /** The quotient of `a / b` truncated toward zero, which `JsRem` leaves a remainder of. */
  function JsQuot(a: int, b: int): int
    requires b > 0
  {
    if a >= 0 then a / b else -((-a) / b)
  }

  lemma MulAtLeast(x: int, b: int)
    requires x >= 1 && b > 0
    ensures x * b >= b
  {
    assert x * b == (x - 1) * b + b;
    assert (x - 1) * b >= 0;
  }

  /** A remainder is determined by any decomposition `a == q * b + r` with `0 <= r < b`. */
  lemma ModUnique(a: int, b: int, q: int, r: int)
    requires b > 0 && 0 <= r < b && a == q * b + r
    ensures a % b == r
  {
    var q', r' := a / b, a % b;
    assert a == q' * b + r';
    assert (q - q') * b == r' - r;
    if q > q' {
      MulAtLeast(q - q', b);
    } else if q' > q {
      MulAtLeast(q' - q, b);
    }
  }

  /** The index after `nextTestimonial`: `(prev + 1) % length`. */
  function NextIndex(i: int, n: int): (r: int)
    requires n > 0
    ensures 0 <= i < n ==> 0 <= r < n
  {
    JsRem(i + 1, n)
  }

  /** The index after `prevTestimonial`: `(prev - 1 + length) % length`. */
  function PrevIndex(i: int, n: int): (r: int)
    requires n > 0
    ensures 0 <= i < n ==> 0 <= r < n
  {
    JsRem(i - 1 + n, n)
  }

  /** `next` steps forward by one and wraps from the last index to 0. */
  lemma NextIndexSteps(i: int, n: int)
    requires 0 <= i < n
    ensures NextIndex(i, n) == if i == n - 1 then 0 else i + 1
    ensures 0 <= NextIndex(i, n) < n
  {
    if i == n - 1 {
      ModUnique(i + 1, n, 1, 0);
    } else {
      ModUnique(i + 1, n, 0, i + 1);
    }
  }

  /** `prev` steps back by one and wraps from 0 to the last index. */
  lemma PrevIndexSteps(i: int, n: int)
    requires 0 <= i < n
    ensures PrevIndex(i, n) == if i == 0 then n - 1 else i - 1
    ensures 0 <= PrevIndex(i, n) < n
  {
    if i == 0 {
      ModUnique(i - 1 + n, n, 0, n - 1);
    } else {
      ModUnique(i - 1 + n, n, 1, i - 1);
    }
  }

  /** Without adding the length first, `prev` from 0 would yield -1, an index outside the list. */
  lemma PrevNeedsShift(n: int)
    requires n > 1
    ensures JsRem(0 - 1, n) == -1
  {
  }

  /** `prev` undoes `next`. */
  lemma PrevAfterNext(i: int, n: int)
    requires 0 <= i < n
    ensures PrevIndex(NextIndex(i, n), n) == i
  {
    NextIndexSteps(i, n);
    PrevIndexSteps(NextIndex(i, n), n);
  }

  /** `next` undoes `prev`. */
  lemma NextAfterPrev(i: int, n: int)
    requires 0 <= i < n
    ensures NextIndex(PrevIndex(i, n), n) == i
  {
    PrevIndexSteps(i, n);
    NextIndexSteps(PrevIndex(i, n), n);
  }

  /** The index after `k` consecutive `next` steps (clicks or autoplay ticks). */
  function NextTimes(i: int, n: int, k: nat): int
    requires n > 0
    decreases k
  {
    if k == 0 then i else NextIndex(NextTimes(i, n, k - 1), n)
  }

  /** One `next` step on a remainder is the remainder of the successor. */
  lemma NextOfRemainder(a: int, n: int)
    requires a >= 0 && n > 0
    ensures NextIndex(a % n, n) == (a + 1) % n
  {
    var q, j := a / n, a % n;
    assert a == q * n + j;
    NextIndexSteps(j, n);
    if j == n - 1 {
      ModUnique(a + 1, n, q + 1, 0);
    } else {
      ModUnique(a + 1, n, q, j + 1);
    }
  }

  /** `k` steps of `next` advance the index by `k` positions modulo the length. */
  lemma {:induction false} NextTimesShifts(i: int, n: int, k: nat)
    requires 0 <= i < n
    ensures NextTimes(i, n, k) == (i + k) % n
    decreases k
  {
    if k > 0 {
      NextTimesShifts(i, n, k - 1);
      NextOfRemainder(i + k - 1, n);
    }
  }

  /** Going `next` once per testimonial comes back to the starting one. */
  lemma {:induction false} FullCycle(i: int, n: int)
    requires 0 <= i < n
    ensures NextTimes(i, n, n) == i
  {
    NextTimesShifts(i, n, n);
    ModUnique(i + n, n, 1, i);
  }

  /**
   * The carousel of `TestimonialsSection`: `items` is the fixed list and
   * `currentIndex` the state updated by the handlers.
   */
  class Carousel {
    const items: seq<Testimonial>
    var currentIndex: int

    /** The list is never empty; the handlers' modular arithmetic relies on it. */
    ghost predicate Valid()
      reads this
    {
      |items| > 0
    }

    /** The index points at an entry of the list, so the rendered reads stay in bounds. */
    predicate InRange()
      reads this
    {
      0 <= currentIndex < |items|
    }

    constructor (items: seq<Testimonial>)
      requires |items| > 0
      ensures Valid() && this.items == items
      ensures currentIndex == 0 && InRange()
    {
      this.items := items;
      currentIndex := 0;
    }

    /** `nextTestimonial`, also what every autoplay tick calls. */
    method Next()
      requires Valid()
      modifies this
      ensures Valid()
      ensures currentIndex == NextIndex(old(currentIndex), |items|)
      ensures old(InRange()) ==> InRange()
      ensures old(currentIndex) == |items| - 1 ==> currentIndex == 0
    {
      currentIndex := JsRem(currentIndex + 1, |items|);
      if old(InRange()) {
        NextIndexSteps(old(currentIndex), |items|);
      }
    }

    /** `prevTestimonial`. */
    method Prev()
      requires Valid()
      modifies this
      ensures Valid()
      ensures currentIndex == PrevIndex(old(currentIndex), |items|)
      ensures old(InRange()) ==> InRange()
      ensures old(currentIndex) == 0 ==> currentIndex == |items| - 1
    {
      currentIndex := JsRem(currentIndex - 1 + |items|, |items|);
      if old(InRange()) {
        PrevIndexSteps(old(currentIndex), |items|);
      }
    }

    /** `goToTestimonial`: the index is set exactly as given, with no check of its own. */
    method GoTo(index: int)
      requires Valid()
      modifies this
      ensures Valid()
      ensures currentIndex == index
      ensures InRange() <==> 0 <= index < |items|
    {
      currentIndex := index;
    }

    /** The dot at position `k` is drawn highlighted exactly when it is the current one. */
    predicate DotHighlighted(k: int)
      reads this
    {
      k == currentIndex
    }

    /** The testimonial on display, `testimonials[currentIndex]`. */
    function Shown(): (t: Testimonial)
      reads this
      requires InRange()
      ensures t in items
    {
      items[currentIndex]
    }
  }

  /** The section's carousel over the shipped list starts on the first testimonial. */
  method NewSectionCarousel() returns (c: Carousel)
    ensures fresh(c) && c.Valid() && c.items == Shipped()
    ensures c.InRange() && c.Shown() == Shipped()[0]
  {
    c := new Carousel(Shipped());
  }

  /**
   * Clicking dot `k`, which the dot row draws only for `0 <= k < |items|`,
   * keeps the index in range, highlights exactly that dot, and shows entry `k`.
   */
  method ClickDot(c: Carousel, k: nat)
    requires c.Valid() && k < |c.items|
    modifies c
    ensures c.Valid() && c.InRange() && c.Shown() == c.items[k]
    ensures forall j :: 0 <= j < |c.items| ==> (c.DotHighlighted(j) <==> j == k)
  {
    c.GoTo(k);
  }

  /** Prev after Next, driven through the class, restores the shown entry. */
  method NextThenPrev(c: Carousel)
    requires c.Valid() && c.InRange()
    modifies c
    ensures c.Valid() && c.InRange() && c.currentIndex == old(c.currentIndex)
  {
    ghost var start := c.currentIndex;
    c.Next();
    c.Prev();
    PrevAfterNext(start, |c.items|);
  }
}
