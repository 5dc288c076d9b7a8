/**
 * Slide navigation of the pitch deck: an index into the slides that the
 * Previous and Next buttons move by one with wrap-around arithmetic, the
 * indicator dots set directly, and the header shows as "Slide i / n".
 *
 * The arithmetic uses JavaScript's `%`, which truncates; its operands are
 * never negative here, so it agrees with Dafny's `%`.
 */
module PitchDeck {

  /** The slides, by title, in presentation order. */
  const SlideTitles: seq<string> := [
    "CashVault", "The Problem", "The Solution", "Products",
    "The Power of Saving", "Market Opportunity", "Future Vision", "Join Us"
  ]

  /** `slides.length`: the deck has eight slides. */
  function SlideCount(): (n: nat)
    ensures n == 8
  {
    |SlideTitles|
  }

  /** `(prev + 1) % n`: one slide on, wrapping from the last to the first. */
  function NextIndex(i: nat, n: nat): (j: nat)
    requires i < n
    ensures j < n
    ensures i + 1 < n ==> j == i + 1
    ensures i + 1 == n ==> j == 0
  {
    (i + 1) % n
  }

  /** `(prev - 1 + n) % n`: one slide back, wrapping from the first to the last. */
  function PrevIndex(i: nat, n: nat): (j: nat)
    requires i < n
    ensures j < n
    ensures 0 < i ==> j == i - 1
    ensures i == 0 ==> j == n - 1
  {
    (i - 1 + n) % n
  }

  /** Going back undoes going on. */
  lemma PrevUndoesNext(i: nat, n: nat)
    requires i < n
    ensures PrevIndex(NextIndex(i, n), n) == i
  {
  }

  /** Going on undoes going back. */
  lemma NextUndoesPrev(i: nat, n: nat)
    requires i < n
    ensures NextIndex(PrevIndex(i, n), n) == i
  {
  }

  /**
   * Previous is disabled on the first slide, which is exactly where going
   * back would wrap around: an enabled Previous moves to i - 1.
   */
  predicate PrevDisabled(i: nat, n: nat): (disabled: bool)
    requires i < n
    ensures disabled <==> PrevIndex(i, n) != i - 1
  {
    i == 0
  }

  /**
   * Next is disabled on the last slide, which is exactly where going on
   * would wrap around: an enabled Next moves to i + 1.
   */
  predicate NextDisabled(i: nat, n: nat): (disabled: bool)
    requires i < n
    ensures disabled <==> NextIndex(i, n) != i + 1
  {
    i == n - 1
  }

  /** The header's "Slide i / n": the position counted from one, and the number of slides. */
  function Indicator(i: nat, n: nat): (shown: (nat, nat))
    requires i < n
    ensures 1 <= shown.0 <= shown.1 && shown.1 == n
    ensures shown.0 - 1 == i
  {
    (i + 1, n)
  }

  /** The deck component's state: the index of the slide on screen. */
  class Deck {
    var current: nat

    ghost predicate Valid()
      reads this
    {
      current < SlideCount()
    }

    /** The deck opens on the first slide. */
    constructor ()
      ensures Valid() && current == 0
    {
      current := 0;
    }

    method NextSlide()
      requires Valid()
      modifies this
      ensures Valid() && current == NextIndex(old(current), SlideCount())
    {
      current := NextIndex(current, SlideCount());
    }

    method PrevSlide()
      requires Valid()
      modifies this
      ensures Valid() && current == PrevIndex(old(current), SlideCount())
    {
      current := PrevIndex(current, SlideCount());
    }

    /** An indicator dot selects its own slide; the dots exist only for indices of slides. */
    method GoToSlide(k: nat)
      requires Valid() && k < SlideCount()
      modifies this
      ensures Valid() && current == k
    {
      current := k;
    }

    /** The title of the slide on screen, `slides[currentSlide]`. */
    function Title(): (title: string)
      reads this
      requires Valid()
      ensures title in SlideTitles
    {
      SlideTitles[current]
    }
  }
}
