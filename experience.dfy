/** The experience carousel: one active card out of `n`, stepped cyclically by
    the previous/next buttons and set directly by the pagination dots. */
module Experience {

  /** Index of the card after `i` (the "next" button). The argument of `%` is
      never negative, so the JavaScript remainder and Dafny's agree. */
  function Next(i: nat, n: nat): (r: nat)
    requires 0 < n && i < n
    ensures r < n
    ensures r == if i == n - 1 then 0 else i + 1
  {
    (i + 1) % n
  }

  /** Index of the card before `i` (the "previous" button): `(i - 1 + n) % n`,
      whose argument is never negative either. */
  function Prev(i: nat, n: nat): (r: nat)
    requires 0 < n && i < n
    ensures r < n
    ensures r == if i == 0 then n - 1 else i - 1
  {
    (i - 1 + n) % n
  }

  /** The "next" button pressed `k` times starting at `i`. */
  function NextTimes(i: nat, n: nat, k: nat): (r: nat)
    requires 0 < n && i < n
    ensures r < n
  {
    if k == 0 then i else Next(NextTimes(i, n, k - 1), n)
  }

  /** Going back undoes going forward. */
  lemma PrevOfNext(i: nat, n: nat)
    requires 0 < n && i < n
    ensures Prev(Next(i, n), n) == i
  {
  }

  /** Going forward undoes going back. */
  lemma NextOfPrev(i: nat, n: nat)
    requires 0 < n && i < n
    ensures Next(Prev(i, n), n) == i
  {
  }

  /** Within one turn, pressing "next" `k` times moves `k` places forward,
      wrapping past the last entry once. */
  lemma {:induction false} NextTimesIsShift(i: nat, n: nat, k: nat)
    requires 0 < n && i < n && k <= n
    ensures NextTimes(i, n, k) == if i + k < n then i + k else i + k - n
  {
    if k > 0 {
      NextTimesIsShift(i, n, k - 1);
    }
  }

  /** A full turn of the carousel returns to the starting card. */
  lemma FullTurn(i: nat, n: nat)
    requires 0 < n && i < n
    ensures NextTimes(i, n, n) == i
  {
    NextTimesIsShift(i, n, n);
  }

  /** The buttons and the dots are rendered only when there is more than one entry. */
  predicate ShowsControls(n: nat)
  {
    n > 1
  }

  /** When the controls are hidden there is a single entry, and both buttons
      would keep the index anyway. */
  lemma SingleEntryIsFixed(i: nat, n: nat)
    requires i < n && !ShowsControls(n)
    ensures n == 1 && Next(i, n) == i && Prev(i, n) == i
  {
  }

  /** The carousel state: the list length is fixed, the active index moves. */
  class Carousel {
    const n: nat
    var activeIndex: nat

    ghost predicate Valid()
      reads this
    {
      activeIndex < n
    }

    /** The carousel starts on the first entry. */
    constructor (count: nat)
      requires 0 < count
      ensures Valid() && n == count && activeIndex == 0
    {
      n := count;
      activeIndex := 0;
    }

    /** The pagination dot `k` is highlighted iff it is the active entry. */
    predicate DotHighlighted(k: nat)
      reads this
    {
      k == activeIndex
    }

    /** When the dots are shown, exactly one is highlighted: the active one. */
    lemma OneDotHighlighted()
      requires Valid() && ShowsControls(n)
      ensures (set k | 0 <= k < n && DotHighlighted(k)) == {activeIndex}
    {
    }

    method HandleNext()
      requires Valid()
      modifies this
      ensures Valid() && activeIndex == Next(old(activeIndex), n)
    {
      activeIndex := (activeIndex + 1) % n;
    }

    method HandlePrev()
      requires Valid()
      modifies this
      ensures Valid() && activeIndex == Prev(old(activeIndex), n)
    {
      activeIndex := (activeIndex - 1 + n) % n;
    }

    /** Clicking dot `k`; the dots are indexed by the entries, so `k < n`. */
    method SelectDot(k: nat)
      requires Valid() && k < n
      modifies this
      ensures Valid() && activeIndex == k
      ensures forall j :: 0 <= j < n ==> (DotHighlighted(j) <==> j == k)
    {
      activeIndex := k;
    }
  }
}
