/** Stacking locks on memory pages by counting, for each page, the locked ranges that touch it. */
module LockedPages {
  import opened Arithmetic
  import opened Pages

  datatype Range = Range(base: nat, size: nat)

  /** A range of addresses is within the address space. */
  predicate InMemory(r: Range) {
    r.base + r.size <= WORD
  }

  predicate Touches(r: Range, page: nat, pageSize: nat) {
    r.size > 0 && page < r.base + r.size && r.base < page + pageSize
  }

  predicate LiesIn(a: nat, base: nat, size: nat) {
    base <= a < base + size
  }

  /** A range touches a page if some address of it is on the page. */
  lemma TouchesAddress(r: Range, page: nat, pageSize: nat)
    requires pageSize > 0
    ensures Touches(r, page, pageSize) <==> exists a: nat :: LiesIn(a, r.base, r.size) && LiesIn(a, page, pageSize)
  {
    if Touches(r, page, pageSize) {
      var a := if r.base < page then page else r.base;
      assert LiesIn(a, r.base, r.size) && LiesIn(a, page, pageSize);
    }
  }

  /** The number of ranges that touch a page. */
  ghost function Touching(live: multiset<Range>, page: nat, pageSize: nat): nat {
    if live == multiset{} then 0
    else
      var r :| r in live;
      Touching(live - multiset{r}, page, pageSize) + if Touches(r, page, pageSize) then 1 else 0
  }

  lemma {:induction false} TouchingWithout(live: multiset<Range>, r: Range, page: nat, pageSize: nat)
    requires r in live
    ensures Touching(live, page, pageSize)
            == Touching(live - multiset{r}, page, pageSize) + if Touches(r, page, pageSize) then 1 else 0
    decreases |live|
  {
    var x :| x in live && Touching(live, page, pageSize)
                          == Touching(live - multiset{x}, page, pageSize) + if Touches(x, page, pageSize) then 1 else 0;
    if x != r {
      TouchingWithout(live - multiset{x}, r, page, pageSize);
      TouchingWithout(live - multiset{r}, x, page, pageSize);
      assert live - multiset{x} - multiset{r} == live - multiset{r} - multiset{x};
    }
  }

  lemma {:induction false} TouchingWith(live: multiset<Range>, r: Range, page: nat, pageSize: nat)
    ensures Touching(live + multiset{r}, page, pageSize)
            == Touching(live, page, pageSize) + if Touches(r, page, pageSize) then 1 else 0
  {
    TouchingWithout(live + multiset{r}, r, page, pageSize);
    assert live + multiset{r} - multiset{r} == live;
  }

  /** A page is counted exactly if some live range touches it. */
  lemma {:induction false} TouchedIff(live: multiset<Range>, page: nat, pageSize: nat)
    ensures Touching(live, page, pageSize) > 0 <==> exists r :: r in live && Touches(r, page, pageSize)
    decreases |live|
  {
    if r :| r in live && Touches(r, page, pageSize) {
      TouchingWithout(live, r, page, pageSize);
    }
    if live != multiset{} {
      var x :| x in live && Touching(live, page, pageSize)
                            == Touching(live - multiset{x}, page, pageSize) + if Touches(x, page, pageSize) then 1 else 0;
      TouchedIff(live - multiset{x}, page, pageSize);
    }
  }

  // ---------------------------------------------------------------- the walk over the pages

  predicate IsPage(page: nat, pageSize: nat)
    requires pageSize > 0
  {
    page < WORD && page % pageSize == 0
  }

  function FirstPage(r: Range, pageSize: nat): nat
    requires IsPageSize(pageSize)
  {
    PageOf(r.base, pageSize)
  }

  function LastPage(r: Range, pageSize: nat): nat
    requires IsPageSize(pageSize) && r.size > 0
  {
    PageOf((r.base + r.size - 1) % WORD, pageSize)
  }

  lemma MultiplesApart(a: nat, b: nat, d: nat)
    requires d > 0 && a % d == 0 && b % d == 0 && a < b
    ensures a + d <= b
  {
    var m, n := a / d, b / d;
    assert a == m * d && b == n * d;
    ProductsOrdered(n, m, d);
    ProductsOrdered(m + 1, n, d);
  }

  lemma ProductsOrdered(m: nat, n: nat, d: nat)
    ensures m <= n ==> m * d <= n * d
  {
    assert m <= n ==> (n - m) * d >= 0;
  }

  lemma RemainderGone(a: nat, d: nat)
    requires d > 0
    ensures (a - a % d) % d == 0
  {
    assert a - a % d == (a / d) * d;
    Quotient(a - a % d, d, a / d, 0);
  }

  /** The pages a range touches are those from its first to its last. */
  lemma TouchesIff(r: Range, page: nat, pageSize: nat)
    requires IsPageSize(pageSize) && InMemory(r) && r.size > 0 && IsPage(page, pageSize)
    ensures FirstPage(r, pageSize) <= LastPage(r, pageSize) && IsPage(FirstPage(r, pageSize), pageSize)
    ensures IsPage(LastPage(r, pageSize), pageSize)
    ensures Touches(r, page, pageSize) <==> FirstPage(r, pageSize) <= page <= LastPage(r, pageSize)
  {
    var last := r.base + r.size - 1;
    assert last % WORD == last;
    PageOfIs(r.base, pageSize);
    PageOfIs(last, pageSize);
    RemainderGone(r.base, pageSize);
    RemainderGone(last, pageSize);
    var first, end := FirstPage(r, pageSize), LastPage(r, pageSize);
    if end < first {
      MultiplesApart(end, first, pageSize);
    }
    if page < first {
      MultiplesApart(page, first, pageSize);
    }
    if end < page {
      MultiplesApart(end, page, pageSize);
    }
  }

  /** The page after n steps; the addition wraps around. */
  function Visited(first: nat, pageSize: nat, n: nat): nat {
    if n == 0 then first else (Visited(first, pageSize, n - 1) + pageSize) % WORD
  }

  lemma {:induction false} VisitedIsPage(first: nat, pageSize: nat, n: nat)
    requires IsPageSize(pageSize) && IsPage(first, pageSize)
    ensures IsPage(Visited(first, pageSize, n), pageSize)
    decreases n
  {
    if n > 0 {
      VisitedIsPage(first, pageSize, n - 1);
      NextIsPage(Visited(first, pageSize, n - 1), pageSize);
    }
  }

  lemma WrappedIsPage(next: nat, pageSize: nat)
    requires pageSize > 0 && next % pageSize == 0 && next <= WORD
    ensures next % WORD == (if next == WORD then 0 else next) && IsPage(next % WORD, pageSize)
  {
    if next == WORD {
      assert next % WORD == 0;
    } else {
      assert next % WORD == next;
    }
  }

  lemma NextIsPage(page: nat, pageSize: nat)
    requires IsPageSize(pageSize) && IsPage(page, pageSize)
    ensures IsPage((page + pageSize) % WORD, pageSize)
    ensures page + pageSize < WORD || page + pageSize == WORD
  {
    PageOfIs(page, pageSize);
    hide IsPageSize;
    MultiplesApart(page, WORD, pageSize);
    NextMultiple(page, pageSize);
    WrappedIsPage(page + pageSize, pageSize);
  }

  lemma NextMultiple(a: nat, d: nat)
    requires d > 0 && a % d == 0
    ensures (a + d) % d == 0
  {
    assert a + d == (a / d + 1) * d;
    Quotient(a + d, d, a / d + 1, 0);
  }

  /** The walk over the pages of a range ends if and only if it does not reach the last page of all. */
  lemma {:induction false} WalkEndsIff(r: Range, pageSize: nat)
    requires IsPageSize(pageSize) && InMemory(r) && r.size > 0
    ensures (exists n: nat :: Visited(FirstPage(r, pageSize), pageSize, n) > LastPage(r, pageSize))
            <==> LastPage(r, pageSize) + pageSize < WORD
  {
    var first, end := FirstPage(r, pageSize), LastPage(r, pageSize);
    PageOfIs(r.base, pageSize);
    RemainderGone(r.base, pageSize);
    TouchesIff(r, first, pageSize);
    NextIsPage(end, pageSize);
    if end + pageSize < WORD {
      WalkReaches(first, end, pageSize);
    } else {
      forall n: nat ensures Visited(first, pageSize, n) <= end {
        VisitedIsPage(first, pageSize, n);
        PageOfIs(first, pageSize);
        MultiplesApart(Visited(first, pageSize, n), WORD, pageSize);
      }
    }
  }

  lemma {:induction false} WalkReaches(first: nat, end: nat, pageSize: nat)
    requires IsPageSize(pageSize) && IsPage(first, pageSize) && IsPage(end, pageSize) && first <= end
    requires end + pageSize < WORD
    ensures exists n: nat :: Visited(first, pageSize, n) > end
  {
    var n: nat := 0;
    while Visited(first, pageSize, n) <= end
      invariant IsPage(Visited(first, pageSize, n), pageSize)
      decreases end + pageSize - Visited(first, pageSize, n)
    {
      NextIsPage(Visited(first, pageSize, n), pageSize);
      n := n + 1;
    }
  }

  class LockedPageManager {
    const pageSize: nat
    var histogram: map<nat, int>
    /** The pages locked in the operating system, where locks do not stack. */
    var locked: set<nat>
    /** The ranges locked and not yet unlocked. */
    ghost var live: multiset<Range>

    /** Each count is the number of live ranges on its page, and the counted pages are locked. */
    ghost predicate Valid()
      reads this
    {
      && IsPageSize(pageSize)
      && (forall r | r in live :: InMemory(r))
      && PositiveCounts(histogram, pageSize)
      && Counts(histogram, live, pageSize)
      && locked == histogram.Keys
    }

    constructor (pageSize: nat)
      requires IsPageSize(pageSize)
      ensures Valid() && live == multiset{} && locked == {}
    {
      this.pageSize, histogram, locked, live := pageSize, map[], {}, multiset{};
    }

    method LockPage(page: nat)
      requires pageSize > 0 && PositiveCounts(histogram, pageSize) && IsPage(page, pageSize) && locked == histogram.Keys
      modifies this`histogram, this`locked
      ensures PositiveCounts(histogram, pageSize) && locked == histogram.Keys
      ensures OnePage(old(histogram), histogram, page, 1)
    {
      if page !in histogram {
        locked := locked + {page};
        histogram := histogram[page := 1];
      } else {
        histogram := histogram[page := histogram[page] + 1];
      }
    }

    /** The page must have been locked. */
    method UnlockPage(page: nat)
      requires pageSize > 0 && PositiveCounts(histogram, pageSize) && page in histogram && locked == histogram.Keys
      modifies this`histogram, this`locked
      ensures PositiveCounts(histogram, pageSize) && locked == histogram.Keys
      ensures OnePage(old(histogram), histogram, page, -1)
    {
      histogram := histogram[page := histogram[page] - 1];
      if histogram[page] == 0 {
        locked := locked - {page};
        histogram := histogram - {page};
      }
    }

    /** Locks a range: one more range counts on each of the pages it touches, and on no other. */
    method LockRange(base: nat, size: nat)
      requires Valid() && InMemory(Range(base, size))
      requires size > 0 ==> LastPage(Range(base, size), pageSize) + pageSize < WORD
      modifies this
      ensures Valid() && live == if size > 0 then old(live) + multiset{Range(base, size)} else old(live)
    {
      hide PageOf, And, Touching, Touches, OnePage, PagesDone;
      if size == 0 {
        return;
      }
      var r := Range(base, size);
      var page := FirstPage(r, pageSize);
      var endPage := LastPage(r, pageSize);
      FirstIsPage(r, pageSize);
      NothingYet(histogram, page, endPage, pageSize);
      ghost var first := page;
      while page <= endPage
        invariant IsPage(page, pageSize) && first <= page && live == old(live) && locked == histogram.Keys
        invariant PositiveCounts(histogram, pageSize)
        invariant PagesDone(old(histogram), histogram, first, page, endPage, pageSize, 1)
        decreases endPage + pageSize - page
      {
        ghost var before := histogram;
        LockPage(page);
        PageDone(old(histogram), before, histogram, first, page, endPage, pageSize, 1);
        page := (page + pageSize) % WORD;
      }
      CountsWith(old(histogram), histogram, live, r, page, pageSize);
      live := live + multiset{r};
    }

    /** Unlocks a range locked before; a page is unlocked when no other range touches it. */
    method UnlockRange(base: nat, size: nat)
      requires Valid() && (size > 0 ==> Range(base, size) in live)
      requires size > 0 ==> LastPage(Range(base, size), pageSize) + pageSize < WORD
      modifies this
      ensures Valid() && live == if size > 0 then old(live) - multiset{Range(base, size)} else old(live)
    {
      hide PageOf, And, Touching, Touches, OnePage, PagesDone;
      if size == 0 {
        return;
      }
      var r := Range(base, size);
      var page := FirstPage(r, pageSize);
      var endPage := LastPage(r, pageSize);
      FirstIsPage(r, pageSize);
      NothingYet(histogram, page, endPage, pageSize);
      ghost var first := page;
      while page <= endPage
        invariant IsPage(page, pageSize) && first <= page && live == old(live) && locked == histogram.Keys
        invariant PositiveCounts(histogram, pageSize)
        invariant PagesDone(old(histogram), histogram, first, page, endPage, pageSize, -1)
        decreases endPage + pageSize - page
      {
        ghost var before := histogram;
        StillCounted(old(histogram), histogram, live, r, page, pageSize);
        UnlockPage(page);
        PageDone(old(histogram), before, histogram, first, page, endPage, pageSize, -1);
        page := (page + pageSize) % WORD;
      }
      CountsWithout(old(histogram), histogram, live, r, page, pageSize);
      live := live - multiset{r};
    }

    /** How many pages some live range touches. */
    method GetLockedPageCount() returns (n: int)
      requires Valid()
      ensures n == |locked|
      ensures forall q: nat | IsPage(q, pageSize) :: q in locked <==> exists r :: r in live && Touches(r, q, pageSize)
    {
      n := |histogram|;
      assert |histogram.Keys| == |histogram|;
      forall q: nat | IsPage(q, pageSize) ensures q in locked <==> exists r :: r in live && Touches(r, q, pageSize) {
        TouchedIff(live, q, pageSize);
        assert CountOf(histogram, q) == Touching(live, q, pageSize);
      }
    }
  }

  function CountOf(histogram: map<nat, int>, page: nat): int {
    if page in histogram then histogram[page] else 0
  }

  ghost predicate PositiveCounts(histogram: map<nat, int>, pageSize: nat)
    requires pageSize > 0
  {
    forall q | q in histogram :: IsPage(q, pageSize) && histogram[q] > 0
  }

  ghost predicate Counts(histogram: map<nat, int>, live: multiset<Range>, pageSize: nat)
    requires pageSize > 0
  {
    forall q: nat | IsPage(q, pageSize) :: CountOf(histogram, q) == Touching(live, q, pageSize)
  }

  ghost predicate OnePage(before: map<nat, int>, after: map<nat, int>, page: nat, change: int) {
    forall q: nat :: CountOf(after, q) == CountOf(before, q) + if q == page then change else 0
  }

  /** Exactly the pages from first up to, but without, `page` have changed, none beyond the end. */
  ghost predicate PagesDone(before: map<nat, int>, after: map<nat, int>, first: nat, page: nat, endPage: nat,
                            pageSize: nat, change: int)
    requires pageSize > 0
  {
    forall q: nat | IsPage(q, pageSize) ::
      CountOf(after, q) == CountOf(before, q) + if first <= q < page && q <= endPage then change else 0
  }

  lemma FirstIsPage(r: Range, pageSize: nat)
    requires IsPageSize(pageSize) && InMemory(r) && r.size > 0
    ensures var first, end := FirstPage(r, pageSize), LastPage(r, pageSize);
            first <= end && IsPage(first, pageSize) && IsPage(end, pageSize)
  {
    PageOfIs(r.base, pageSize);
    RemainderGone(r.base, pageSize);
    TouchesIff(r, FirstPage(r, pageSize), pageSize);
  }

  lemma NothingYet(histogram: map<nat, int>, first: nat, endPage: nat, pageSize: nat)
    requires pageSize > 0
    ensures PagesDone(histogram, histogram, first, first, endPage, pageSize, 1)
    ensures PagesDone(histogram, histogram, first, first, endPage, pageSize, -1)
  {
  }

  lemma PageDone(start: map<nat, int>, before: map<nat, int>, after: map<nat, int>, first: nat, page: nat,
                 endPage: nat, pageSize: nat, change: int)
    requires IsPageSize(pageSize) && IsPage(page, pageSize) && IsPage(endPage, pageSize)
    requires first <= page <= endPage && endPage + pageSize < WORD
    requires PagesDone(start, before, first, page, endPage, pageSize, change) && OnePage(before, after, page, change)
    ensures (page + pageSize) % WORD == page + pageSize && IsPage(page + pageSize, pageSize)
    ensures PagesDone(start, after, first, page + pageSize, endPage, pageSize, change)
  {
    WalkStep(first, page, endPage, pageSize);
  }

  lemma CountsWith(before: map<nat, int>, after: map<nat, int>, live: multiset<Range>, r: Range, page: nat,
                   pageSize: nat)
    requires IsPageSize(pageSize) && InMemory(r) && r.size > 0 && page > LastPage(r, pageSize)
    requires Counts(before, live, pageSize)
    requires PagesDone(before, after, FirstPage(r, pageSize), page, LastPage(r, pageSize), pageSize, 1)
    ensures Counts(after, live + multiset{r}, pageSize)
  {
    forall q: nat | IsPage(q, pageSize) ensures CountOf(after, q) == Touching(live + multiset{r}, q, pageSize) {
      TouchesIff(r, q, pageSize);
      TouchingWith(live, r, q, pageSize);
    }
  }

  lemma CountsWithout(before: map<nat, int>, after: map<nat, int>, live: multiset<Range>, r: Range, page: nat,
                      pageSize: nat)
    requires IsPageSize(pageSize) && InMemory(r) && r.size > 0 && page > LastPage(r, pageSize) && r in live
    requires Counts(before, live, pageSize)
    requires PagesDone(before, after, FirstPage(r, pageSize), page, LastPage(r, pageSize), pageSize, -1)
    ensures Counts(after, live - multiset{r}, pageSize)
  {
    forall q: nat | IsPage(q, pageSize) ensures CountOf(after, q) == Touching(live - multiset{r}, q, pageSize) {
      TouchesIff(r, q, pageSize);
      TouchingWithout(live, r, q, pageSize);
    }
  }

  /** A page of a live range is counted until the walk reaches it. */
  lemma StillCounted(before: map<nat, int>, now: map<nat, int>, live: multiset<Range>, r: Range, page: nat,
                     pageSize: nat)
    requires IsPageSize(pageSize) && InMemory(r) && r.size > 0 && r in live && Counts(before, live, pageSize)
    requires IsPage(page, pageSize) && FirstPage(r, pageSize) <= page <= LastPage(r, pageSize)
    requires PagesDone(before, now, FirstPage(r, pageSize), page, LastPage(r, pageSize), pageSize, -1)
    ensures page in now
  {
    TouchesIff(r, page, pageSize);
    TouchingWithout(live, r, page, pageSize);
    assert CountOf(now, page) > 0;
  }

  /** The pages below the next one are those below this one, and this one. */
  lemma WalkStep(first: nat, page: nat, endPage: nat, pageSize: nat)
    requires IsPageSize(pageSize) && IsPage(page, pageSize) && IsPage(endPage, pageSize)
    requires first <= page <= endPage && endPage + pageSize < WORD
    ensures var next := (page + pageSize) % WORD;
            && next == page + pageSize && IsPage(next, pageSize)
            && forall q: nat | IsPage(q, pageSize) :: first <= q < next && q <= endPage <==> (first <= q < page && q <= endPage) || q == page
  {
    NextIsPage(page, pageSize);
    forall q: nat | IsPage(q, pageSize) && page < q < page + pageSize ensures false {
      MultiplesApart(page, q, pageSize);
    }
  }
}
