/** Page arithmetic of the page index: rounding, page numbers, and the two
    equivalences that turn "spans the whole page" into a range of page numbers. */
module Pages {

  type pos = n: nat | 0 < n witness 1

  /** The page size and the number of pages of user address space are symbolic. */
  const PAGE_SIZE: pos
  const NPAGES: nat

  /** One past the highest user address. */
  function AddressLimit(): nat {
    NPAGES * PAGE_SIZE
  }

  function RoundDown(a: nat, unit: pos): nat {
    a - a % unit
  }

  function RoundUp(a: nat, unit: pos): nat {
    if a % unit == 0 then a else a - a % unit + unit
  }

  function PageNum(a: nat): nat {
    a / PAGE_SIZE
  }

  /** The first page that begins at or above `a`. */
  function UpPage(a: nat): nat {
    PageNum(RoundUp(a, PAGE_SIZE))
  }

  /** The first page that is not entirely below `a`. */
  function DownPage(a: nat): nat {
    PageNum(RoundDown(a, PAGE_SIZE))
  }

  function PageLo(p: nat): nat {
    p * PAGE_SIZE
  }

  function PageHi(p: nat): nat {
    (p + 1) * PAGE_SIZE
  }

  lemma DivModLaw(a: nat, unit: pos)
    ensures a == (a / unit) * unit + a % unit
  {
  }

  lemma MulAtLeast(d: int, unit: pos)
    requires 1 <= d
    ensures unit <= d * unit
  {
  }

  lemma MulStrict(x: int, y: int, unit: pos)
    requires x < y
    ensures x * unit < y * unit
  {
    MulAtLeast(y - x, unit);
    assert y * unit == x * unit + (y - x) * unit;
  }

  lemma MulMonotone(x: int, y: int, unit: pos)
    ensures x <= y <==> x * unit <= y * unit
    ensures x < y <==> x * unit < y * unit
  {
    if x < y {
      MulStrict(x, y, unit);
    } else if y < x {
      MulStrict(y, x, unit);
    }
  }

  lemma DivOfMultiple(k: nat, r: nat, unit: pos)
    requires r < unit
    ensures (k * unit + r) / unit == k
  {
    var q := (k * unit + r) / unit;
    DivModLaw(k * unit + r, unit);
    MulMonotone(q, k, unit);
    MulMonotone(k + 1, q, unit);
    MulMonotone(q + 1, k, unit);
  }

  lemma DownPageIsPageNum(a: nat)
    ensures DownPage(a) == PageNum(a)
    ensures PageLo(PageNum(a)) <= a < PageHi(PageNum(a))
  {
    DivModLaw(a, PAGE_SIZE);
    DivOfMultiple(a / PAGE_SIZE, 0, PAGE_SIZE);
  }

  lemma UpPageCases(a: nat)
    ensures UpPage(a) == if a % PAGE_SIZE == 0 then PageNum(a) else PageNum(a) + 1
  {
    DivModLaw(a, PAGE_SIZE);
    DivOfMultiple(a / PAGE_SIZE + 1, 0, PAGE_SIZE);
  }

  /** The rounded page numbers are the two adjoints of "page begins at or above" and
      "page ends at or below". */
  lemma PageGalois(a: nat, p: nat)
    ensures UpPage(a) <= p <==> a <= PageLo(p)
    ensures p < DownPage(a) <==> PageHi(p) <= a
  {
    DownPageIsPageNum(a);
    UpPageCases(a);
    DivModLaw(a, PAGE_SIZE);
    MulMonotone(PageNum(a), p, PAGE_SIZE);
    MulMonotone(p + 1, PageNum(a), PAGE_SIZE);
    MulMonotone(PageNum(a) + 1, p, PAGE_SIZE);
    MulMonotone(PageNum(a) + 1, p + 1, PAGE_SIZE);
  }

  lemma PageBounds(p: nat)
    ensures PageLo(p) < PageHi(p) == PageLo(p + 1)
    ensures p < NPAGES <==> PageHi(p) <= AddressLimit()
  {
    MulMonotone(p, p + 1, PAGE_SIZE);
    MulMonotone(p + 1, NPAGES, PAGE_SIZE);
  }

  lemma UpDownMonotone(a: nat, b: nat)
    requires a <= b
    ensures UpPage(a) <= UpPage(b)
    ensures DownPage(a) <= DownPage(b)
    ensures DownPage(a) <= UpPage(a) <= DownPage(a) + 1
  {
    UpPageCases(a);
    UpPageCases(b);
    DownPageIsPageNum(a);
    DownPageIsPageNum(b);
    DivModLaw(a, PAGE_SIZE);
    DivModLaw(b, PAGE_SIZE);
    MulMonotone(PageNum(b) + 1, PageNum(a), PAGE_SIZE);
    if PageNum(a) == PageNum(b) && b % PAGE_SIZE == 0 {
      assert a == b;
    }
  }

  lemma LimitPages(a: nat)
    requires a <= AddressLimit()
    ensures DownPage(a) <= UpPage(a) <= NPAGES
    ensures a < AddressLimit() ==> PageNum(a) < NPAGES
  {
    PageGalois(a, NPAGES);
    UpDownMonotone(a, a);
    if a < AddressLimit() {
      DownPageIsPageNum(a);
      MulMonotone(NPAGES, PageNum(a), PAGE_SIZE);
    }
  }
}
