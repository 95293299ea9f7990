/** Cutting a list into pages. The same computation serves feature rules, firmware rules and templates,
    DCM formulas, changes, profiles and lists. Products are 64-bit and wrap around. */
module Paging {
  import opened Basics

  const MAX := 0x7FFF_FFFF_FFFF_FFFF
  const MODULUS := 0x1_0000_0000_0000_0000

  predicate Int64(x: int) {
    -MAX - 1 <= x <= MAX
  }

  /** What a 64-bit register holds of x. */
  function Wrap(x: int): (w: int)
    ensures Int64(w)
    ensures Int64(x) ==> w == x
  {
    (x + MAX + 1) % MODULUS - MAX - 1
  }

  /** The page as computed; None when the slice bounds are out of range and the request crashes. */
  function GeneratePage<T>(list: seq<T>, page: int, pageSize: int): (r: Option<seq<T>>)
  {
    var n, product := |list|, Wrap(page * pageSize);
    var start := Wrap(product - pageSize);
    if page < 1 || start > n || pageSize < 1 then Some([])
    else
      var last := if product < n then product else n;
      if 0 <= start <= last then Some(list[start..last]) else None
  }

  function Min(a: int, b: int): int {
    if a < b then a else b
  }

  /** The page as meant. */
  function Page<T>(list: seq<T>, page: int, pageSize: int): (r: seq<T>)
  {
    if page < 1 || pageSize < 1 then []
    else
      Scale(page, pageSize);
      list[Min((page - 1) * pageSize, |list|)..Min(page * pageSize, |list|)]
  }

  lemma Scale(page: int, pageSize: int)
    requires page >= 1 && pageSize >= 1
    ensures 0 <= (page - 1) * pageSize == page * pageSize - pageSize < page * pageSize
  {
  }

  /** The computed page is the page meant exactly when the product fits 64 bits or the wrapped start still
      lies past the end of the list. */
  lemma PageIsRightExactlyWhen<T>(list: seq<T>, page: int, pageSize: int)
    requires Int64(page) && Int64(pageSize) && Int64(|list|)
    ensures GeneratePage(list, page, pageSize) == Some(Page(list, page, pageSize)) <==>
            || page < 1 || pageSize < 1 || page * pageSize <= MAX
            || Wrap(Wrap(page * pageSize) - pageSize) > |list|
            || (Wrap(Wrap(page * pageSize) - pageSize) == |list| && Wrap(page * pageSize) >= |list|)
  {
    if page >= 1 && pageSize >= 1 {
      Scale(page, pageSize);
      var product := page * pageSize;
      assert Page(list, page, pageSize) == list[Min(product - pageSize, |list|)..Min(product, |list|)];
      if product > MAX {
        OverflowingPage(list, product, pageSize);
      } else {
        assert Wrap(product) == product && Wrap(product - pageSize) == product - pageSize;
        if product - pageSize > |list| {
          assert Page(list, page, pageSize) == [];
        }
      }
    }
  }

  /** The computed page for a product that overflows, next to the rest of the list from the true start. */
  lemma OverflowingPage<T>(list: seq<T>, product: int, pageSize: int)
    requires 1 <= pageSize <= MAX < product && pageSize <= product && Int64(|list|)
    ensures var n, wrapped, start := |list|, Wrap(product), Wrap(Wrap(product) - pageSize);
            var computed := if start > n then Some([])
                            else if 0 <= start <= Min(wrapped, n) then Some(list[start..Min(wrapped, n)]) else None;
            computed == Some(list[Min(product - pageSize, n)..Min(product, n)]) <==>
                start > n || (start == n && wrapped >= n)
  {
    WrapAfterSubtraction(product, pageSize);
    WrapAfterSubtraction(product - pageSize, -pageSize);
    var n, wrapped, start := |list|, Wrap(product), Wrap(product - pageSize);
    if 0 <= start < n {
      if product - pageSize <= MAX {
        WrapOnce(product);
      } else if start + pageSize <= MAX {
        assert list[Min(product - pageSize, n)..Min(product, n)] == [];
      } else {
        WrapOnce(start + pageSize);
      }
    }
  }

  lemma WrapOnce(x: int)
    requires MAX < x < MODULUS
    ensures Wrap(x) == x - MODULUS
  {
    ShiftByMultiple(x + MAX + 1, -1);
  }

  lemma WrapAfterSubtraction(x: int, y: int)
    ensures Wrap(Wrap(x) - y) == Wrap(x - y)
  {
    assert (Wrap(x) - y + MAX + 1) - (x - y + MAX + 1) == Wrap(x) - x;
    var q := (x + MAX + 1) / MODULUS;
    assert Wrap(x) == x - q * MODULUS;
    ShiftByMultiple(x - y + MAX + 1, -q);
  }

  lemma ShiftByMultiple(x: int, q: int)
    ensures (x + q * MODULUS) % MODULUS == x % MODULUS
  {
    var d, r := x / MODULUS, x % MODULUS;
    assert x + q * MODULUS == (d + q) * MODULUS + r;
  }

  /** A page number past 2^62 shows the first page again. */
  lemma HugePageRepeatsFirst<T>(list: seq<T>)
    requires |list| >= 4
    ensures GeneratePage(list, 0x4000_0000_0000_0001, 4) == Some(list[..4])
  {
    ShiftByMultiple(4 + MAX + 1, 1);
  }

  // ---- pages that fit tile the list

  function Pages<T>(list: seq<T>, count: nat, pageSize: int): seq<T> {
    if count == 0 then [] else Pages(list, count - 1, pageSize) + Page(list, count, pageSize)
  }

  /** Pages 1..count, one after the other, are the front of the list; enough of them are the list. */
  lemma {:induction false} PagesTile<T>(list: seq<T>, count: nat, pageSize: int)
    requires pageSize >= 1
    ensures count * pageSize >= 0 && Pages(list, count, pageSize) == list[..Min(count * pageSize, |list|)]
    ensures count * pageSize >= |list| ==> Pages(list, count, pageSize) == list
  {
    if count > 0 {
      PagesTile(list, count - 1, pageSize);
      Scale(count, pageSize);
    }
  }

  /** The computed pages 1..count, one after the other; None when one of them crashes. */
  function GeneratePages<T>(list: seq<T>, count: nat, pageSize: int): Option<seq<T>> {
    if count == 0 then Some([])
    else
      var front, last := GeneratePages(list, count - 1, pageSize), GeneratePage(list, count, pageSize);
      if front.Some? && last.Some? then Some(front.value + last.value) else None
  }

  /** As long as the products fit, the computed pages tile the list and none crashes. */
  lemma {:induction false} GeneratedPagesTile<T>(list: seq<T>, count: nat, pageSize: int)
    requires pageSize >= 1 && count * pageSize <= MAX && Int64(|list|)
    ensures GeneratePages(list, count, pageSize) == Some(Pages(list, count, pageSize))
    ensures count * pageSize >= |list| ==> GeneratePages(list, count, pageSize) == Some(list)
  {
    hide GeneratePage, Page;
    PagesTile(list, count, pageSize);
    if count > 0 {
      Scale(count, pageSize);
      FitsFactors(count, pageSize);
      GeneratedPagesTile(list, count - 1, pageSize);
      PageIsRightExactlyWhen(list, count, pageSize);
    }
  }

  lemma FitsFactors(page: int, pageSize: int)
    requires page >= 1 && pageSize >= 1 && page * pageSize <= MAX
    ensures Int64(page) && Int64(pageSize)
  {
    Monotone(1, pageSize, page);
    Monotone(1, page, pageSize);
  }

  predicate OnPage(i: int, n: nat, page: int, pageSize: int) {
    page >= 1 && pageSize >= 1 && (page - 1) * pageSize <= i < Min(page * pageSize, n)
  }

  /** Every index is on exactly one page: the one that division names. */
  lemma OnExactlyOnePage(i: nat, n: nat, page: int, pageSize: int)
    requires i < n && pageSize >= 1
    ensures OnPage(i, n, page, pageSize) <==> page == i / pageSize + 1
  {
    var q := i / pageSize;
    assert q * pageSize <= i < q * pageSize + pageSize;
    if page >= 1 {
      if page - 1 < q {
        Monotone(page, q, pageSize);
      }
      if page - 1 > q {
        Monotone(q + 1, page - 1, pageSize);
      }
    }
    assert (q + 1 - 1) * pageSize == q * pageSize && (q + 1) * pageSize == q * pageSize + pageSize;
  }

  /** The computed page holds exactly the elements whose index is on the page. */
  lemma GeneratedPageHolds<T>(list: seq<T>, page: int, pageSize: int)
    requires page >= 1 && pageSize >= 1 && page * pageSize <= MAX && Int64(|list|)
    ensures var start := (page - 1) * pageSize;
            && start >= 0 && GeneratePage(list, page, pageSize).Some?
            && var p := GeneratePage(list, page, pageSize).value;
            && (forall k: nat | k < |p| :: OnPage(start + k, |list|, page, pageSize) && p[k] == list[start + k])
            && forall i: nat :: OnPage(i, |list|, page, pageSize) ==> i - start < |p|
  {
    hide GeneratePage;
    Scale(page, pageSize);
    FitsFactors(page, pageSize);
    PageIsRightExactlyWhen(list, page, pageSize);
    var start, last := (page - 1) * pageSize, page * pageSize;
    var p := GeneratePage(list, page, pageSize).value;
    assert p == list[Min(start, |list|)..Min(last, |list|)];
    forall k: nat | k < |p| ensures OnPage(start + k, |list|, page, pageSize) && p[k] == list[start + k] {
    }
    forall i: nat | OnPage(i, |list|, page, pageSize) ensures i - start < |p| {
      assert start <= i < Min(last, |list|);
    }
  }

  /** The computed page shows the element at index i. */
  predicate Shows<T>(list: seq<T>, page: int, pageSize: int, i: nat)
    requires i < |list|
  {
    var r, k := GeneratePage(list, page, pageSize), i - (page - 1) * pageSize;
    r.Some? && 0 <= k < |r.value|
  }

  lemma ShowsIsOnPage<T>(list: seq<T>, page: int, pageSize: int, i: nat)
    requires page >= 1 && pageSize >= 1 && page * pageSize <= MAX && Int64(|list|) && i < |list|
    ensures Shows(list, page, pageSize, i) <==> OnPage(i, |list|, page, pageSize)
  {
    hide GeneratePage, OnPage;
    GeneratedPageHolds(list, page, pageSize);
    OnPageStarts(i, |list|, page, pageSize);
    if Shows(list, page, pageSize, i) {
      var start, p := (page - 1) * pageSize, GeneratePage(list, page, pageSize).value;
      var k: nat := i - start;
      assert p[k] == list[start + k] && start + k == i;
    }
  }

  lemma OnPageStarts(i: int, n: nat, page: int, pageSize: int)
    ensures OnPage(i, n, page, pageSize) ==> (page - 1) * pageSize <= i
  {
  }

  /** Every index shows on exactly one of the computed pages: the one that division names. */
  lemma ShownOnExactlyOnePage<T>(list: seq<T>, page: int, pageSize: int, i: nat)
    requires page >= 1 && pageSize >= 1 && page * pageSize <= MAX && Int64(|list|) && i < |list|
    ensures Shows(list, page, pageSize, i) <==> page == i / pageSize + 1
  {
    hide Shows, OnPage;
    ShowsIsOnPage(list, page, pageSize, i);
    OnExactlyOnePage(i, |list|, page, pageSize);
  }

  lemma Monotone(a: int, b: int, c: int)
    requires a <= b && c >= 1
    ensures a * c <= b * c
  {
  }
}
