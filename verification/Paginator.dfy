/** The pager of a result list: which items are on the current page. */
module Paginator {
  import opened Wrappers
  import Division

  // Math.ceil (n / k).
  function Pages(n: nat, k: nat): nat
    requires k >= 1
  {
    (n + k - 1) / k
  }

  function Min(a: int, b: int): int {
    if a <= b then a else b
  }

  // The items of page p, counted from 1.
  function Start(k: nat, p: nat): int {
    (p - 1) * k + 1
  }

  function End(n: nat, k: nat, p: nat): int {
    Min(p * k, n)
  }

  lemma PagesBounds(n: nat, k: nat)
    requires k >= 1
    ensures (Pages(n, k) - 1) * k < n <= Pages(n, k) * k || (n == 0 && Pages(n, k) == 0)
    ensures n >= 1 ==> Pages(n, k) >= 1
    ensures 1 <= n <= k ==> Pages(n, k) == 1
    ensures n > k ==> Pages(n, k) >= 2
  {
    var q, r := (n + k - 1) / k, (n + k - 1) % k;
    assert n + k - 1 == q * k + r;
    if n == 0 {
      Division.Unique(k - 1, k, 0, k - 1);
    } else if n <= k {
      Division.Unique(n + k - 1, k, 1, n - 1);
    } else {
      if q <= 1 {
        Division.MulMono(q, 1, k);
      }
      assert (q - 1) * k == q * k - k;
    }
  }

  // Pages follow on each other from the first item to the last.
  lemma WindowsAreAdjacent(n: nat, k: nat, p: nat)
    requires k >= 1 && 1 <= p <= Pages(n, k)
    ensures 1 <= Start(k, p) <= End(n, k, p) <= n
    ensures Start(k, 1) == 1
    ensures p < Pages(n, k) ==> Start(k, p + 1) == End(n, k, p) + 1
    ensures End(n, k, Pages(n, k)) == n
  {
    PagesBounds(n, k);
    var last := Pages(n, k);
    Division.MulMono(0, p - 1, k);
    Division.MulMono(p - 1, last - 1, k);
    assert p * k == (p - 1) * k + k;
    if p < last {
      Division.MulMono(p, last - 1, k);
    }
  }

  // The page an item is on.
  function PageOf(k: nat, x: nat): nat
    requires k >= 1 && x >= 1
  {
    (x - 1) / k + 1
  }

  // The windows partition the items: every item is on exactly one page.
  lemma WindowsPartition(n: nat, k: nat, x: nat, p: nat)
    requires k >= 1 && 1 <= x <= n && p >= 1
    ensures 1 <= PageOf(k, x) <= Pages(n, k)
    ensures p <= Pages(n, k) && Start(k, p) <= x <= End(n, k, p) <==> p == PageOf(k, x)
  {
    var q, r := (x - 1) / k, (x - 1) % k;
    assert x - 1 == q * k + r;
    assert (q + 1) * k == q * k + k;
    PagesBounds(n, k);
    var last := Pages(n, k);
    if q >= last {
      Division.MulMono(last, q, k);
    }
    if Start(k, p) <= x <= End(n, k, p) {
      assert p * k == (p - 1) * k + k;
      Division.Unique(x - 1, k, p - 1, x - 1 - (p - 1) * k);
    }
  }

  /** The pager; a field that is `false` in the source is None here. */
  class Pager {
    const totalItems: nat
    const itemsPerPage: nat
    var pages: Option<int>
    var currentPage: Option<int>
    var startIndex: Option<int>
    var endIndex: Option<int>

    // Nothing to show, or page `p` of the list shown.
    ghost predicate Shows(p: int)
      reads this
    {
      && itemsPerPage >= 1
      && totalItems >= 1
      && 1 <= p <= Pages(totalItems, itemsPerPage)
      && pages == Some(Pages(totalItems, itemsPerPage)) && currentPage == Some(p)
      && startIndex == Some(Start(itemsPerPage, p))
      && endIndex == Some(End(totalItems, itemsPerPage, p))
    }

    ghost predicate Empty()
      reads this
    {
      && itemsPerPage >= 1
      && totalItems == 0
      && pages == None && currentPage == None && startIndex == None && endIndex == None
    }

    ghost predicate Valid()
      reads this
    {
      Empty() || (currentPage.Some? && Shows(currentPage.value))
    }

    // The constructor ends with first ().
    constructor (totalItems: nat, itemsPerPage: nat)
      requires itemsPerPage >= 1
      ensures this.totalItems == totalItems && this.itemsPerPage == itemsPerPage
      ensures if totalItems == 0 then Empty() else Shows(1)
    {
      this.totalItems, this.itemsPerPage := totalItems, itemsPerPage;
      pages, currentPage, startIndex, endIndex := None, None, None, None;
      new;
      PagesBounds(totalItems, itemsPerPage);
      First();
    }

    // Shows page pageNum exactly when there is such a page; a list of one page is shown whatever
    // the number, and a negative number changes nothing.
    method Go(pageNum: int)
      requires itemsPerPage >= 1
      modifies this
      ensures pageNum < 0 ==> unchanged(this)
      ensures pageNum >= 0 && totalItems == 0 ==> Empty()
      ensures pageNum >= 0 && 1 <= totalItems <= itemsPerPage ==> Shows(1)
      ensures pageNum >= 0 && totalItems > itemsPerPage ==>
                && currentPage == Some(pageNum)
                && (Shows(pageNum) <==> 1 <= pageNum <= Pages(totalItems, itemsPerPage))
    {
      if pageNum < 0 {
        return;
      }
      PagesBounds(totalItems, itemsPerPage);
      if totalItems == 0 {
        pages, currentPage, startIndex, endIndex := None, None, None, None;
      } else if totalItems <= itemsPerPage {
        pages, currentPage, startIndex, endIndex := Some(1), Some(1), Some(1), Some(totalItems);
      } else {
        pages := Some(Pages(totalItems, itemsPerPage));
        var start := pageNum * itemsPerPage - (itemsPerPage - 1);
        assert start == (pageNum - 1) * itemsPerPage + 1;
        if start > totalItems {
          start := totalItems;
        }
        var end := start + (itemsPerPage - 1);
        if end > totalItems {
          end := totalItems;
        }
        startIndex, endIndex := Some(start), Some(end);
        currentPage := Some(pageNum);
        if 1 <= pageNum <= Pages(totalItems, itemsPerPage) {
          WindowsAreAdjacent(totalItems, itemsPerPage, pageNum);
          assert pageNum * itemsPerPage == (pageNum - 1) * itemsPerPage + itemsPerPage;
        }
      }
    }

    method First()
      requires itemsPerPage >= 1 && (currentPage == Some(1) ==> Valid())
      modifies this
      ensures if totalItems == 0 then Empty() else Shows(1)
    {
      if currentPage == Some(1) {
        return;
      }
      PagesBounds(totalItems, itemsPerPage);
      Go(1);
    }

    method Last()
      requires Valid()
      modifies this
      ensures if totalItems == 0 then Empty() else Shows(Pages(totalItems, itemsPerPage))
    {
      if currentPage == pages {
        return;
      }
      PagesBounds(totalItems, itemsPerPage);
      Go(pages.value);
    }

    // `false - 1` is -1, which Go ignores.
    method Prev()
      requires Valid()
      modifies this
      ensures if totalItems == 0 then Empty()
              else Shows(if old(currentPage) == Some(1) then 1 else old(currentPage).value - 1)
    {
      if currentPage == Some(1) {
        return;
      }
      PagesBounds(totalItems, itemsPerPage);
      Go(if currentPage.Some? then currentPage.value - 1 else -1);
    }

    method Next()
      requires Valid()
      modifies this
      ensures if totalItems == 0 then Empty()
              else Shows(Min(old(currentPage).value + 1, Pages(totalItems, itemsPerPage)))
    {
      if currentPage == pages {
        return;
      }
      PagesBounds(totalItems, itemsPerPage);
      Go(currentPage.value + 1);
    }
  }

  datatype Button = ToFirst | ToLast | ToPrev | ToNext

  // Where a sequence of clicks leads.
  function Clicks(last: nat, p: nat, buttons: seq<Button>): nat
    decreases |buttons|
  {
    if buttons == [] then p
    else
      Clicks(last,
             match buttons[0] {
               case ToFirst => 1
               case ToLast => last
               case ToPrev => if p <= 1 then 1 else p - 1
               case ToNext => if p >= last then last else p + 1
             },
             buttons[1..])
  }

  // Any clicks from any page leave the pager on a page of the list, with its window.
  method Press(pager: Pager, buttons: seq<Button>)
    requires pager.Valid()
    modifies pager
    ensures pager.Valid()
    ensures pager.totalItems > 0 ==>
              pager.Shows(Clicks(Pages(pager.totalItems, pager.itemsPerPage),
                                 old(pager.currentPage).value, buttons))
  {
    var i := 0;
    ghost var last := Pages(pager.totalItems, pager.itemsPerPage);
    while i < |buttons|
      invariant 0 <= i <= |buttons| && pager.Valid()
      invariant pager.totalItems > 0 ==>
          Clicks(last, pager.currentPage.value, buttons[i..])
          == Clicks(last, old(pager.currentPage).value, buttons)
    {
      assert buttons[i..][1..] == buttons[i + 1..];
      match buttons[i] {
        case ToFirst => pager.First();
        case ToLast => pager.Last();
        case ToPrev => pager.Prev();
        case ToNext => pager.Next();
      }
      i := i + 1;
    }
  }
}
