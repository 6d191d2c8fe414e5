/** The pager under the book and vocabulary lists: a Previous and a Next
    link, a link to page 1, links to the pages within two of the current
    one, and an ellipsis while more than two pages follow. */
module PageLinks {
  import opened Paging

  /** A numbered link: the page it leads to and whether it is the current
      one. */
  datatype PageLink = PageLink(target: int, active: bool)

  /** The Previous link's page. */
  function PreviousTarget(page: int): (t: int)
    ensures t >= 1
    ensures page >= 2 ==> t == page - 1
    ensures page <= 1 ==> t == 1
  {
    Max(1, page - 1)
  }

  /** The Next link's page. */
  function NextTarget(page: int, totalPageCount: int): (t: int)
    ensures t <= totalPageCount
    ensures page < totalPageCount ==> t == page + 1
    ensures page >= totalPageCount ==> t == totalPageCount
  {
    Min(totalPageCount, page + 1)
  }

  function Distance(a: int, b: int): nat {
    if a >= b then a - b else b - a
  }

  /** The indices `from..totalPageCount` kept by the filter: not 1 and within
      two of the current page. */
  function WindowFrom(page: int, totalPageCount: int, from: int): seq<int>
    decreases totalPageCount - from
  {
    if from > totalPageCount then []
    else (if from != 1 && Distance(from, page) <= 2 then [from] else []) + WindowFrom(page, totalPageCount, from + 1)
  }

  /** `Array.from({ length: totalPageCount }, (_, i) => i + 1).filter(…)`. */
  function Window(page: int, totalPageCount: int): seq<int> {
    WindowFrom(page, totalPageCount, 1)
  }

  function Links(page: int, window: seq<int>): (links: seq<PageLink>)
    ensures |links| == |window|
    ensures forall k :: 0 <= k < |links| ==> links[k] == PageLink(window[k], window[k] == page)
  {
    if window == [] then [] else [PageLink(window[0], window[0] == page)] + Links(page, window[1..])
  }

  /** The numbered links in order: page 1, then the window. */
  function NumberedLinks(page: int, totalPageCount: int): seq<PageLink> {
    [PageLink(1, page == 1)] + Links(page, Window(page, totalPageCount))
  }

  /** Whether the ellipsis is shown. */
  function ShowsEllipsis(page: int, totalPageCount: int): bool {
    page < totalPageCount - 2
  }

  /** The ellipsis stands for the later pages without a link: it is shown
      exactly when some page after the current one gets no numbered link.
      The current page is at least 1, as both search schemas guarantee. */
  lemma {:induction false} EllipsisMarksUnlinkedPages(page: int, totalPageCount: int)
    requires page >= 1
    ensures ShowsEllipsis(page, totalPageCount) <==>
              exists p :: page < p <= totalPageCount && p != 1 && p !in Window(page, totalPageCount)
  {
    WindowFromMembers(page, totalPageCount, 1);
    if ShowsEllipsis(page, totalPageCount) {
      assert page + 3 !in Window(page, totalPageCount);
    }
  }

  /** The window holds exactly the pages 2..totalPageCount within two of the
      current page, in strictly ascending order. */
  lemma {:induction false} WindowFromExactly(page: int, totalPageCount: int, from: int)
    requires from >= 1
    ensures forall i :: i in WindowFrom(page, totalPageCount, from) <==>
              from <= i <= totalPageCount && i != 1 && Distance(i, page) <= 2
    ensures forall a, b :: 0 <= a < b < |WindowFrom(page, totalPageCount, from)| ==>
              WindowFrom(page, totalPageCount, from)[a] < WindowFrom(page, totalPageCount, from)[b]
  {
    WindowFromMembers(page, totalPageCount, from);
    WindowFromAscending(page, totalPageCount, from);
  }

  lemma {:induction false} WindowFromMembers(page: int, totalPageCount: int, from: int)
    requires from >= 1
    ensures forall i :: i in WindowFrom(page, totalPageCount, from) <==>
              from <= i <= totalPageCount && i != 1 && Distance(i, page) <= 2
    decreases totalPageCount - from
  {
    if from <= totalPageCount {
      WindowFromMembers(page, totalPageCount, from + 1);
      var rest := WindowFrom(page, totalPageCount, from + 1);
      var w := WindowFrom(page, totalPageCount, from);
      if from != 1 && Distance(from, page) <= 2 {
        assert w == [from] + rest;
      } else {
        assert w == rest;
      }
    }
  }

  lemma {:induction false} WindowFromAscending(page: int, totalPageCount: int, from: int)
    requires from >= 1
    ensures forall a, b :: 0 <= a < b < |WindowFrom(page, totalPageCount, from)| ==>
              WindowFrom(page, totalPageCount, from)[a] < WindowFrom(page, totalPageCount, from)[b]
    decreases totalPageCount - from
  {
    if from <= totalPageCount {
      WindowFromAscending(page, totalPageCount, from + 1);
      WindowFromMembers(page, totalPageCount, from + 1);
      var rest := WindowFrom(page, totalPageCount, from + 1);
      var w := WindowFrom(page, totalPageCount, from);
      if from != 1 && Distance(from, page) <= 2 {
        assert w == [from] + rest;
        forall a, b | 0 <= a < b < |w| ensures w[a] < w[b] {
          assert w[b] == rest[b - 1];
          assert rest[b - 1] in rest;
          if a > 0 {
            assert w[a] == rest[a - 1];
          }
        }
      } else {
        assert w == rest;
      }
    }
  }

  /** Page 1 is linked first and only once; the other links are the pages
      of the window in ascending order; exactly the link to the current
      page is active. */
  lemma {:induction false} NumberedLinksShape(page: int, totalPageCount: int)
    ensures var links := NumberedLinks(page, totalPageCount);
            && links[0] == PageLink(1, page == 1)
            && (forall k :: 1 <= k < |links| ==>
                  (links[k].target != 1 && 2 <= links[k].target <= totalPageCount && Distance(links[k].target, page) <= 2))
            && (forall i :: 2 <= i <= totalPageCount && Distance(i, page) <= 2 ==>
                  exists k :: 1 <= k < |links| && links[k].target == i)
            && (forall a, b :: 0 <= a < b < |links| ==> links[a].target < links[b].target)
            && (forall k :: 0 <= k < |links| ==> (links[k].active <==> links[k].target == page))
  {
    NumberedLinksTargets(page, totalPageCount);
    NumberedLinksCover(page, totalPageCount);
    NumberedLinksAscending(page, totalPageCount);
    NumberedLinksUnfold(page, totalPageCount);
  }

  lemma {:induction false} NumberedLinksUnfold(page: int, totalPageCount: int)
    ensures var links := NumberedLinks(page, totalPageCount);
            var window := Window(page, totalPageCount);
            && |links| == |window| + 1
            && links[0] == PageLink(1, page == 1)
            && forall k :: 1 <= k < |links| ==> links[k] == PageLink(window[k - 1], window[k - 1] == page)
  {
    var links := NumberedLinks(page, totalPageCount);
    var rest := Links(page, Window(page, totalPageCount));
    assert forall k :: 1 <= k < |links| ==> links[k] == rest[k - 1];
  }

  lemma {:induction false} NumberedLinksTargets(page: int, totalPageCount: int)
    ensures var links := NumberedLinks(page, totalPageCount);
            forall k :: 1 <= k < |links| ==>
              (links[k].target != 1 && 2 <= links[k].target <= totalPageCount && Distance(links[k].target, page) <= 2)
  {
    var window := Window(page, totalPageCount);
    var links := NumberedLinks(page, totalPageCount);
    NumberedLinksUnfold(page, totalPageCount);
    WindowFromMembers(page, totalPageCount, 1);
    forall k | 1 <= k < |links|
      ensures links[k].target != 1 && 2 <= links[k].target <= totalPageCount && Distance(links[k].target, page) <= 2
    {
      assert links[k].target == window[k - 1];
      assert window[k - 1] in window;
    }
  }

  lemma {:induction false} NumberedLinksCover(page: int, totalPageCount: int)
    ensures var links := NumberedLinks(page, totalPageCount);
            forall i :: 2 <= i <= totalPageCount && Distance(i, page) <= 2 ==>
              exists k :: 1 <= k < |links| && links[k].target == i
  {
    var window := Window(page, totalPageCount);
    var links := NumberedLinks(page, totalPageCount);
    NumberedLinksUnfold(page, totalPageCount);
    WindowFromMembers(page, totalPageCount, 1);
    forall i | 2 <= i <= totalPageCount && Distance(i, page) <= 2
      ensures exists k :: 1 <= k < |links| && links[k].target == i
    {
      assert i in window;
      var j :| 0 <= j < |window| && window[j] == i;
      assert links[j + 1].target == i;
    }
  }

  lemma {:induction false} NumberedLinksAscending(page: int, totalPageCount: int)
    ensures var links := NumberedLinks(page, totalPageCount);
            forall a, b :: 0 <= a < b < |links| ==> links[a].target < links[b].target
  {
    var window := Window(page, totalPageCount);
    var links := NumberedLinks(page, totalPageCount);
    NumberedLinksUnfold(page, totalPageCount);
    WindowFromExactly(page, totalPageCount, 1);
    forall a, b | 0 <= a < b < |links| ensures links[a].target < links[b].target {
      assert links[b].target == window[b - 1];
      if a == 0 {
        assert window[b - 1] in window;
      } else {
        assert links[a].target == window[a - 1];
      }
    }
  }

  /** Strictly ascending integers between `lo` and `hi` number at most
      `hi - lo + 1`. */
  lemma {:induction false} AscendingWithinBounds(s: seq<int>, lo: int, hi: int)
    requires lo <= hi + 1
    requires forall k :: 0 <= k < |s| ==> lo <= s[k] <= hi
    requires forall a, b :: 0 <= a < b < |s| ==> s[a] < s[b]
    ensures |s| <= hi - lo + 1
  {
    if s != [] {
      AscendingWithinBounds(s[1..], s[0] + 1, hi);
    }
  }

  /** At most five numbered links besides page 1. */
  lemma {:induction false} WindowIsSmall(page: int, totalPageCount: int)
    ensures |Window(page, totalPageCount)| <= 5
  {
    var window := Window(page, totalPageCount);
    WindowFromExactly(page, totalPageCount, 1);
    forall k | 0 <= k < |window| ensures page - 2 <= window[k] <= page + 2 {
      assert window[k] in window;
    }
    AscendingWithinBounds(window, page - 2, page + 2);
  }
}
