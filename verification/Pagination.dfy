/**
 * The pagination bar of `generate_html_list` (server.py; the same code is in
 * server2.py). The markup is abstracted to a sequence of controls: the
 * previous-page control, a shortcut to page 1 with an optional ellipsis, the
 * numbered window of two pages either side of the current one, an optional
 * ellipsis with a shortcut to the last page, and the next-page control.
 * Every link is rendered as `?page=<n>&search=<quoted term>` with the same
 * term, so a control records only its target page.
 */
module Pagination {
  import opened Strings

  datatype Control =
    | PrevDisabled
    | PrevLink(target: int)
    | Current(n: int)
    | PageLink(n: int)
    | Ellipsis
    | NextDisabled
    | NextLink(target: int)

  predicate IsPage(c: Control)
  {
    c.Current? || c.PageLink?
  }

  // ---------------------------------------------------------------------------
  // Specification of the control sequence
  // ---------------------------------------------------------------------------

  function WindowStart(page: int): int
  {
    Max(1, page - 2)
  }

  function WindowEnd(page: int, total: int): int
  {
    Min(total, page + 2)
  }

  function PrevControl(page: int): Control
  {
    if page > 1 then PrevLink(page - 1) else PrevDisabled
  }

  function NextControl(page: int, total: int): Control
  {
    if page < total then NextLink(page + 1) else NextDisabled
  }

  function NumberControl(p: int, page: int): Control
  {
    if p == page then Current(p) else PageLink(p)
  }

  /** The numbered controls for `first..last`, as `for p in range(first, last + 1)` appends them. */
  function Numbered(page: int, first: int, last: int): seq<Control>
    decreases last - first
  {
    if last < first then [] else Numbered(page, first, last - 1) + [NumberControl(last, page)]
  }

  function Leading(start: int): seq<Control>
  {
    if start > 1 then [PageLink(1)] + (if start > 2 then [Ellipsis] else []) else []
  }

  function Trailing(end: int, total: int): seq<Control>
  {
    if end < total then (if end < total - 1 then [Ellipsis] else []) + [PageLink(total)] else []
  }

  /** Everything between the previous-page and the next-page control. */
  function Middle(page: int, total: int): seq<Control>
  {
    var start, end := WindowStart(page), WindowEnd(page, total);
    Leading(start) + Numbered(page, start, end) + Trailing(end, total)
  }

  /** The whole bar, in the order the source appends its parts. */
  function Controls(page: int, total: int): seq<Control>
  {
    var start, end := WindowStart(page), WindowEnd(page, total);
    [PrevControl(page)] + Leading(start) + Numbered(page, start, end) + Trailing(end, total) + [NextControl(page, total)]
  }

  lemma ControlsAroundMiddle(page: int, total: int)
    ensures Controls(page, total) == [PrevControl(page)] + Middle(page, total) + [NextControl(page, total)]
  {
    var start, end := WindowStart(page), WindowEnd(page, total);
    var l, w, t := Leading(start), Numbered(page, start, end), Trailing(end, total);
    AppendAssoc([PrevControl(page)], l, w);
    AppendAssoc([PrevControl(page)], l + w, t);
  }

  // ---------------------------------------------------------------------------
  // The generator, as the source writes it: appends to a list
  // ---------------------------------------------------------------------------

  method BuildControls(page: int, total: int) returns (links: seq<Control>)
    ensures links == Controls(page, total)
  {
    links := [];
    if page > 1 {
      links := links + [PrevLink(page - 1)];
    } else {
      links := links + [PrevDisabled];
    }
    var start := Max(1, page - 2);
    var end := Min(total, page + 2);
    if start > 1 {
      links := links + [PageLink(1)];
      if start > 2 {
        links := links + [Ellipsis];
      }
    }
    assert links == [PrevControl(page)] + Leading(start);
    links := AppendWindow(links, page, start, end);
    ghost var body := links;
    if end < total {
      if end < total - 1 {
        links := links + [Ellipsis];
      }
      links := links + [PageLink(total)];
    }
    assert links == body + Trailing(end, total);
    if page < total {
      links := links + [NextLink(page + 1)];
    } else {
      links := links + [NextDisabled];
    }
  }

  /** `for p in range(start_page, end_page + 1)`: one control per page of the window. */
  method AppendWindow(head: seq<Control>, page: int, start: int, end: int) returns (links: seq<Control>)
    ensures links == head + Numbered(page, start, end)
  {
    links := head;
    var p := start;
    while p <= end
      invariant start <= p && (p == start || p <= end + 1)
      invariant links == head + Numbered(page, start, p - 1)
      decreases end - p
    {
      if p == page {
        links := links + [Current(p)];
      } else {
        links := links + [PageLink(p)];
      }
      AppendAssoc(head, Numbered(page, start, p - 1), [NumberControl(p, page)]);
      p := p + 1;
    }
  }

  // ---------------------------------------------------------------------------
  // Properties
  // ---------------------------------------------------------------------------

  /** The numbered window lists `first, first + 1, ..., last`, marking only `page` as current. */
  lemma {:induction false} NumberedShape(page: int, first: int, last: int)
    ensures |Numbered(page, first, last)| == Max(0, last - first + 1)
    ensures forall i :: 0 <= i < |Numbered(page, first, last)| ==>
              IsPage(Numbered(page, first, last)[i]) && Numbered(page, first, last)[i].n == first + i &&
              (Numbered(page, first, last)[i].Current? <==> first + i == page)
    decreases last - first
  {
    if last >= first {
      NumberedShape(page, first, last - 1);
    }
  }

  /** The previous control is disabled exactly on the first page, the next control exactly on the last. */
  lemma PrevNextDisabled(page: int, total: int)
    requires 1 <= page <= total
    ensures var c := Controls(page, total);
            (c[0] == PrevDisabled <==> page == 1) &&
            (c[|c| - 1] == NextDisabled <==> page == total) &&
            (c[0].PrevLink? ==> c[0].target == page - 1) &&
            (c[|c| - 1].NextLink? ==> c[|c| - 1].target == page + 1)
  {
    ControlsAroundMiddle(page, total);
  }

  /**
   * A run of controls is well spaced when it starts with a numbered control
   * and each numbered control is followed either by the next page's control
   * or by an ellipsis and a later page's control: an ellipsis appears exactly
   * where pages are skipped.
   */
  ghost predicate Spaced(m: seq<Control>)
    decreases |m|
  {
    |m| > 0 && IsPage(m[0]) &&
    (|m| == 1 ||
     (IsPage(m[1]) && m[1].n == m[0].n + 1 && Spaced(m[1..])) ||
     (|m| > 2 && m[1] == Ellipsis && IsPage(m[2]) && m[0].n + 1 < m[2].n && Spaced(m[2..])))
  }

  /** Two well-spaced runs joined by an ellipsis when pages lie between them. */
  function Join(a: seq<Control>, b: seq<Control>): seq<Control>
    requires |a| > 0 && |b| > 0 && IsPage(a[|a| - 1]) && IsPage(b[0])
  {
    if a[|a| - 1].n + 1 < b[0].n then a + [Ellipsis] + b else a + b
  }

  lemma {:induction false} JoinSpaced(a: seq<Control>, b: seq<Control>)
    requires Spaced(a) && Spaced(b)
    requires IsPage(a[|a| - 1]) && a[|a| - 1].n < b[0].n
    ensures Spaced(Join(a, b))
    decreases |a|
  {
    var j := Join(a, b);
    if |a| == 1 {
      if a[0].n + 1 < b[0].n {
        assert j[2..] == b;
      } else {
        assert j[1..] == b;
      }
    } else if IsPage(a[1]) && a[1].n == a[0].n + 1 && Spaced(a[1..]) {
      JoinSpaced(a[1..], b);
      assert j[1..] == Join(a[1..], b);
    } else {
      JoinSpaced(a[2..], b);
      assert j[2..] == Join(a[2..], b);
    }
  }

  lemma {:induction false} NumberedCons(page: int, first: int, last: int)
    requires first <= last
    ensures Numbered(page, first, last) == [NumberControl(first, page)] + Numbered(page, first + 1, last)
    decreases last - first
  {
    if first < last {
      NumberedCons(page, first, last - 1);
    }
  }

  lemma {:induction false} NumberedSpaced(page: int, first: int, last: int)
    requires first <= last
    ensures Spaced(Numbered(page, first, last))
    ensures Numbered(page, first, last)[0].n == first
    ensures var w := Numbered(page, first, last); IsPage(w[|w| - 1]) && w[|w| - 1].n == last
    decreases last - first
  {
    NumberedCons(page, first, last);
    if first < last {
      NumberedSpaced(page, first + 1, last);
      assert Numbered(page, first, last)[1..] == Numbered(page, first + 1, last);
    }
  }

  /**
   * The middle of the bar is well spaced and runs from page 1 to the last
   * page: the shortcuts make both ends reachable and the ellipses mark
   * exactly the pages that are skipped.
   */
  lemma MiddleSpaced(page: int, total: int)
    requires 1 <= page <= total
    ensures var m := Middle(page, total);
            Spaced(m) && m[0].n == 1 && IsPage(m[|m| - 1]) && m[|m| - 1].n == total
  {
    var start, end := WindowStart(page), WindowEnd(page, total);
    var lw := Leading(start) + Numbered(page, start, end);
    var t := Trailing(end, total);
    assert Middle(page, total) == lw + t;
    LeadingSpaced(page, total);
    if end < total {
      assert Spaced([PageLink(total)]);
      JoinSpaced(lw, [PageLink(total)]);
      assert lw + t == Join(lw, [PageLink(total)]);
    } else {
      assert t == [];
      assert lw + t == lw;
    }
  }

  /** The shortcut to page 1 and the numbered window form a well-spaced run from page 1 to the window's end. */
  lemma LeadingSpaced(page: int, total: int)
    requires 1 <= page <= total
    ensures var lw := Leading(WindowStart(page)) + Numbered(page, WindowStart(page), WindowEnd(page, total));
            Spaced(lw) && lw[0].n == 1 && IsPage(lw[|lw| - 1]) && lw[|lw| - 1].n == WindowEnd(page, total)
  {
    var start, end := WindowStart(page), WindowEnd(page, total);
    var w := Numbered(page, start, end);
    NumberedSpaced(page, start, end);
    if start > 1 {
      assert Spaced([PageLink(1)]);
      JoinSpaced([PageLink(1)], w);
      assert Leading(start) + w == Join([PageLink(1)], w);
    } else {
      assert Leading(start) + w == w;
    }
  }

  /** Locating an index of the middle in one of its three parts. */
  lemma MiddleIndex(page: int, total: int, i: int)
    requires 0 <= i < |Middle(page, total)|
    ensures var start, end := WindowStart(page), WindowEnd(page, total);
            var l, w := Leading(start), Numbered(page, start, end);
            var m := Middle(page, total);
            (i < |l| ==> m[i] == l[i]) &&
            (|l| <= i < |l| + |w| ==> m[i] == w[i - |l|]) &&
            (|l| + |w| <= i ==> m[i] == Trailing(end, total)[i - |l| - |w|])
  {
  }

  /** The current page is shown exactly once, as the one `Current` control of the bar. */
  lemma OneCurrent(page: int, total: int)
    requires 1 <= page <= total
    ensures var m := Middle(page, total);
            (exists i :: 0 <= i < |m| && m[i] == Current(page)) &&
            (forall i, j :: 0 <= i < |m| && 0 <= j < |m| && m[i].Current? && m[j].Current? ==> i == j && m[i].n == page)
  {
    var start, end := WindowStart(page), WindowEnd(page, total);
    var l, w := Leading(start), Numbered(page, start, end);
    var m := Middle(page, total);
    NumberedShape(page, start, end);
    var k := |l| + page - start;
    MiddleIndex(page, total, k);
    assert m[k] == Current(page);
    forall i | 0 <= i < |m| && m[i].Current?
      ensures i == k
    {
      MiddleIndex(page, total, i);
    }
  }

  /** Page n has a numbered control exactly when it is the first page, the last page, or within two of the current one. */
  lemma ShownPages(page: int, total: int, n: int)
    requires 1 <= page <= total
    ensures var m := Middle(page, total);
            (exists i :: 0 <= i < |m| && IsPage(m[i]) && m[i].n == n) <==>
            1 <= n <= total && (n == 1 || n == total || page - 2 <= n <= page + 2)
  {
    var start, end := WindowStart(page), WindowEnd(page, total);
    var l, w := Leading(start), Numbered(page, start, end);
    var m := Middle(page, total);
    NumberedShape(page, start, end);
    if 1 <= n <= total && (n == 1 || n == total || page - 2 <= n <= page + 2) {
      var i := if start <= n <= end then |l| + n - start else if n == 1 then 0 else |m| - 1;
      MiddleIndex(page, total, i);
      assert IsPage(m[i]) && m[i].n == n;
    } else {
      forall i | 0 <= i < |m| && IsPage(m[i])
        ensures m[i].n != n
      {
        MiddleIndex(page, total, i);
      }
    }
  }
}
