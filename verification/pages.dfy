/** The pagination arithmetic of the node's information pages (lib/node/info.js):
    the page-number window `median`, the navigation bar `page` and the row
    bound `until`. */
module Pages {
  import opened Wrappers

  function Max(a: int, b: int): int { if a < b then b else a }
  function Min(a: int, b: int): int { if a < b then a else b }

  /** `median(c, m, 2 * half)`: the window `[start, end)` of page indices shown
      around page `c` of `m`. */
  function Median(c: int, m: int, half: int): (r: (int, int))
    ensures r.0 >= 0 && r.1 <= m
  {
    var l := 2 * half;
    var s := Max(0, c - half);
    var e := Min(s + l, m);
    (Max(0, Min(e - l, e)), e)
  }

  /** The window spans `l` pages back from its end, clipped at page 0: never more
      than `l`, and exactly `min(m, l)` when there are pages at all. */
  lemma MedianWindow(c: int, m: int, half: nat)
    ensures var (start, end) := Median(c, m, half);
      && start == Max(0, end - 2 * half)
      && end - start <= 2 * half
      && (m >= 0 ==> end - start == Min(m, 2 * half))
  {
  }

  /** With a width of at least two, page `c` of `m` (counted from 1) has its
      index `c - 1` inside the window. */
  lemma MedianCovers(c: int, m: int, half: int)
    requires half >= 1 && 1 <= c <= m
    ensures Median(c, m, half).0 <= c - 1 < Median(c, m, half).1
  {
  }

  /** JavaScript's `parseInt(n / d)` for a positive divisor, when the quotient
      prints without an exponent: the quotient truncated toward zero. */
  function TruncDiv(n: int, d: int): (q: int)
    requires d > 0
    ensures n >= 0 ==> q * d <= n < q * d + d
    ensures n < 0 ==> q * d >= n > q * d - d
  {
    if n >= 0 then n / d else -((-n) / d)
  }

  /** `Math.ceil(n / d)` for a positive divisor. */
  function CeilDiv(n: int, d: int): (q: int)
    requires d > 0
    ensures q * d - d < n <= q * d
  {
    -((-n) / d)
  }

  /** One page number of the bar: its label and the offset it requests, or
      `None` for the current page. */
  datatype Link = Link(number: int, target: Option<int>)

  /** The navigation bar: the current page, the page count, the offsets the
      previous and next arrows request (`None` when disabled), and the numbered
      links. */
  datatype Nav = Nav(current: int, pages: int, prev: Option<int>, next: Option<int>, links: seq<Link>)

  /** The window width the information pages pass to `median`. */
  const Width: int := 10

  /** `page(total, offset, limit, cls)` without the markup: at most `Width`
      numbered links, and only the current page's link inactive. */
  function Page(total: int, offset: int, limit: int): (r: Nav)
    requires limit > 0
    ensures |r.links| <= Width
    ensures forall k :: 0 <= k < |r.links| ==> (r.links[k].target.None? <==> r.links[k].number == r.current)
  {
    var current := TruncDiv(offset + limit, limit);
    var pages := CeilDiv(total, limit);
    var (start, end) := Median(current, pages, Width / 2);
    MedianWindow(current, pages, Width / 2);
    LinksTargets(start, end, current, limit);
    Nav(current, pages,
      if offset == 0 then None else Some(offset - limit),
      if offset + limit + 1 > total then None else Some(offset + limit),
      Links(start, end, current, limit))
  }

  /** The numbered links for the page indices `start` to `end - 1`. */
  function Links(start: int, end: int, current: int, limit: int): (r: seq<Link>)
    ensures |r| == Max(0, end - start)
  {
    seq(Max(0, end - start), k =>
      var i := start + k;
      Link(i + 1, if current == i + 1 then None else Some(limit * i)))
  }

  /** The links are numbered consecutively from `start + 1`; only the link
      labelled with the current page is inactive, so at most one is, and each
      other link requests the first row of its page. */
  lemma LinksTargets(start: int, end: int, current: int, limit: int)
    ensures var links := Links(start, end, current, limit);
      && (forall k :: 0 <= k < |links| ==> links[k].number == start + k + 1)
      && (forall k :: 0 <= k < |links| ==> (links[k].target.None? <==> links[k].number == current))
      && (forall a, b :: 0 <= a < |links| && 0 <= b < |links| && links[a].target.None? && links[b].target.None? ==> a == b)
      && (forall k :: 0 <= k < |links| && links[k].target.Some? ==>
            links[k].target.value == (links[k].number - 1) * limit)
      && (start <= current - 1 < end ==> links[current - 1 - start].target.None?)
  {
  }

  /** The current page is the one holding row `offset`, and the page count is
      the fewest pages of `limit` rows that hold `total` rows. */
  lemma PageNumbers(total: int, offset: int, limit: int)
    requires limit > 0 && offset >= 0
    ensures var nav := Page(total, offset, limit);
      && (nav.current - 1) * limit <= offset < nav.current * limit
      && (nav.pages - 1) * limit < total <= nav.pages * limit
  {
    var nav := Page(total, offset, limit);
    assert nav.current == TruncDiv(offset + limit, limit) && nav.pages == CeilDiv(total, limit);
    CurrentPage(offset, limit);
    PageCount(total, limit);
  }

  lemma CurrentPage(offset: int, limit: int)
    requires limit > 0 && offset >= 0
    ensures var q := TruncDiv(offset + limit, limit);
      (q - 1) * limit <= offset < q * limit
  {
    var q := TruncDiv(offset + limit, limit);
    assert q * limit <= offset + limit < q * limit + limit;
    assert (q - 1) * limit == q * limit - limit;
  }

  lemma PageCount(total: int, limit: int)
    requires limit > 0
    ensures var p := CeilDiv(total, limit);
      (p - 1) * limit < total <= p * limit
  {
    var p := CeilDiv(total, limit);
    assert (p - 1) * limit == p * limit - limit;
  }

  /** The arrows: back is disabled only on the first offset, forward only when
      the next offset reaches past the last row, and otherwise they step by one
      page. */
  lemma PageArrows(total: int, offset: int, limit: int)
    requires limit > 0
    ensures var nav := Page(total, offset, limit);
      && (nav.prev.None? <==> offset == 0)
      && (nav.next.None? <==> offset + limit >= total)
      && (nav.prev.Some? ==> nav.prev.value + limit == offset)
      && (nav.next.Some? ==> nav.next.value == offset + limit && nav.next.value < total)
  {
  }

  /** A non-negative offset below the row count falls on one of the pages. */
  lemma CurrentInRange(total: int, offset: int, limit: int)
    requires limit > 0 && 0 <= offset < total
    ensures 1 <= Page(total, offset, limit).current <= Page(total, offset, limit).pages
  {
    PageNumbers(total, offset, limit);
    var c := Page(total, offset, limit).current;
    var pages := Page(total, offset, limit).pages;
    if c > pages {
      ScaleMonotone(pages, c - 1, limit);
    }
  }

  lemma ScaleMonotone(a: int, b: int, d: int)
    requires a <= b && d > 0
    ensures a * d <= b * d
  {
    assert b * d - a * d == (b - a) * d;
  }

  /** Within the rows, the bar shows consecutively numbered links, the current
      page as the one and only inactive link, and every other link requests the
      first row of the page it is labelled with. */
  lemma PageLinks(total: int, offset: int, limit: int)
    requires limit > 0 && 0 <= offset < total
    ensures var nav := Page(total, offset, limit);
      && 1 <= nav.current <= nav.pages
      && |nav.links| == Min(nav.pages, Width)
      && (forall k :: 0 <= k < |nav.links| - 1 ==> nav.links[k + 1].number == nav.links[k].number + 1)
      && (forall k :: 0 <= k < |nav.links| ==>
            (nav.links[k].target.None? <==> nav.links[k].number == nav.current))
      && (exists k :: 0 <= k < |nav.links| && nav.links[k].target.None?)
      && (forall a, b ::
            0 <= a < |nav.links| && 0 <= b < |nav.links| && nav.links[a].target.None? && nav.links[b].target.None?
            ==> a == b)
      && (forall k :: 0 <= k < |nav.links| && nav.links[k].target.Some? ==>
            nav.links[k].target.value == (nav.links[k].number - 1) * limit)
  {
    var nav := Page(total, offset, limit);
    CurrentInRange(total, offset, limit);
    var c := nav.current;
    var (start, end) := Median(c, nav.pages, Width / 2);
    MedianCovers(c, nav.pages, Width / 2);
    MedianWindow(c, nav.pages, Width / 2);
    LinksTargets(start, end, c, limit);
    assert nav.links == Links(start, end, c, limit);
    assert nav.links[c - 1 - start].target.None?;
  }

  /** `until`: the end of the rows a page shows. It never passes the rows nor
      lies more than `limit` past `offset`, and it stops short of the rows
      exactly when the page ends before them. */
  function Until(offset: int, limit: int, length: nat): (u: int)
    ensures u <= length && u - offset <= limit
    ensures u == length <==> offset + limit >= length
    ensures u < length ==> u == offset + limit
  {
    if limit + offset > length then length else offset + limit
  }

  /** Every index the row loop visits from a non-negative offset is in bounds. */
  lemma UntilInBounds(offset: int, limit: int, length: nat, i: int)
    requires 0 <= offset <= i < Until(offset, limit, length)
    ensures 0 <= i < length
  {
  }

  /** The rows a page shows, read one index at a time from `offset` up to
      `until`; `None` when the loop would read before the first row (a negative
      offset with rows to show). */
  method Rows<T>(rows: seq<T>, offset: int, limit: int) returns (r: Option<seq<T>>)
    ensures r.None? <==> offset < 0 && offset < Until(offset, limit, |rows|)
    ensures r.Some? && offset < Until(offset, limit, |rows|) ==> r.value == rows[offset..Until(offset, limit, |rows|)]
    ensures r.Some? && offset >= Until(offset, limit, |rows|) ==> r.value == []
  {
    var until := Until(offset, limit, |rows|);
    if offset < 0 && offset < until {
      return None;
    }
    var out: seq<T> := [];
    var i := offset;
    while i < until
      invariant offset <= i && (offset < until ==> i <= until)
      invariant offset < until ==> out == rows[offset..i]
      invariant offset >= until ==> out == []
      decreases until - i
    {
      out := out + [rows[i]];
      i := i + 1;
    }
    return Some(out);
  }
}
