/** The harvest state machine: the page counter, the running row index and
    the date-limit flag, the harvest of one page, the paging loop of one
    target and the loop over a batch of targets. The browser is modelled by
    the listing it walks: the pages from the one it starts on onward, each a
    sequence of review nodes in page order. */
module Scraper {
  import opened Wrappers
  import opened Text
  import opened Review
  import opened Arguments

  /** The review nodes of one listing page, in page order. */
  type Page = seq<ReviewNode>

  /** A harvested row: the running index it is stored under, and the review
      it was assembled from. */
  datatype Row = Row(key: int, review: ReviewNode) {
    /** The record written for this row. */
    function Assembled(): Record
    {
      ExtractReview(review)
    }
  }

  /** One company of a batch: its name, its listing as the browser shows it
      from the starting page onward, whether that listing is sorted
      ascending by date, and the page number its pagination control shows
      when the listing is opened directly. */
  datatype Target = Target(name: string, pages: seq<Page>, ascending: bool, currentPage: int)

  /** What is written for one target: the file name and its rows. */
  datatype Output = Output(fileName: string, rows: seq<Row>)

  // ---------------------------------------------------------------------
  // The harvest of one page, as values
  // ---------------------------------------------------------------------

  /** The reviews of a page that are not featured, in page order. */
  function NonFeatured(p: Page): (r: Page)
    ensures |r| <= |p|
    ensures forall i :: 0 <= i < |r| ==> !r[i].featured
    ensures forall n :: n in r ==> n in p
    ensures forall i :: 0 <= i < |p| && !p[i].featured ==> p[i] in r
    decreases |p|
  {
    if p == [] then []
    else
      var rest := NonFeatured(p[1..]);
      assert forall i :: 1 <= i < |p| ==> p[i] == p[1..][i - 1];
      if p[0].featured then rest else [p[0]] + rest
  }

  /** The filter keeps each non-featured review as many times as the page
      holds it, and no featured one. */
  lemma {:induction false} NonFeaturedCounts(p: Page)
    ensures forall n :: multiset(NonFeatured(p))[n] == (if n.featured then 0 else multiset(p)[n])
    decreases |p|
  {
    if p != [] {
      NonFeaturedCounts(p[1..]);
      assert p == [p[0]] + p[1..];
      assert multiset(p) == multiset([p[0]]) + multiset(p[1..]);
    }
  }

  /** A page without featured reviews is kept whole. */
  lemma {:induction false} NonFeaturedNone(p: Page)
    requires forall i :: 0 <= i < |p| ==> !p[i].featured
    ensures NonFeatured(p) == p
    decreases |p|
  {
    if p != [] {
      assert !p[0].featured;
      NonFeaturedNone(p[1..]);
      assert [p[0]] + p[1..] == p;
    }
  }

  /** The rows harvested from `nodes` when the running index is `base` before
      the first of them: one row per non-featured node, stored under the
      index of that node. */
  function RowsFrom(nodes: seq<ReviewNode>, base: int): seq<Row>
    decreases |nodes|
  {
    if nodes == [] then []
    else if nodes[0].featured then RowsFrom(nodes[1..], base + 1)
    else [Row(base, nodes[0])] + RowsFrom(nodes[1..], base + 1)
  }

  /** The harvested rows hold the non-featured nodes, in order. */
  lemma {:induction false} RowsFromReviews(nodes: seq<ReviewNode>, base: int)
    ensures |RowsFrom(nodes, base)| == |NonFeatured(nodes)|
    ensures forall i :: 0 <= i < |RowsFrom(nodes, base)| ==>
              RowsFrom(nodes, base)[i].review == NonFeatured(nodes)[i]
    decreases |nodes|
  {
    if nodes != [] {
      RowsFromReviews(nodes[1..], base + 1);
      var rest, nf := RowsFrom(nodes[1..], base + 1), NonFeatured(nodes[1..]);
      if nodes[0].featured {
        assert RowsFrom(nodes, base) == rest && NonFeatured(nodes) == nf;
      } else {
        var rows := [Row(base, nodes[0])] + rest;
        assert RowsFrom(nodes, base) == rows && NonFeatured(nodes) == [nodes[0]] + nf;
        forall i | 1 <= i < |rows|
          ensures rows[i].review == ([nodes[0]] + nf)[i]
        {
          assert rows[i] == rest[i - 1];
        }
      }
    }
  }

  /** Each harvested row is stored under a key counted from `base` over all
      nodes, featured or not, and the keys strictly increase. */
  lemma {:induction false} RowsFromKeys(nodes: seq<ReviewNode>, base: int)
    ensures forall i :: 0 <= i < |RowsFrom(nodes, base)| ==>
              base <= RowsFrom(nodes, base)[i].key < base + |nodes|
    ensures forall i, j :: 0 <= i < j < |RowsFrom(nodes, base)| ==>
              RowsFrom(nodes, base)[i].key < RowsFrom(nodes, base)[j].key
    decreases |nodes|
  {
    if nodes != [] {
      RowsFromKeys(nodes[1..], base + 1);
      var rows, rest := RowsFrom(nodes, base), RowsFrom(nodes[1..], base + 1);
      assert |nodes[1..]| == |nodes| - 1;
      assert forall i :: 0 <= i < |rest| ==> base + 1 <= rest[i].key < base + |nodes|;
      if nodes[0].featured {
        assert rows == rest;
      } else {
        assert rows == [Row(base, nodes[0])] + rest;
        assert forall i :: 1 <= i < |rows| ==> rows[i] == rest[i - 1];
      }
    }
  }

  /** Harvesting two runs of nodes one after the other. */
  lemma {:induction false} RowsFromAppend(a: seq<ReviewNode>, b: seq<ReviewNode>, base: int)
    ensures RowsFrom(a + b, base) == RowsFrom(a, base) + RowsFrom(b, base + |a|)
    decreases |a|
  {
    if a == [] {
      assert a + b == b;
    } else {
      assert (a + b)[0] == a[0] && (a + b)[1..] == a[1..] + b;
      RowsFromAppend(a[1..], b, base + 1);
    }
  }

  /** The dates of some rows. */
  function Dates(rows: seq<Row>): (ds: seq<int>)
    ensures |ds| == |rows|
    ensures forall i :: 0 <= i < |rows| ==> ds[i] == rows[i].review.date
  {
    seq(|rows|, i requires 0 <= i < |rows| => rows[i].review.date)
  }

  /** The dates of the reviews of a page that are not featured, in page order. */
  function PageDates(p: Page): seq<int>
    decreases |p|
  {
    if p == [] then []
    else if p[0].featured then PageDates(p[1..])
    else [p[0].date] + PageDates(p[1..])
  }

  /** The date column of the rows harvested from a page is the page's dates,
      whatever the running index. */
  lemma {:induction false} DatesOfRowsFrom(p: Page, base: int)
    ensures Dates(RowsFrom(p, base)) == PageDates(p)
    decreases |p|
  {
    if p != [] {
      DatesOfRowsFrom(p[1..], base + 1);
      if !p[0].featured {
        var rest := RowsFrom(p[1..], base + 1);
        var rows := [Row(base, p[0])] + rest;
        assert RowsFrom(p, base) == rows;
        assert forall i :: 1 <= i < |rows| ==> rows[i] == rest[i - 1];
        assert Dates(rows) == [p[0].date] + Dates(rest);
      }
    }
  }

  /** pandas' `max()` of a non-empty date column. */
  function MaxOf(ds: seq<int>): int
    requires |ds| > 0
    decreases |ds|
  {
    if |ds| == 1 then ds[0]
    else if ds[0] > MaxOf(ds[1..]) then ds[0]
    else MaxOf(ds[1..])
  }

  /** The maximum bounds every date and is one of them. */
  lemma {:induction false} MaxOfIsMax(ds: seq<int>)
    requires |ds| > 0
    ensures forall i :: 0 <= i < |ds| ==> ds[i] <= MaxOf(ds)
    ensures exists i :: 0 <= i < |ds| && ds[i] == MaxOf(ds)
    decreases |ds|
  {
    if |ds| > 1 {
      MaxOfIsMax(ds[1..]);
      assert forall i :: 1 <= i < |ds| ==> ds[i] == ds[1..][i - 1];
      if ds[0] <= MaxOf(ds[1..]) {
        var j :| 0 <= j < |ds[1..]| && ds[1..][j] == MaxOf(ds[1..]);
        assert ds[j + 1] == MaxOf(ds);
      } else {
        assert ds[0] == MaxOf(ds);
      }
    } else {
      assert ds[0] == MaxOf(ds);
    }
  }

  /** pandas' `min()` of a non-empty date column. */
  function MinOf(ds: seq<int>): int
    requires |ds| > 0
    decreases |ds|
  {
    if |ds| == 1 then ds[0]
    else if ds[0] < MinOf(ds[1..]) then ds[0]
    else MinOf(ds[1..])
  }

  /** The minimum bounds every date from below and is one of them. */
  lemma {:induction false} MinOfIsMin(ds: seq<int>)
    requires |ds| > 0
    ensures forall i :: 0 <= i < |ds| ==> MinOf(ds) <= ds[i]
    ensures exists i :: 0 <= i < |ds| && ds[i] == MinOf(ds)
    decreases |ds|
  {
    if |ds| > 1 {
      MinOfIsMin(ds[1..]);
      assert forall i :: 1 <= i < |ds| ==> ds[i] == ds[1..][i - 1];
      if ds[0] >= MinOf(ds[1..]) {
        var j :| 0 <= j < |ds[1..]| && ds[1..][j] == MinOf(ds[1..]);
        assert ds[j + 1] == MinOf(ds);
      } else {
        assert ds[0] == MinOf(ds);
      }
    } else {
      assert ds[0] == MinOf(ds);
    }
  }

  /** The date-limit test made after a page is harvested, on the dates of
      its rows. The maximum and minimum of an empty column are not-a-time,
      which compares false, so an empty harvest never reaches the limit. */
  predicate DateLimitHit(ds: seq<int>, maxDate: Option<int>, minDate: Option<int>)
  {
    (maxDate.Some? && |ds| > 0 && MaxOf(ds) > maxDate.value)
    || (minDate.Some? && |ds| > 0 && MinOf(ds) < minDate.value)
  }

  /** The limit is reached exactly when some date is after the maximum or
      some date is before the minimum. */
  lemma DateLimitHitIff(ds: seq<int>, maxDate: Option<int>, minDate: Option<int>)
    ensures DateLimitHit(ds, maxDate, minDate) <==>
              (maxDate.Some? && exists i :: 0 <= i < |ds| && ds[i] > maxDate.value)
              || (minDate.Some? && exists i :: 0 <= i < |ds| && ds[i] < minDate.value)
  {
    if |ds| > 0 {
      MaxOfIsMax(ds);
      MinOfIsMin(ds);
    }
  }

  /** Whether harvesting page `p` reaches the date limit of `c`. */
  predicate PageHit(p: Page, c: Config)
  {
    DateLimitHit(PageDates(p), c.maxDate, c.minDate)
  }

  /** A date is in a page's date column exactly when some non-featured review
      of the page carries it. */
  lemma {:induction false} PageDatesMembers(p: Page, d: int)
    ensures d in PageDates(p) <==> exists i :: 0 <= i < |p| && !p[i].featured && p[i].date == d
    decreases |p|
  {
    if p != [] {
      PageDatesMembers(p[1..], d);
      assert forall i :: 1 <= i < |p| ==> p[i] == p[1..][i - 1];
      if exists i :: 0 <= i < |p| && !p[i].featured && p[i].date == d {
        var i :| 0 <= i < |p| && !p[i].featured && p[i].date == d;
        if i > 0 {
          assert p[1..][i - 1] == p[i];
        }
      }
    }
  }

  /** Harvesting a page reaches the date limit exactly when a maximum is set
      and some non-featured review on it is dated after it, or a minimum is
      set and some non-featured review on it is dated before it. Featured
      reviews never count. */
  lemma PageHitIff(p: Page, c: Config)
    ensures PageHit(p, c) <==>
              (c.maxDate.Some? && exists i :: 0 <= i < |p| && !p[i].featured && p[i].date > c.maxDate.value)
              || (c.minDate.Some? && exists i :: 0 <= i < |p| && !p[i].featured && p[i].date < c.minDate.value)
  {
    var ds := PageDates(p);
    DateLimitHitIff(ds, c.maxDate, c.minDate);
    forall j | 0 <= j < |ds|
      ensures exists i :: 0 <= i < |p| && !p[i].featured && p[i].date == ds[j]
    {
      PageDatesMembers(p, ds[j]);
    }
    forall i | 0 <= i < |p| && !p[i].featured
      ensures p[i].date in ds
    {
      PageDatesMembers(p, p[i].date);
    }
  }

  // ---------------------------------------------------------------------
  // The harvest of one target, as values
  // ---------------------------------------------------------------------

  /** The nodes of a run of pages, in order. */
  function Concat(pages: seq<Page>): (nodes: seq<ReviewNode>)
    decreases |pages|
  {
    if pages == [] then [] else Concat(pages[..|pages| - 1]) + pages[|pages| - 1]
  }

  /** The running index after the first `k` pages: one step per node,
      featured or not. */
  function Offset(pages: seq<Page>, k: nat): nat
    requires k <= |pages|
  {
    if k == 0 then 0 else Offset(pages, k - 1) + |pages[k - 1]|
  }

  /** The rows of the first `k` pages of a listing, page after page, each
      harvested from the running index its page starts at. */
  function PrefixRows(pages: seq<Page>, k: nat): seq<Row>
    requires k <= |pages|
  {
    if k == 0 then [] else PrefixRows(pages, k - 1) + RowsFrom(pages[k - 1], Offset(pages, k - 1))
  }

  /** Page by page, the rows are the rows of all the nodes harvested in one
      go, and the running index is the number of those nodes. */
  lemma {:induction false} PrefixRowsConcat(pages: seq<Page>, k: nat)
    requires k <= |pages|
    ensures Offset(pages, k) == |Concat(pages[..k])|
    ensures PrefixRows(pages, k) == RowsFrom(Concat(pages[..k]), 0)
  {
    if k == 0 {
      assert pages[..0] == [];
    } else {
      PrefixRowsConcat(pages, k - 1);
      assert pages[..k][..k - 1] == pages[..k - 1];
      assert Concat(pages[..k]) == Concat(pages[..k - 1]) + pages[k - 1];
      RowsFromAppend(Concat(pages[..k - 1]), pages[k - 1], 0);
    }
  }

  /** Harvesting more pages only appends rows. */
  lemma {:induction false} PrefixRowsGrow(pages: seq<Page>, j: nat, k: nat)
    requires j <= k <= |pages|
    ensures PrefixRows(pages, j) <= PrefixRows(pages, k)
    decreases k - j
  {
    if j < k {
      PrefixRowsGrow(pages, j, k - 1);
    }
  }

  /** Whether any of the first `k` pages reaches the date limit: the flag
      that is set by a page and never cleared. */
  predicate HitBy(pages: seq<Page>, c: Config, k: nat)
    requires k <= |pages|
  {
    k > 0 && (HitBy(pages, c, k - 1) || PageHit(pages[k - 1], c))
  }

  /** A set flag points at a page that reached the limit. */
  lemma {:induction false} HitByWitness(pages: seq<Page>, c: Config, k: nat)
    requires k <= |pages| && HitBy(pages, c, k)
    ensures exists i :: 0 <= i < k && PageHit(pages[i], c)
  {
    if HitBy(pages, c, k - 1) {
      HitByWitness(pages, c, k - 1);
    } else {
      assert PageHit(pages[k - 1], c);
    }
  }

  /** A clear flag means no page so far reached the limit. */
  lemma {:induction false} NoHitPages(pages: seq<Page>, c: Config, k: nat)
    requires k <= |pages| && !HitBy(pages, c, k)
    ensures forall i :: 0 <= i < k ==> !PageHit(pages[i], c)
  {
    if k > 0 {
      NoHitPages(pages, c, k - 1);
      forall i | 0 <= i < k ensures !PageHit(pages[i], c) {
        if i == k - 1 {
          assert !PageHit(pages[k - 1], c);
        }
      }
    }
  }

  /** The flag after `k` pages is set exactly when one of them reached the limit. */
  lemma HitByIff(pages: seq<Page>, c: Config, k: nat)
    requires k <= |pages|
    ensures HitBy(pages, c, k) <==> exists i :: 0 <= i < k && PageHit(pages[i], c)
  {
    if HitBy(pages, c, k) {
      HitByWitness(pages, c, k);
    } else {
      NoHitPages(pages, c, k);
    }
  }

  /** The loop of one target has stopped after harvesting `j` pages: there is
      no next page, the limit is met, or the date limit was reached. */
  predicate Stop(pages: seq<Page>, c: Config, j: nat)
    requires j <= |pages|
  {
    j == |pages| || |PrefixRows(pages, j)| >= c.limit || HitBy(pages, c, j)
  }

  /** The first `j` from `from` on at which the loop stops. */
  function FirstStop(pages: seq<Page>, c: Config, from: nat): (k: nat)
    requires 1 <= from <= |pages|
    decreases |pages| - from
  {
    if Stop(pages, c, from) then from else FirstStop(pages, c, from + 1)
  }

  /** `FirstStop` is the least stopping point from `from` on. */
  lemma {:induction false} FirstStopIsLeast(pages: seq<Page>, c: Config, from: nat)
    requires 1 <= from <= |pages|
    ensures from <= FirstStop(pages, c, from) <= |pages|
    ensures Stop(pages, c, FirstStop(pages, c, from))
    ensures forall m :: from <= m < FirstStop(pages, c, from) ==> !Stop(pages, c, m)
    decreases |pages| - from
  {
    if !Stop(pages, c, from) {
      FirstStopIsLeast(pages, c, from + 1);
    }
  }

  /** The number of pages one target's loop harvests. */
  function HarvestedPages(pages: seq<Page>, c: Config): (k: nat)
    requires |pages| > 0
    ensures 1 <= k <= |pages|
  {
    FirstStopIsLeast(pages, c, 1);
    FirstStop(pages, c, 1)
  }

  /** The loop stops after `HarvestedPages` pages and not before. */
  lemma HarvestedPagesIsLeast(pages: seq<Page>, c: Config)
    requires |pages| > 0
    ensures Stop(pages, c, HarvestedPages(pages, c))
    ensures forall m :: 1 <= m < HarvestedPages(pages, c) ==> !Stop(pages, c, m)
  {
    FirstStopIsLeast(pages, c, 1);
  }

  /** Whether this target's start is checked against the listing's sort
      direction: resume mode with a date bound. */
  predicate ChecksSorting(c: Config)
  {
    c.startFromUrl && (c.maxDate.Some? || c.minDate.Some?)
  }

  /** What the loop of one target writes: the sort-direction error, or the
      rows of the first `HarvestedPages` pages. */
  function Session(c: Config, t: Target): (r: Result<seq<Row>, ConfigError>)
    requires |t.pages| > 0
    ensures r.Err? <==> ChecksSorting(c) && VerifyDateSorting(c, t.ascending).Fail?
    ensures r.Err? ==> r.error == VerifyDateSorting(c, t.ascending).error
    ensures r.Ok? ==> r.value == PrefixRows(t.pages, HarvestedPages(t.pages, c))
  {
    if ChecksSorting(c) && VerifyDateSorting(c, t.ascending).Fail? then
      Err(VerifyDateSorting(c, t.ascending).error)
    else
      Ok(PrefixRows(t.pages, HarvestedPages(t.pages, c)))
  }

  /** The page number a target's count starts from. */
  function StartPage(c: Config, t: Target): int
  {
    if c.startFromUrl then t.currentPage else 1
  }

  // ---------------------------------------------------------------------
  // Properties of one target's harvest
  // ---------------------------------------------------------------------

  /** The first page is always harvested: its rows begin the output. */
  lemma SessionHarvestsFirstPage(c: Config, t: Target)
    requires |t.pages| > 0
    requires Session(c, t).Ok?
    ensures RowsFrom(t.pages[0], 0) <= Session(c, t).value
  {
    assert PrefixRows(t.pages, 1) == RowsFrom(t.pages[0], 0);
    PrefixRowsGrow(t.pages, 1, HarvestedPages(t.pages, c));
  }

  /** Page `j + 1` is harvested only if, after `j` pages, there was a next
      page, fewer rows than the limit and no date limit; after the last
      harvested page one of these fails. */
  lemma SessionLoopCondition(c: Config, t: Target, j: nat)
    requires |t.pages| > 0
    ensures var k := HarvestedPages(t.pages, c);
            1 <= j < k ==> j < |t.pages| && |PrefixRows(t.pages, j)| < c.limit && !HitBy(t.pages, c, j)
    ensures var k := HarvestedPages(t.pages, c);
            k == |t.pages| || |PrefixRows(t.pages, k)| >= c.limit || HitBy(t.pages, c, k)
  {
    var k := HarvestedPages(t.pages, c);
    HarvestedPagesIsLeast(t.pages, c);
    if 1 <= j < k {
      assert !Stop(t.pages, c, j);
    }
  }

  /** Overshoot is at most one page: before the last harvested page the row
      count was below the limit. */
  lemma {:induction false} SessionOvershoot(c: Config, t: Target)
    requires |t.pages| > 0
    requires Session(c, t).Ok?
    ensures var k := HarvestedPages(t.pages, c);
            k > 1 ==> |PrefixRows(t.pages, k - 1)| < c.limit
                      && |Session(c, t).value| == |PrefixRows(t.pages, k - 1)| + |NonFeatured(t.pages[k - 1])|
                      && |Session(c, t).value| < c.limit + |NonFeatured(t.pages[k - 1])|
  {
    var k := HarvestedPages(t.pages, c);
    HarvestedPagesIsLeast(t.pages, c);
    if k > 1 {
      assert !Stop(t.pages, c, k - 1);
      RowsFromReviews(t.pages[k - 1], Offset(t.pages, k - 1));
    }
  }

  /** The output rows are the non-featured reviews of the harvested pages, in
      order, under strictly increasing keys counted over all nodes. */
  lemma SessionRows(c: Config, t: Target)
    requires |t.pages| > 0
    requires Session(c, t).Ok?
    ensures var rows := Session(c, t).value;
            var nodes := Concat(t.pages[..HarvestedPages(t.pages, c)]);
            |rows| == |NonFeatured(nodes)|
            && (forall i :: 0 <= i < |rows| ==> rows[i].review == NonFeatured(nodes)[i])
            && (forall i :: 0 <= i < |rows| ==> 0 <= rows[i].key < |nodes|)
            && (forall i, j :: 0 <= i < j < |rows| ==> rows[i].key < rows[j].key)
  {
    var k := HarvestedPages(t.pages, c);
    PrefixRowsConcat(t.pages, k);
    RowsFromReviews(Concat(t.pages[..k]), 0);
    RowsFromKeys(Concat(t.pages[..k]), 0);
  }

  /** Whether a row's date keeps to the bounds of `c`. */
  predicate WithinBounds(r: Row, c: Config)
  {
    (c.maxDate.Some? ==> r.review.date <= c.maxDate.value)
    && (c.minDate.Some? ==> r.review.date >= c.minDate.value)
  }

  /** The rows of a page that does not reach the date limit keep to the bounds. */
  lemma PageWithinBounds(p: Page, c: Config, base: int)
    requires !PageHit(p, c)
    ensures forall r :: r in RowsFrom(p, base) ==> WithinBounds(r, c)
  {
    var rows := RowsFrom(p, base);
    DatesOfRowsFrom(p, base);
    DateLimitHitIff(PageDates(p), c.maxDate, c.minDate);
    forall r | r in rows ensures WithinBounds(r, c) {
      var i :| 0 <= i < |rows| && rows[i] == r;
      assert Dates(rows)[i] == r.review.date;
    }
  }

  /** The rows of pages none of which reaches the date limit keep to the bounds. */
  lemma {:induction false} NoHitWithinBounds(pages: seq<Page>, c: Config, k: nat)
    requires k <= |pages| && !HitBy(pages, c, k)
    ensures forall r :: r in PrefixRows(pages, k) ==> WithinBounds(r, c)
  {
    if k > 0 {
      NoHitWithinBounds(pages, c, k - 1);
      PageWithinBounds(pages[k - 1], c, Offset(pages, k - 1));
    }
  }

  /** Only the last harvested page can hold dates beyond the bound; and when
      the date limit ended the loop, that page is the one that crossed it. */
  lemma SessionDateTolerance(c: Config, t: Target)
    requires |t.pages| > 0
    requires Session(c, t).Ok?
    ensures var k := HarvestedPages(t.pages, c);
            PrefixRows(t.pages, k - 1) <= Session(c, t).value
    ensures var k := HarvestedPages(t.pages, c);
            forall r :: r in PrefixRows(t.pages, k - 1) ==> WithinBounds(r, c)
    ensures var k := HarvestedPages(t.pages, c);
            HitBy(t.pages, c, k) ==> PageHit(t.pages[k - 1], c)
  {
    var k := HarvestedPages(t.pages, c);
    HarvestedPagesIsLeast(t.pages, c);
    PrefixRowsGrow(t.pages, k - 1, k);
    if k - 1 >= 1 {
      assert !Stop(t.pages, c, k - 1);
    }
    NoHitWithinBounds(t.pages, c, k - 1);
  }

  /** Two pages, five reviews with one featured and then three, a limit of
      10 and no date bound: both pages are harvested, giving seven rows, and
      the loop ends because there is no next page. */
  lemma TwoPageScenario(c: Config, t: Target)
    requires c.limit == 10 && c.maxDate.None? && c.minDate.None?
    requires |t.pages| == 2 && |t.pages[0]| == 5 && |t.pages[1]| == 3
    requires forall i :: 0 <= i < 5 ==> t.pages[0][i].featured == (i == 1)
    requires forall i :: 0 <= i < 3 ==> !t.pages[1][i].featured
    ensures Session(c, t).Ok?
    ensures HarvestedPages(t.pages, c) == 2
    ensures |Session(c, t).value| == 7
  {
    var p0, p1 := t.pages[0], t.pages[1];
    NonFeaturedNone(p0[2..]);
    assert p0[1..][1..] == p0[2..];
    assert NonFeatured(p0[1..]) == p0[2..];
    assert |NonFeatured(p0)| == 4;
    NonFeaturedNone(p1);
    RowsFromReviews(p0, 0);
    RowsFromReviews(p1, Offset(t.pages, 1));
    assert |PrefixRows(t.pages, 1)| == 4;
    assert !HitBy(t.pages, c, 0) && !PageHit(p0, c);
    assert !Stop(t.pages, c, 1);
    assert FirstStop(t.pages, c, 1) == FirstStop(t.pages, c, 2) == 2;
  }

  /** A limit of 3 and a first page of five reviews, none featured, with a
      next page and no date bound: the first page alone is harvested and all
      five of its rows are kept, overshooting the limit by two. */
  lemma OvershootScenario(c: Config, t: Target)
    requires c.limit == 3 && c.maxDate.None? && c.minDate.None?
    requires |t.pages| >= 2 && |t.pages[0]| == 5
    requires forall i :: 0 <= i < 5 ==> !t.pages[0][i].featured
    ensures Session(c, t).Ok?
    ensures HarvestedPages(t.pages, c) == 1
    ensures |Session(c, t).value| == 5
  {
    var p0 := t.pages[0];
    NonFeaturedNone(p0);
    RowsFromReviews(p0, 0);
    assert |PrefixRows(t.pages, 1)| == 5;
    assert Stop(t.pages, c, 1);
  }

  /** Resume mode with a maximum date on an ascending listing, the first
      page holding a review dated after the maximum and a next page: the
      date limit ends the loop after the first page. */
  lemma DateLimitScenario(c: Config, t: Target, i: nat)
    requires c.startFromUrl && c.maxDate.Some? && c.minDate.None?
    requires t.ascending && |t.pages| >= 2
    requires i < |t.pages[0]| && !t.pages[0][i].featured && t.pages[0][i].date > c.maxDate.value
    ensures Session(c, t).Ok?
    ensures HarvestedPages(t.pages, c) == 1
    ensures HitBy(t.pages, c, 1)
  {
    PageHitIff(t.pages[0], c);
    assert Stop(t.pages, c, 1);
  }

  /** The state of the paging loop after `n` pages: the rows, the running
      index and the flag are those of the first `n` pages, and the loop
      has not passed its stopping point. */
  ghost predicate Harvested(pages: seq<Page>, c: Config, n: nat, rows: seq<Row>, index: int, flag: bool)
  {
    1 <= n <= |pages| && rows == PrefixRows(pages, n) && index == Offset(pages, n)
    && flag == HitBy(pages, c, n) && FirstStop(pages, c, 1) == FirstStop(pages, c, n)
  }

  /** One turn of the paging loop, on values: when the loop goes on after
      `k + 1` pages, harvesting page `k + 1` gives the state after `k + 2`
      pages. */
  lemma LoopStep(pages: seq<Page>, c: Config, k: nat, rows: seq<Row>, index: int, flag: bool)
    requires Harvested(pages, c, k + 1, rows, index, flag)
    requires k + 1 < |pages| && |rows| < c.limit && !flag
    ensures Harvested(pages, c, k + 2, rows + RowsFrom(pages[k + 1], index),
                      index + |pages[k + 1]|, PageHit(pages[k + 1], c))
  {
    assert !Stop(pages, c, k + 1);
  }

  /** When the loop ends after `n` pages, `n` is the number of harvested pages. */
  lemma LoopEnd(pages: seq<Page>, c: Config, n: nat, rows: seq<Row>, index: int, flag: bool)
    requires Harvested(pages, c, n, rows, index, flag)
    requires n == |pages| || |rows| >= c.limit || flag
    ensures n == HarvestedPages(pages, c)
  {
    assert Stop(pages, c, n);
  }

  // ---------------------------------------------------------------------
  // The scraper's state
  // ---------------------------------------------------------------------

  /** The scraper: the module-level cells `page`, `idx` and
      `date_limit_reached`, and the browser, seen as the listing it walks
      and the position it is at. */
  class Scraper {
    const args: Config
    var page: int
    var idx: int
    var dateLimitReached: bool
    var listing: seq<Page>
    var at: nat

    /** The browser shows one of the listing's pages. */
    ghost predicate Valid()
      reads this
    {
      at < |listing|
    }

    /** The state before the first target: page 1, index 0, flag unset, and a
      browser on a blank page. The script gets here only when the option
      combination was accepted. */
    constructor (args: Config)
      requires CheckArguments(args).Pass?
      ensures this.args == args
      ensures page == 1 && idx == 0 && !dateLimitReached
      ensures listing == [[]] && at == 0
      ensures Valid()
    {
      this.args := args;
      page, idx, dateLimitReached := 1, 0, false;
      listing, at := [[]], 0;
    }

    /** Harvest the page the browser shows: one row per non-featured review,
        stored under the running index, which advances once per review; then
        set the date flag if the page reached the limit. */
    method ExtractFromPage() returns (batch: seq<Row>)
      requires Valid()
      modifies this`idx, this`dateLimitReached
      ensures batch == RowsFrom(listing[at], old(idx))
      ensures idx == old(idx) + |listing[at]|
      ensures dateLimitReached == (old(dateLimitReached) || PageHit(listing[at], args))
    {
      var reviews := listing[at];
      ghost var idx0 := idx;
      batch := [];
      for i := 0 to |reviews|
        invariant idx == idx0 + i
        invariant batch == RowsFrom(reviews[..i], idx0)
        invariant dateLimitReached == old(dateLimitReached)
      {
        var review := reviews[i];
        assert [review][1..] == [];
        assert RowsFrom([review], idx) == if review.featured then [] else [Row(idx, review)];
        if !review.featured {
          batch := batch + [Row(idx, review)];
        }
        idx := idx + 1;
        RowsFromAppend(reviews[..i], [review], idx0);
        assert reviews[..i + 1] == reviews[..i] + [review];
      }
      assert reviews[..|reviews|] == reviews;
      assert batch == RowsFrom(reviews, idx0);
      DatesOfRowsFrom(reviews, idx0);
      assert Dates(batch) == PageDates(reviews);
      assert DateLimitHit(Dates(batch), args.maxDate, args.minDate) == PageHit(reviews, args);
      if DateLimitHit(Dates(batch), args.maxDate, args.minDate) {
        dateLimitReached := true;
      }
    }

    /** Whether the listing has a page after the one shown: on a browser
        showing one of the listing's pages, it fails exactly on the last. */
    predicate MorePages()
      reads this
      ensures MorePages() ==> Valid() && at + 1 < |listing|
      ensures Valid() ==> (MorePages() <==> at != |listing| - 1)
    {
      at + 1 < |listing|
    }

    /** Follow the "next" link: the browser shows the next page and the page
        counter goes up by one. */
    method GoToNextPage()
      requires Valid() && at + 1 < |listing|
      modifies this`page, this`at
      ensures Valid()
      ensures at == old(at) + 1 && page == old(page) + 1
    {
      at := at + 1;
      page := page + 1;
    }

    /** The start of one target: reset the counters and open the listing,
        checking its sort direction first in resume mode with a date bound.
        In resume mode the page counter is read from the listing. */
    method OpenListing(t: Target) returns (o: Outcome<ConfigError>)
      requires |t.pages| > 0
      modifies this`page, this`idx, this`dateLimitReached, this`listing, this`at
      ensures o == (if ChecksSorting(args) then VerifyDateSorting(args, t.ascending) else Pass)
      ensures idx == 0 && !dateLimitReached
      ensures o.Pass? ==> Valid() && listing == t.pages && at == 0 && page == StartPage(args, t)
      ensures o.Fail? ==> page == 1 && listing == old(listing) && at == old(at)
    {
      page, idx, dateLimitReached := 1, 0, false;
      o := Pass;
      if !args.startFromUrl {
        listing, at := t.pages, 0;
      } else if args.maxDate.Some? || args.minDate.Some? {
        o := VerifyDateSorting(args, t.ascending);
        if o.Fail? {
          return;
        }
        listing, at := t.pages, 0;
        page := t.currentPage;
      } else {
        listing, at := t.pages, 0;
        page := t.currentPage;
      }
    }

    /** The paging loop of one target, once its first page is harvested:
        advance and harvest while there is a next page, fewer rows than the
        limit and no date limit. */
    method HarvestRest(first: seq<Row>) returns (res: seq<Row>)
      requires Valid() && at == 0
      requires first == PrefixRows(listing, 1)
      requires idx == Offset(listing, 1)
      requires dateLimitReached == HitBy(listing, args, 1)
      modifies this`page, this`at, this`idx, this`dateLimitReached
      ensures Valid() && at + 1 == HarvestedPages(listing, args)
      ensures page == old(page) + at
      ensures res == PrefixRows(listing, at + 1)
      ensures idx == Offset(listing, at + 1)
      ensures dateLimitReached == HitBy(listing, args, at + 1)
    {
      res := first;
      ghost var pages := listing;
      while MorePages() && |res| < args.limit && !dateLimitReached
        invariant Valid() && listing == pages
        invariant page == old(page) + at
        invariant Harvested(pages, args, at + 1, res, idx, dateLimitReached)
        decreases |pages| - at
      {
        LoopStep(pages, args, at, res, idx, dateLimitReached);
        ghost var k, index := at, idx;
        GoToNextPage();
        var batch := ExtractFromPage();
        assert at == k + 1 && listing == pages;
        assert batch == RowsFrom(pages[k + 1], index) && idx == index + |pages[k + 1]|;
        assert dateLimitReached == PageHit(pages[k + 1], args);
        res := res + batch;
      }
      LoopEnd(pages, args, at + 1, res, idx, dateLimitReached);
    }

    /** Scrape one target: open its listing, harvest the first page, then
        run the paging loop. */
    method ProcessUrl(t: Target) returns (r: Result<seq<Row>, ConfigError>)
      requires |t.pages| > 0
      modifies this
      ensures r == Session(args, t)
      ensures r.Ok? ==> Valid() && listing == t.pages
                        && at + 1 == HarvestedPages(t.pages, args)
                        && page == StartPage(args, t) + at
                        && idx == Offset(t.pages, at + 1)
                        && dateLimitReached == HitBy(t.pages, args, at + 1)
      ensures r.Err? ==> page == 1 && idx == 0 && !dateLimitReached
                         && listing == old(listing) && at == old(at)
    {
      var start := OpenListing(t);
      if start.Fail? {
        return Err(start.error);
      }
      var first := ExtractFromPage();
      var res := HarvestRest(first);
      r := Ok(res);
    }

    /** Scrape every target of a batch in turn, each into the file named
        after it. A sort-direction error ends the whole run; the files of
        the targets before it have been written. */
    method ProcessTargets(targets: seq<Target>) returns (outputs: seq<Output>, failure: Option<ConfigError>)
      requires forall i :: 0 <= i < |targets| ==> |targets[i].pages| > 0
      modifies this
      ensures |outputs| <= |targets|
      ensures forall i :: 0 <= i < |outputs| ==>
                Session(args, targets[i]).Ok?
                && outputs[i] == Output(FileName(targets[i].name), Session(args, targets[i]).value)
      ensures failure.None? ==> |outputs| == |targets|
      ensures failure.Some? ==> |outputs| < |targets|
                                && Session(args, targets[|outputs|]) == Err(failure.value)
    {
      outputs := [];
      failure := None;
      for i := 0 to |targets|
        invariant |outputs| == i
        invariant forall j :: 0 <= j < i ==>
                    Session(args, targets[j]).Ok?
                    && outputs[j] == Output(FileName(targets[j].name), Session(args, targets[j]).value)
      {
        var r := ProcessUrl(targets[i]);
        if r.Err? {
          failure := Some(r.error);
          return;
        }
        outputs := outputs + [Output(FileName(targets[i].name), r.value)];
      }
    }
  }
}
