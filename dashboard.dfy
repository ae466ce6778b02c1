/**
 * The non-chart logic of the dashboard: which page a URL path shows, which
 * rows the trends page plots for the two selectors, and the record and
 * missing-value counts of the data page.
 */
module Dashboard {
  import opened Wrappers
  import opened Seqs

  // ---------------------------------------------------------------------------
  // Routing.

  datatype Page = HomePage | DataPage | EdaPage | TrendsPage | ConclusionsPage

  /** The `href` of each entry of the navigation bar. */
  function NavHref(p: Page): string
  {
    match p
    case HomePage => "/"
    case DataPage => "/data"
    case EdaPage => "/eda"
    case TrendsPage => "/trends"
    case ConclusionsPage => "/conclusions"
  }

  /**
   * `display_page`: each of the four section paths shows its own page; any
   * other path, `/` included, and a missing path show the home page.
   */
  function DisplayPage(pathname: Option<string>): (p: Page)
    ensures forall q :: q != HomePage ==> (p == q <==> pathname == Some(NavHref(q)))
  {
    if pathname == Some("/data") then DataPage
    else if pathname == Some("/eda") then EdaPage
    else if pathname == Some("/trends") then TrendsPage
    else if pathname == Some("/conclusions") then ConclusionsPage
    else HomePage
  }

  /** Every link of the navigation bar leads to its own page. */
  lemma NavLinksRoute(p: Page)
    ensures DisplayPage(Some(NavHref(p))) == p
  {
    if p == HomePage {
      assert forall q :: q != HomePage ==> NavHref(q) != "/" by {
        forall q | q != HomePage
          ensures NavHref(q) != "/"
        {
          assert |NavHref(q)| > 1;
        }
      }
    }
  }

  // ---------------------------------------------------------------------------
  // The table the dashboard shows.

  /** A cell of the data frame; `Null` is what `isnull` reports (None or NaN). */
  datatype Cell = Null | Text(s: string) | Num(x: real)

  /** One row of the data frame: the six scraped columns and the price quartile. */
  datatype Record = Record(
    title: Cell, price: Cell, rating: Cell, reviews: Cell, link: Cell, req: Cell, priceCategory: Cell)

  /** The number of columns. */
  const Width: nat := 7

  /** The cells of a row, in column order. */
  function Cells(r: Record): (cs: seq<Cell>)
    ensures |cs| == Width
  {
    [r.title, r.price, r.rating, r.reviews, r.link, r.req, r.priceCategory]
  }

  // ---------------------------------------------------------------------------
  // The trends filter.

  /**
   * The mask of `update_trends`: the category is one of the selected categories
   * and the price quartile one of the selected quartiles.
   */
  predicate Selected(r: Record, categories: seq<Cell>, quartiles: seq<Cell>)
  {
    r.req in categories && r.priceCategory in quartiles
  }

  /** `df[mask]`: the selected rows, in table order. */
  function TrendRows(df: seq<Record>, categories: seq<Cell>, quartiles: seq<Cell>): (r: seq<Record>)
    ensures |r| <= |df|
  {
    if df == [] then []
    else (if Selected(df[0], categories, quartiles) then [df[0]] else []) + TrendRows(df[1..], categories, quartiles)
  }

  /** A row is plotted exactly when it is in the table and passes both selectors. */
  lemma {:induction false} TrendRowsMembership(df: seq<Record>, categories: seq<Cell>, quartiles: seq<Cell>, x: Record)
    ensures x in TrendRows(df, categories, quartiles) <==> x in df && Selected(x, categories, quartiles)
    decreases |df|
  {
    if df != [] {
      TrendRowsMembership(df[1..], categories, quartiles, x);
      assert df == [df[0]] + df[1..];
    }
  }

  /** The filtered table keeps every occurrence of a selected row and none of the others. */
  lemma {:induction false} TrendRowsCounts(df: seq<Record>, categories: seq<Cell>, quartiles: seq<Cell>)
    ensures forall x :: multiset(TrendRows(df, categories, quartiles))[x]
                     == if Selected(x, categories, quartiles) then multiset(df)[x] else 0
    decreases |df|
  {
    if df != [] {
      TrendRowsCounts(df[1..], categories, quartiles);
      assert df == [df[0]] + df[1..];
      assert multiset(df) == multiset([df[0]]) + multiset(df[1..]);
    }
  }

  /** The filtered table keeps the table's order. */
  lemma {:induction false} TrendRowsOrdered(df: seq<Record>, categories: seq<Cell>, quartiles: seq<Cell>)
    ensures IsSubsequence(TrendRows(df, categories, quartiles), df)
    decreases |df|
  {
    if df != [] {
      var rest := TrendRows(df[1..], categories, quartiles);
      TrendRowsOrdered(df[1..], categories, quartiles);
      if Selected(df[0], categories, quartiles) {
        assert ([df[0]] + rest)[1..] == rest;
      } else {
        assert [] + rest == rest;
      }
    }
  }

  /** Clearing either selector empties the plots. */
  lemma {:induction false} EmptySelectionEmpty(df: seq<Record>, categories: seq<Cell>, quartiles: seq<Cell>)
    requires categories == [] || quartiles == []
    ensures TrendRows(df, categories, quartiles) == []
    decreases |df|
  {
    if df != [] {
      EmptySelectionEmpty(df[1..], categories, quartiles);
    }
  }

  /** Selecting more categories or quartiles never drops a plotted row, nor reorders them. */
  lemma {:induction false} TrendRowsMonotone(
    df: seq<Record>, categories: seq<Cell>, quartiles: seq<Cell>, moreCategories: seq<Cell>, moreQuartiles: seq<Cell>)
    requires forall c :: c in categories ==> c in moreCategories
    requires forall q :: q in quartiles ==> q in moreQuartiles
    ensures IsSubsequence(TrendRows(df, categories, quartiles), TrendRows(df, moreCategories, moreQuartiles))
    decreases |df|
  {
    if df != [] {
      var small := TrendRows(df[1..], categories, quartiles);
      var large := TrendRows(df[1..], moreCategories, moreQuartiles);
      TrendRowsMonotone(df[1..], categories, quartiles, moreCategories, moreQuartiles);
      if Selected(df[0], categories, quartiles) {
        assert ([df[0]] + small)[1..] == small;
        assert ([df[0]] + large)[1..] == large;
      } else if Selected(df[0], moreCategories, moreQuartiles) {
        assert [] + small == small;
        assert ([df[0]] + large)[1..] == large;
      } else {
        assert [] + small == small;
        assert [] + large == large;
      }
    }
  }

  /** When every row passes both selectors, the plots show the whole table. */
  lemma {:induction false} FullSelectionWhole(df: seq<Record>, categories: seq<Cell>, quartiles: seq<Cell>)
    requires forall i :: 0 <= i < |df| ==> Selected(df[i], categories, quartiles)
    ensures TrendRows(df, categories, quartiles) == df
    decreases |df|
  {
    if df != [] {
      FullSelectionWhole(df[1..], categories, quartiles);
      assert df == [df[0]] + df[1..];
    }
  }

  /** `xs.unique()`: each value once, in order of first appearance. */
  function Unique(xs: seq<Cell>): (u: seq<Cell>)
    ensures forall x :: x in u <==> x in xs
    ensures forall i, j :: 0 <= i < j < |u| ==> u[i] != u[j]
  {
    if xs == [] then []
    else
      var init := Unique(xs[..|xs| - 1]);
      var last := xs[|xs| - 1];
      assert xs == xs[..|xs| - 1] + [last];
      if last in init then init else init + [last]
  }

  /** The unique values come in the order of their first appearance. */
  lemma {:induction false} UniqueOrdered(xs: seq<Cell>)
    ensures IsSubsequence(Unique(xs), xs)
    ensures forall i, j :: 0 <= i < j < |Unique(xs)| ==> IndexOf(xs, Unique(xs)[i]) < IndexOf(xs, Unique(xs)[j])
    decreases |xs|
  {
    if xs != [] {
      var init := xs[..|xs| - 1];
      var last := xs[|xs| - 1];
      var u := Unique(init);
      assert xs == init + [last];
      UniqueOrdered(init);
      forall y | y in u
        ensures IndexOf(xs, y) == IndexOf(init, y)
      {
        IndexOfPrefix(init, [last], y);
      }
      if last in u {
        SubsequenceExtend(u, init, [last]);
      } else {
        SubsequenceSnoc(u, init, last);
        FirstAppearanceSnoc(xs, init, last, u);
      }
    }
  }

  lemma FirstAppearanceSnoc(xs: seq<Cell>, init: seq<Cell>, last: Cell, u: seq<Cell>)
    requires xs == init + [last] && last !in init
    requires forall y :: y in u ==> y in init && IndexOf(xs, y) == IndexOf(init, y)
    requires forall i, j :: 0 <= i < j < |u| ==> IndexOf(init, u[i]) < IndexOf(init, u[j])
    ensures forall i, j :: 0 <= i < j < |u + [last]| ==> IndexOf(xs, (u + [last])[i]) < IndexOf(xs, (u + [last])[j])
  {
    assert IndexOf(xs, last) == |init|;
    forall i, j | 0 <= i < j < |u + [last]|
      ensures IndexOf(xs, (u + [last])[i]) < IndexOf(xs, (u + [last])[j])
    {
      assert (u + [last])[i] == u[i];
      assert u[i] in u;
      if j < |u| {
        assert (u + [last])[j] == u[j];
        assert u[j] in u;
      }
    }
  }

  /** `df['req'].unique().tolist()`: the category selector's options and initial value. */
  function Categories(df: seq<Record>): seq<Cell>
  {
    Unique(Map((r: Record) => r.req, df))
  }

  /** The quartile selector's initial value. */
  const DefaultQuartiles: seq<Cell> := [Text("Q1"), Text("Q2"), Text("Q3"), Text("Q4")]

  /** Every category of the table is among the initially selected ones. */
  lemma CategoriesCover(df: seq<Record>, i: nat)
    requires i < |df|
    ensures df[i].req in Categories(df)
  {
    assert Map((r: Record) => r.req, df)[i] == df[i].req;
  }

  /** Every initially selected category is the category of some row. */
  lemma CategoriesFromRows(df: seq<Record>, x: Cell)
    requires x in Categories(df)
    ensures exists i :: 0 <= i < |df| && df[i].req == x
  {
    var reqs := Map((r: Record) => r.req, df);
    var i :| 0 <= i < |reqs| && reqs[i] == x;
    assert df[i].req == x;
  }

  /**
   * Under the initial selections the plots show exactly the rows whose quartile is
   * one of Q1-Q4, and so the whole table when every row has a quartile.
   */
  lemma DefaultSelection(df: seq<Record>)
    ensures forall x :: x in TrendRows(df, Categories(df), DefaultQuartiles)
                     <==> x in df && x.priceCategory in DefaultQuartiles
    ensures forall x :: multiset(TrendRows(df, Categories(df), DefaultQuartiles))[x]
                     == if x.priceCategory in DefaultQuartiles then multiset(df)[x] else 0
    ensures (forall i :: 0 <= i < |df| ==> df[i].priceCategory in DefaultQuartiles)
            ==> TrendRows(df, Categories(df), DefaultQuartiles) == df
  {
    var cats := Categories(df);
    forall x
      ensures x in TrendRows(df, cats, DefaultQuartiles) <==> x in df && x.priceCategory in DefaultQuartiles
    {
      TrendRowsMembership(df, cats, DefaultQuartiles, x);
      if x in df {
        var i :| 0 <= i < |df| && df[i] == x;
        CategoriesCover(df, i);
      }
    }
    TrendRowsCounts(df, cats, DefaultQuartiles);
    forall x
      ensures multiset(TrendRows(df, cats, DefaultQuartiles))[x]
           == if x.priceCategory in DefaultQuartiles then multiset(df)[x] else 0
    {
      if x in df {
        var i :| 0 <= i < |df| && df[i] == x;
        CategoriesCover(df, i);
      }
    }
    if forall i :: 0 <= i < |df| ==> df[i].priceCategory in DefaultQuartiles {
      forall i | 0 <= i < |df|
        ensures Selected(df[i], cats, DefaultQuartiles)
      {
        CategoriesCover(df, i);
      }
      FullSelectionWhole(df, cats, DefaultQuartiles);
    }
  }

  // ---------------------------------------------------------------------------
  // The summary counts.

  /** Whether a cell is null, as 0 or 1. */
  function NullMark(c: Cell): nat
  {
    if c.Null? then 1 else 0
  }

  /** The null cells among `cs`. */
  function NullsIn(cs: seq<Cell>): (n: nat)
    ensures n <= |cs|
  {
    if cs == [] then 0 else NullsIn(cs[..|cs| - 1]) + NullMark(cs[|cs| - 1])
  }

  /** `df.isnull().sum()[c]`: the null cells of column `c`. */
  function ColumnNulls(data: seq<Record>, c: nat): (n: nat)
    requires c < Width
    ensures n <= |data|
  {
    if data == [] then 0 else ColumnNulls(data[..|data| - 1], c) + NullMark(Cells(data[|data| - 1])[c])
  }

  /** The first `k` entries of `df.isnull().sum()`, added up. */
  function ColumnTotal(data: seq<Record>, k: nat): nat
    requires k <= Width
  {
    if k == 0 then 0 else ColumnTotal(data, k - 1) + ColumnNulls(data, k - 1)
  }

  datatype Summary = Summary(total: nat, missing: nat)

  /** The two counts of `update_summary`: `len(df)` and `df.isnull().sum().sum()`. */
  function UpdateSummary(data: seq<Record>): (s: Summary)
    ensures s.total == |data|
  {
    Summary(|data|, ColumnTotal(data, Width))
  }

  /** The null cells of the table counted row by row. */
  function RowTotal(data: seq<Record>): nat
  {
    if data == [] then 0 else RowTotal(data[..|data| - 1]) + NullsIn(Cells(data[|data| - 1]))
  }

  lemma {:induction false} ColumnTotalSnoc(data: seq<Record>, k: nat)
    requires data != [] && k <= Width
    ensures ColumnTotal(data, k)
         == ColumnTotal(data[..|data| - 1], k) + NullsIn(Cells(data[|data| - 1])[..k])
  {
    var last := Cells(data[|data| - 1]);
    if k > 0 {
      ColumnTotalSnoc(data, k - 1);
      assert last[..k][..k - 1] == last[..k - 1];
    }
  }

  /** Summing the per-column null counts counts every null cell of the table once. */
  lemma {:induction false} MissingCountsNullCells(data: seq<Record>)
    ensures UpdateSummary(data).missing == RowTotal(data)
    decreases |data|
  {
    if data == [] {
      assert ColumnTotal(data, Width) == 0 by {
        ZeroColumns(data, Width);
      }
    } else {
      MissingCountsNullCells(data[..|data| - 1]);
      ColumnTotalSnoc(data, Width);
      assert Cells(data[|data| - 1])[..Width] == Cells(data[|data| - 1]);
    }
  }

  lemma {:induction false} ZeroColumns(data: seq<Record>, k: nat)
    requires data == [] && k <= Width
    ensures ColumnTotal(data, k) == 0
  {
    if k > 0 {
      ZeroColumns(data, k - 1);
    }
  }

  /** A table has at most seven missing cells per record. */
  lemma {:induction false} MissingBounded(data: seq<Record>)
    ensures UpdateSummary(data).missing <= Width * UpdateSummary(data).total
    decreases |data|
  {
    MissingCountsNullCells(data);
    RowTotalBounded(data);
  }

  lemma {:induction false} RowTotalBounded(data: seq<Record>)
    ensures RowTotal(data) <= Width * |data|
    decreases |data|
  {
    if data != [] {
      RowTotalBounded(data[..|data| - 1]);
    }
  }

  /** Both counts of two tables put one after the other add up. */
  lemma SummaryAppend(a: seq<Record>, b: seq<Record>)
    ensures UpdateSummary(a + b).total == UpdateSummary(a).total + UpdateSummary(b).total
    ensures UpdateSummary(a + b).missing == UpdateSummary(a).missing + UpdateSummary(b).missing
  {
    MissingCountsNullCells(a + b);
    MissingCountsNullCells(a);
    MissingCountsNullCells(b);
    RowTotalAppend(a, b);
  }

  lemma {:induction false} RowTotalAppend(a: seq<Record>, b: seq<Record>)
    ensures RowTotal(a + b) == RowTotal(a) + RowTotal(b)
    decreases |b|
  {
    if b == [] {
      assert a + b == a;
    } else {
      var b' := b[..|b| - 1];
      assert (a + b)[..|a + b| - 1] == a + b';
      assert (a + b)[|a + b| - 1] == b[|b| - 1];
      RowTotalAppend(a, b');
    }
  }

  /** Nothing is reported missing exactly when no cell of the table is null. */
  lemma {:induction false} NoMissingIffNoNull(data: seq<Record>)
    ensures UpdateSummary(data).missing == 0
        <==> forall i, c :: 0 <= i < |data| && 0 <= c < Width ==> !Cells(data[i])[c].Null?
    decreases |data|
  {
    MissingCountsNullCells(data);
    RowTotalZero(data);
  }

  lemma {:induction false} RowTotalZero(data: seq<Record>)
    ensures RowTotal(data) == 0
        <==> forall i, c :: 0 <= i < |data| && 0 <= c < Width ==> !Cells(data[i])[c].Null?
    decreases |data|
  {
    if data != [] {
      var init := data[..|data| - 1];
      RowTotalZero(init);
      NullsInZero(Cells(data[|data| - 1]));
      if RowTotal(data) == 0 {
        forall i, c | 0 <= i < |data| && 0 <= c < Width
          ensures !Cells(data[i])[c].Null?
        {
          if i < |init| {
            assert data[i] == init[i];
          }
        }
      } else {
        if RowTotal(init) != 0 {
          var i, c :| 0 <= i < |init| && 0 <= c < Width && Cells(init[i])[c].Null?;
          assert data[i] == init[i];
        }
      }
    }
  }

  lemma {:induction false} NullsInZero(cs: seq<Cell>)
    ensures NullsIn(cs) == 0 <==> forall c :: 0 <= c < |cs| ==> !cs[c].Null?
    decreases |cs|
  {
    if cs != [] {
      var init := cs[..|cs| - 1];
      NullsInZero(init);
      if NullsIn(cs) == 0 {
        forall c | 0 <= c < |cs|
          ensures !cs[c].Null?
        {
          if c < |init| {
            assert cs[c] == init[c];
          }
        }
      }
    }
  }
}
