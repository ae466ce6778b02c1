/**
 * The card loop of `parsing_yandex_market`: every product card on the results
 * page either yields one row of the table (title, price, rating, number of
 * reviews, absolute link, search request) or is skipped because one of its
 * fields is missing or does not convert.
 */
module Collector {
  import opened Wrappers
  import opened Seqs
  import opened PyStr
  import opened Normaliser

  /** What is prefixed to a relative product link. */
  const MarketOrigin: string := "https://market.yandex.ru"

  /**
   * One product card as the page shows it: the text of each looked-up element
   * (None when the card has no such element) and the `href` attribute of each
   * anchor in document order (None when the anchor has no `href`).
   */
  datatype Card = Card(
    title: Option<string>,
    price: Option<string>,
    rating: Option<string>,
    reviews: Option<string>,
    hrefs: seq<Option<string>>)

  /** One appended table row: `[title, price, rating, reviews, full_link, req]`. */
  datatype Row = Row(title: string, price: Number, rating: string, reviews: Number, link: string, req: string)

  /** Why a card is skipped: the first step of the extraction that raises. */
  datatype Skip = NoTitle | NoPrice | BadPrice | NoRating | NoReviews | BadReviews | NoLink

  /** The anchor filter `href and href.startswith('/')`. */
  predicate IsRelative(href: Option<string>)
  {
    href.Some? && |href.value| > 0 && href.value[0] == '/'
  }

  /** The `href` of the first anchor that passes the filter, if any. */
  function FindLink(hrefs: seq<Option<string>>): (r: Option<string>)
    ensures r.None? <==> forall i :: 0 <= i < |hrefs| ==> !IsRelative(hrefs[i])
    ensures r.Some? ==> exists i :: 0 <= i < |hrefs| && hrefs[i] == r
                                  && forall k :: 0 <= k < i ==> !IsRelative(hrefs[k])
    ensures r.Some? ==> IsRelative(r)
  {
    if hrefs == [] then None
    else if IsRelative(hrefs[0]) then hrefs[0]
    else
      var r := FindLink(hrefs[1..]);
      if r.Some? then
        var i :| 0 <= i < |hrefs[1..]| && hrefs[1..][i] == r
                 && forall k :: 0 <= k < i ==> !IsRelative(hrefs[1..][k]);
        assert hrefs[i + 1] == r;
        r
      else
        r
  }

  /** `full_link`: the origin prefixed to a link starting with '/', any other link unchanged. */
  function FullLink(link: string): string
  {
    if |link| > 0 && link[0] == '/' then MarketOrigin + link else link
  }

  /** A card every step of the extraction gets through. */
  predicate Complete(card: Card)
  {
    && card.title.Some?
    && card.price.Some? && CleanStrangeSymbols(Strip(card.price.value)).Some?
    && card.rating.Some?
    && card.reviews.Some? && CleanStrangeSymbols(Strip(card.reviews.value)).Some?
    && exists i :: 0 <= i < |card.hrefs| && IsRelative(card.hrefs[i])
  }

  /** The body of the `try` block for one card, with the `except: continue` as `Err`. */
  function ExtractRow(card: Card, req: string): (r: Result<Row, Skip>)
    ensures r.Ok? <==> Complete(card)
    ensures r.Ok? ==> r.value.req == req && WellFormed(r.value.price) && WellFormed(r.value.reviews)
  {
    if card.title.None? then Err(NoTitle)
    else
      var title := Strip(card.title.value);
      if card.price.None? then Err(NoPrice)
      else
        var price := CleanStrangeSymbols(Strip(card.price.value));
        if price.None? then Err(BadPrice)
        else if card.rating.None? then Err(NoRating)
        else
          var rating := Strip(card.rating.value);
          if card.reviews.None? then Err(NoReviews)
          else
            var reviews := CleanStrangeSymbols(Strip(card.reviews.value));
            if reviews.None? then Err(BadReviews)
            else
              var link := FindLink(card.hrefs);
              if link.None? then Err(NoLink)
              else Ok(Row(title, price.value, rating, reviews.value, FullLink(link.value), req))
  }

  /** The outcome of the `try` block for each card, in card order. */
  function Outcomes(items: seq<Card>, req: string): seq<Result<Row, Skip>>
  {
    Map(card => ExtractRow(card, req), items)
  }

  /** The rows the loop appends for `items`, in card order. */
  function Harvest(items: seq<Card>, req: string): seq<Row>
  {
    Oks(Outcomes(items, req))
  }

  /** The data frame the cards are appended to. */
  class Table {
    var rows: seq<Row>

    constructor()
      ensures rows == []
    {
      rows := [];
    }

    /** The `for item in items` loop: appends the row of each complete card, in order. */
    method ParseCards(req: string, items: seq<Card>)
      modifies this
      ensures rows == old(rows) + Harvest(items, req)
    {
      ghost var outcomes := Outcomes(items, req);
      for i := 0 to |items|
        invariant rows == old(rows) + Oks(outcomes[..i])
      {
        var r := ExtractRow(items[i], req);
        AppendStep(rows, old(rows), items, req, i);
        if r.Ok? {
          rows := rows + [r.value];
        }
      }
      assert outcomes[..|items|] == outcomes;
    }
  }

  /** One turn of the card loop keeps the table equal to the start plus the rows so far. */
  lemma AppendStep(rows: seq<Row>, start: seq<Row>, items: seq<Card>, req: string, i: nat)
    requires i < |items| && rows == start + Oks(Outcomes(items, req)[..i])
    ensures var r := ExtractRow(items[i], req);
      (if r.Ok? then rows + [r.value] else rows) == start + Oks(Outcomes(items, req)[..i + 1])
  {
    OksStep(rows, start, Outcomes(items, req), i);
  }

  // ---------------------------------------------------------------------------
  // Keeping the successes of a sequence of outcomes, whatever produced them.

  /** The values of the `Ok` outcomes, in order. */
  function Oks<T, E>(rs: seq<Result<T, E>>): (r: seq<T>)
    ensures |r| <= |rs|
  {
    if rs == [] then []
    else Oks(rs[..|rs| - 1]) + if rs[|rs| - 1].Ok? then [rs[|rs| - 1].value] else []
  }

  function OkCount<T, E>(rs: seq<Result<T, E>>): nat
  {
    if rs == [] then 0
    else OkCount(rs[..|rs| - 1]) + if rs[|rs| - 1].Ok? then 1 else 0
  }

  lemma OksStep<T, E>(rows: seq<T>, start: seq<T>, rs: seq<Result<T, E>>, i: nat)
    requires i < |rs| && rows == start + Oks(rs[..i])
    ensures (if rs[i].Ok? then rows + [rs[i].value] else rows) == start + Oks(rs[..i + 1])
  {
    assert rs[..i + 1][..i] == rs[..i];
  }

  lemma {:induction false} OkCountMap<A, T, E>(f: A -> Result<T, E>, p: A -> bool, xs: seq<A>)
    requires forall x :: f(x).Ok? == p(x)
    ensures OkCount(Map(f, xs)) == Count(p, xs)
    decreases |xs|
  {
    if xs != [] {
      var n := |xs| - 1;
      MapPrefix(f, xs, n);
      OkCountMap(f, p, xs[..n]);
    }
  }

  lemma {:induction false} OksLength<T, E>(rs: seq<Result<T, E>>)
    ensures |Oks(rs)| == OkCount(rs)
    decreases |rs|
  {
    if rs != [] {
      OksLength(rs[..|rs| - 1]);
    }
  }

  lemma {:induction false} OksAppend<T, E>(a: seq<Result<T, E>>, b: seq<Result<T, E>>)
    ensures Oks(a + b) == Oks(a) + Oks(b)
    decreases |b|
  {
    if b == [] {
      assert a + b == a;
    } else {
      var b' := b[..|b| - 1];
      assert (a + b)[..|a + b| - 1] == a + b';
      assert (a + b)[|a + b| - 1] == b[|b| - 1];
      OksAppend(a, b');
    }
  }

  lemma OksPosition<T, E>(rs: seq<Result<T, E>>, k: nat)
    requires k < |rs| && rs[k].Ok?
    ensures OkCount(rs[..k]) < |Oks(rs)|
    ensures Oks(rs)[OkCount(rs[..k])] == rs[k].value
  {
    assert rs == rs[..k] + rs[k..];
    assert rs[k..] == [rs[k]] + rs[k + 1..];
    OksAppend(rs[..k], rs[k..]);
    OksAppend([rs[k]], rs[k + 1..]);
    OksLength(rs[..k]);
    assert [rs[k]][..0] == [];
  }

  lemma {:induction false} OksFrom<T, E>(rs: seq<Result<T, E>>, k: nat)
    requires k < |Oks(rs)|
    ensures exists i :: 0 <= i < |rs| && rs[i] == Ok(Oks(rs)[k])
    decreases |rs|
  {
    var init := rs[..|rs| - 1];
    if k < |Oks(init)| {
      OksFrom(init, k);
      var i :| 0 <= i < |init| && init[i] == Ok(Oks(init)[k]);
      assert rs[i] == init[i];
    } else {
      assert rs[|rs| - 1] == Ok(Oks(rs)[k]);
    }
  }

  lemma {:induction false} OksNone<T, E>(rs: seq<Result<T, E>>)
    requires forall i :: 0 <= i < |rs| ==> rs[i].Err?
    ensures Oks(rs) == []
    decreases |rs|
  {
    if rs != [] {
      OksNone(rs[..|rs| - 1]);
    }
  }

  lemma {:induction false} OksAll<T, E>(rs: seq<Result<T, E>>)
    requires forall i :: 0 <= i < |rs| ==> rs[i].Ok?
    ensures |Oks(rs)| == |rs|
    ensures forall i :: 0 <= i < |rs| ==> Oks(rs)[i] == rs[i].value
    decreases |rs|
  {
    if rs != [] {
      var init := rs[..|rs| - 1];
      OksAll(init);
      forall i | 0 <= i < |rs|
        ensures Oks(rs)[i] == rs[i].value
      {
        if i < |init| {
          assert rs[i] == init[i];
        }
      }
    }
  }

  lemma OksMapAll<A, T, E>(f: A -> Result<T, E>, p: A -> bool, xs: seq<A>)
    requires forall x :: p(x) ==> f(x).Ok?
    requires forall i :: 0 <= i < |xs| ==> p(xs[i])
    ensures |Oks(Map(f, xs))| == |xs|
    ensures forall i :: 0 <= i < |xs| ==> Oks(Map(f, xs))[i] == f(xs[i]).value
  {
    OksAll(Map(f, xs));
  }

  // ---------------------------------------------------------------------------
  // Properties of the card loop.

  lemma OutcomesPrefix(items: seq<Card>, req: string, k: nat)
    requires k <= |items|
    ensures Outcomes(items, req)[..k] == Outcomes(items[..k], req)
  {
    MapPrefix(card => ExtractRow(card, req), items, k);
  }

  lemma OkCountIsCompleteCount(items: seq<Card>, req: string)
    ensures OkCount(Outcomes(items, req)) == Count(Complete, items)
  {
    OkCountMap(card => ExtractRow(card, req), Complete, items);
  }

  /** One row per complete card, and none for the others. */
  lemma HarvestLength(items: seq<Card>, req: string)
    ensures |Harvest(items, req)| == Count(Complete, items)
  {
    OksLength(Outcomes(items, req));
    OkCountIsCompleteCount(items, req);
  }

  /** Harvesting two pages of cards is harvesting each in turn. */
  lemma HarvestAppend(a: seq<Card>, b: seq<Card>, req: string)
    ensures Harvest(a + b, req) == Harvest(a, req) + Harvest(b, req)
  {
    MapAppend(card => ExtractRow(card, req), a, b);
    OksAppend(Outcomes(a, req), Outcomes(b, req));
  }

  /** Each row comes from a complete card of the page and carries the request searched for. */
  lemma HarvestRowsFromCards(items: seq<Card>, req: string, k: nat)
    requires k < |Harvest(items, req)|
    ensures exists i :: 0 <= i < |items| && ExtractRow(items[i], req) == Ok(Harvest(items, req)[k])
    ensures Harvest(items, req)[k].req == req
    ensures WellFormed(Harvest(items, req)[k].price) && WellFormed(Harvest(items, req)[k].reviews)
    ensures MarketOrigin + "/" <= Harvest(items, req)[k].link
  {
    var rs := Outcomes(items, req);
    var row := Harvest(items, req)[k];
    OksFrom(rs, k);
    var i :| 0 <= i < |rs| && rs[i] == Ok(row);
    assert rs[i] == ExtractRow(items[i], req);
    RowFacts(items[i], req, row);
  }

  /** What a row extracted from a card carries. */
  lemma RowFacts(card: Card, req: string, row: Row)
    requires ExtractRow(card, req) == Ok(row)
    ensures row.req == req && WellFormed(row.price) && WellFormed(row.reviews)
    ensures MarketOrigin + "/" <= row.link
  {
    LinksAreAbsolute(card, req);
  }

  /**
   * Card order is kept: the row of complete card `k` sits after the rows of the
   * complete cards before it.
   */
  lemma HarvestPosition(items: seq<Card>, req: string, k: nat)
    requires k < |items| && Complete(items[k])
    ensures Count(Complete, items[..k]) < |Harvest(items, req)|
    ensures Harvest(items, req)[Count(Complete, items[..k])] == ExtractRow(items[k], req).value
  {
    var os := Outcomes(items, req);
    assert os[k] == ExtractRow(items[k], req);
    OksPosition(os, k);
    OutcomesPrefix(items, req, k);
    OkCountIsCompleteCount(items[..k], req);
  }

  /** A page with no complete card adds nothing. */
  lemma NothingFromIncompleteCards(items: seq<Card>, req: string)
    requires forall i :: 0 <= i < |items| ==> !Complete(items[i])
    ensures Harvest(items, req) == []
  {
    OksNone(Outcomes(items, req));
  }

  /** A page of complete cards adds exactly one row per card. */
  lemma EveryCompleteCardKept(items: seq<Card>, req: string)
    requires forall i :: 0 <= i < |items| ==> Complete(items[i])
    ensures |Harvest(items, req)| == |items|
    ensures forall i :: 0 <= i < |items| ==> Harvest(items, req)[i] == ExtractRow(items[i], req).value
  {
    OksMapAll(card => ExtractRow(card, req), Complete, items);
  }

  /** A relative link gets the origin in front; the bare-link branch is never taken. */
  lemma RelativeLinkPrefixed(href: Option<string>)
    requires IsRelative(href)
    ensures FullLink(href.value) == MarketOrigin + href.value
    ensures FullLink(href.value)[..|MarketOrigin| + 1] == MarketOrigin + "/"
  {
    assert (MarketOrigin + href.value)[..|MarketOrigin| + 1] == MarketOrigin + [href.value[0]];
  }

  /** Every link in the table is the first relative `href` of its card with the origin in front. */
  lemma LinksAreAbsolute(card: Card, req: string)
    requires ExtractRow(card, req).Ok?
    ensures ExtractRow(card, req).value.link == MarketOrigin + FindLink(card.hrefs).value
    ensures ExtractRow(card, req).value.link[..|MarketOrigin| + 1] == MarketOrigin + "/"
  {
    RelativeLinkPrefixed(FindLink(card.hrefs));
  }

  /**
   * A row holds the stripped title and rating texts as they stand, the price and
   * review count passed through `clean_strange_symbols`, and the absolute link.
   */
  lemma RowFields(card: Card, req: string)
    requires ExtractRow(card, req).Ok?
    ensures var row := ExtractRow(card, req).value;
      && row.title == Strip(card.title.value)
      && Some(row.price) == CleanStrangeSymbols(Strip(card.price.value))
      && row.rating == Strip(card.rating.value)
      && Some(row.reviews) == CleanStrangeSymbols(Strip(card.reviews.value))
      && row.link == MarketOrigin + FindLink(card.hrefs).value
  {
    RelativeLinkPrefixed(FindLink(card.hrefs));
  }

  /** The rating text is never converted: whatever it says, the card is kept or skipped alike. */
  lemma RatingNotValidated(card: Card, req: string, other: string)
    requires card.rating.Some?
    ensures ExtractRow(card.(rating := Some(other)), req).Ok? == ExtractRow(card, req).Ok?
  {
  }

  /** An empty title is not a reason to skip a card. */
  lemma EmptyTitleAccepted(card: Card, req: string)
    requires Complete(card)
    ensures ExtractRow(card.(title := Some("")), req).Ok?
    ensures ExtractRow(card.(title := Some("")), req).value.title == ""
  {
    assert Complete(card.(title := Some("")));
    assert LeadingSpaces("") == 0;
  }

  /** When several parts are missing, the skip reason is the first one the code reaches. */
  lemma SkipOrder(card: Card, req: string)
    ensures card.title.None? ==> ExtractRow(card, req) == Err(NoTitle)
    ensures card.title.Some? && card.price.None? ==> ExtractRow(card, req) == Err(NoPrice)
    ensures card.title.Some? && card.price.Some? && CleanStrangeSymbols(Strip(card.price.value)).None?
            ==> ExtractRow(card, req) == Err(BadPrice)
    ensures TitleAndPriceOk(card) && card.rating.None? ==> ExtractRow(card, req) == Err(NoRating)
    ensures TitleAndPriceOk(card) && card.rating.Some? && card.reviews.None? ==> ExtractRow(card, req) == Err(NoReviews)
    ensures TitleAndPriceOk(card) && card.rating.Some? && card.reviews.Some?
            && CleanStrangeSymbols(Strip(card.reviews.value)).None?
            ==> ExtractRow(card, req) == Err(BadReviews)
    ensures TitleAndPriceOk(card) && card.rating.Some? && ReviewsConvert(card)
            && (forall i :: 0 <= i < |card.hrefs| ==> !IsRelative(card.hrefs[i]))
            ==> ExtractRow(card, req) == Err(NoLink)
  {
  }

  /** The title and price steps succeed. */
  predicate TitleAndPriceOk(card: Card)
  {
    card.title.Some? && card.price.Some? && CleanStrangeSymbols(Strip(card.price.value)).Some?
  }

  /** The review-count step succeeds. */
  predicate ReviewsConvert(card: Card)
  {
    card.reviews.Some? && CleanStrangeSymbols(Strip(card.reviews.value)).Some?
  }
}
