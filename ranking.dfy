/**
 The ranking engine: for every day of a range that has price rows, the up to
 100 tickers with the largest market cap, largest first.

 The store's window query numbers each day's rows by market cap descending
 with no tie-break, so among equal caps any order is a correct answer; the
 model states exactly that and picks one answer without a rule of its own.
 */
module Ranking {
  import opened Common

  /** A ranked ticker with the market cap it was ranked by. */
  datatype Ranked = Ranked(ticker: Ticker, marketCap: real)

  /** The tickers that have a price row on day `d`. */
  function TickersOn(prices: PriceTable, d: Date): (s: set<Ticker>)
    ensures forall t :: t in s <==> (d, t) in prices
  {
    set k | k in prices && k.0 == d :: k.1
  }

  /** The tickers a ranking lists. */
  function Selected(r: seq<Ranked>): (s: set<Ticker>)
    ensures forall i :: 0 <= i < |r| ==> r[i].ticker in s
  {
    set i | 0 <= i < |r| :: r[i].ticker
  }

  /** The caps a ranking lists never increase. */
  ghost predicate NonIncreasing(r: seq<Ranked>) {
    forall i, j :: 0 <= i < j < |r| ==> r[j].marketCap <= r[i].marketCap
  }

  /** Every listed ticker is priced on `d`, listed with its own cap, and listed once. */
  ghost predicate Listed(prices: PriceTable, d: Date, r: seq<Ranked>) {
    && (forall i :: 0 <= i < |r| ==> (d, r[i].ticker) in prices && r[i].marketCap == prices[(d, r[i].ticker)].marketCap)
    && (forall i, j :: 0 <= i < j < |r| ==> r[i].ticker != r[j].ticker)
  }

  /**
   `r` is a correct answer of the ranking for day `d`: as many tickers as
   the day has, at most 100, each listed once with its cap, caps
   non-increasing, and no ticker left out has a larger cap than one listed.
   */
  ghost predicate IsRanking(prices: PriceTable, d: Date, r: seq<Ranked>) {
    && |r| == Min(IndexSize, |TickersOn(prices, d)|)
    && Listed(prices, d, r)
    && NonIncreasing(r)
    && forall i, t :: 0 <= i < |r| && t in TickersOn(prices, d) - Selected(r) ==>
         prices[(d, t)].marketCap <= r[i].marketCap
  }

  /**
   A correct answer of the whole range query: one entry per day of
   `[start, last]` that has price rows, each a correct ranking of that day,
   where `last` is `end` when given and `start` otherwise.
   */
  ghost predicate IsTopHundred(prices: PriceTable, start: Date, end: Option<Date>, idx: map<Date, seq<Ranked>>) {
    var last := end.GetOr(start);
    && (forall d :: d in idx <==> start <= d <= last && TickersOn(prices, d) != {})
    && (forall d :: d in idx ==> IsRanking(prices, d, idx[d]))
  }

  /** A ticker of `s` with the largest cap on day `d`. */
  method MaxCapTicker(prices: PriceTable, d: Date, s: set<Ticker>) returns (t: Ticker)
    requires s != {}
    requires forall u :: u in s ==> (d, u) in prices
    ensures t in s
    ensures forall u :: u in s ==> prices[(d, u)].marketCap <= prices[(d, t)].marketCap
  {
    t :| t in s;
    var rest := s - {t};
    while rest != {}
      invariant t in s && rest <= s
      invariant forall u :: u in s - rest ==> prices[(d, u)].marketCap <= prices[(d, t)].marketCap
      decreases rest
    {
      var u :| u in rest;
      if prices[(d, t)].marketCap < prices[(d, u)].marketCap {
        t := u;
      }
      rest := rest - {u};
    }
  }

  /**
   The state of the ranking loop for day `d`: `r` lists the largest caps
   taken so far, `remaining` the tickers not yet taken, none of them above
   any listed cap.
   */
  ghost predicate RankedSoFar(prices: PriceTable, d: Date, r: seq<Ranked>, remaining: set<Ticker>) {
    && remaining <= TickersOn(prices, d)
    && |r| + |remaining| == |TickersOn(prices, d)|
    && Selected(r) + remaining == TickersOn(prices, d)
    && (forall i :: 0 <= i < |r| ==> r[i].ticker !in remaining)
    && Listed(prices, d, r)
    && NonIncreasing(r)
    && (forall i, u :: 0 <= i < |r| && u in remaining ==> prices[(d, u)].marketCap <= r[i].marketCap)
  }

  /** Taking a largest remaining cap keeps the loop state. */
  lemma RankingStep(prices: PriceTable, d: Date, r: seq<Ranked>, remaining: set<Ticker>, t: Ticker)
    requires RankedSoFar(prices, d, r, remaining)
    requires t in remaining
    requires forall u :: u in remaining ==> prices[(d, u)].marketCap <= prices[(d, t)].marketCap
    ensures RankedSoFar(prices, d, r + [Ranked(t, prices[(d, t)].marketCap)], remaining - {t})
  {
    var r' := r + [Ranked(t, prices[(d, t)].marketCap)];
    StepTakes(r, remaining, Ranked(t, prices[(d, t)].marketCap));
    StepOrders(prices, d, r, remaining, t);
    assert |remaining - {t}| == |remaining| - 1;
  }

  /** The taken ticker moves from `remaining` to the listed set. */
  lemma StepTakes(r: seq<Ranked>, remaining: set<Ticker>, x: Ranked)
    requires forall i :: 0 <= i < |r| ==> r[i].ticker !in remaining
    requires x.ticker in remaining
    ensures Selected(r + [x]) == Selected(r) + {x.ticker}
    ensures forall i :: 0 <= i < |r| + 1 ==> (r + [x])[i].ticker !in remaining - {x.ticker}
  {
    assert forall i :: 0 <= i < |r| ==> (r + [x])[i] == r[i];
    forall y | y in Selected(r + [x])
      ensures y in Selected(r) + {x.ticker}
    {
      var i :| 0 <= i < |r| + 1 && (r + [x])[i].ticker == y;
      if i < |r| {
        assert r[i].ticker == y;
      }
    }
    forall y | y in Selected(r) + {x.ticker}
      ensures y in Selected(r + [x])
    {
      if y == x.ticker {
        assert (r + [x])[|r|].ticker == y;
      } else {
        var i :| 0 <= i < |r| && r[i].ticker == y;
        assert (r + [x])[i].ticker == y;
      }
    }
  }

  /** The taken ticker has its own cap, differs from every listed one, and is not above any. */
  lemma StepOrders(prices: PriceTable, d: Date, r: seq<Ranked>, remaining: set<Ticker>, t: Ticker)
    requires forall u :: u in remaining ==> (d, u) in prices
    requires Listed(prices, d, r) && NonIncreasing(r)
    requires forall i :: 0 <= i < |r| ==> r[i].ticker !in remaining
    requires forall i, u :: 0 <= i < |r| && u in remaining ==> prices[(d, u)].marketCap <= r[i].marketCap
    requires t in remaining && (d, t) in prices
    requires forall u :: u in remaining ==> prices[(d, u)].marketCap <= prices[(d, t)].marketCap
    ensures Listed(prices, d, r + [Ranked(t, prices[(d, t)].marketCap)])
    ensures NonIncreasing(r + [Ranked(t, prices[(d, t)].marketCap)])
    ensures forall i, u :: 0 <= i < |r| + 1 && u in remaining - {t} ==>
      prices[(d, u)].marketCap <= (r + [Ranked(t, prices[(d, t)].marketCap)])[i].marketCap
  {
    var r' := r + [Ranked(t, prices[(d, t)].marketCap)];
    assert forall i :: 0 <= i < |r| ==> r'[i] == r[i];
  }

  /** The loop's exit turns its state into a correct ranking. */
  lemma RankingDone(prices: PriceTable, d: Date, r: seq<Ranked>, remaining: set<Ticker>)
    requires RankedSoFar(prices, d, r, remaining)
    requires |r| <= IndexSize
    requires |r| == IndexSize || remaining == {}
    ensures IsRanking(prices, d, r)
  {
    assert TickersOn(prices, d) - Selected(r) <= remaining;
  }

  /** The ranking of one day: repeatedly take a largest remaining cap, up to 100 times. */
  method RankDay(prices: PriceTable, d: Date) returns (r: seq<Ranked>)
    ensures IsRanking(prices, d, r)
  {
    var remaining := TickersOn(prices, d);
    r := [];
    while |r| < IndexSize && remaining != {}
      invariant |r| <= IndexSize
      invariant RankedSoFar(prices, d, r, remaining)
      decreases remaining
    {
      var t := MaxCapTicker(prices, d, remaining);
      RankingStep(prices, d, r, remaining, t);
      r := r + [Ranked(t, prices[(d, t)].marketCap)];
      remaining := remaining - {t};
    }
    RankingDone(prices, d, r, remaining);
  }

  /** The rows of the window query for the days of `[start, d)`, days ascending. */
  ghost predicate RowsBefore(prices: PriceTable, start: Date, d: Date, rows: seq<Row<Ranked>>) {
    && (forall i :: 0 <= i < |rows| ==> start <= rows[i].date < d)
    && (forall i, j :: 0 <= i < j < |rows| ==> rows[i].date <= rows[j].date)
    && (forall e :: start <= e < d && TickersOn(prices, e) != {} ==> IsRanking(prices, e, On(rows, e)))
    && (forall e :: !(start <= e < d && TickersOn(prices, e) != {}) ==> On(rows, e) == [])
  }

  /** Appending day `d`'s rows after rows of earlier days keeps the rows in range and ascending. */
  lemma RowsStepDates(start: Date, d: Date, rows: seq<Row<Ranked>>, r: seq<Ranked>)
    requires forall i :: 0 <= i < |rows| ==> start <= rows[i].date < d
    requires forall i, j :: 0 <= i < j < |rows| ==> rows[i].date <= rows[j].date
    requires start <= d
    ensures var rows' := rows + seq(|r|, i requires 0 <= i < |r| => Row(d, r[i]));
      && (forall i :: 0 <= i < |rows'| ==> start <= rows'[i].date < d + 1)
      && (forall i, j :: 0 <= i < j < |rows'| ==> rows'[i].date <= rows'[j].date)
  {
    var rows' := rows + seq(|r|, i requires 0 <= i < |r| => Row(d, r[i]));
    assert forall i :: |rows| <= i < |rows'| ==> rows'[i].date == d;
    assert forall i :: 0 <= i < |rows| ==> rows'[i] == rows[i];
  }

  /** Appending day `d`'s ranking (or nothing, for a day without prices) extends the rows by one day. */
  lemma RowsStep(prices: PriceTable, start: Date, d: Date, rows: seq<Row<Ranked>>, r: seq<Ranked>)
    requires start <= d
    requires RowsBefore(prices, start, d, rows)
    requires TickersOn(prices, d) != {} ==> IsRanking(prices, d, r)
    requires TickersOn(prices, d) == {} ==> r == []
    ensures RowsBefore(prices, start, d + 1, rows + seq(|r|, i requires 0 <= i < |r| => Row(d, r[i])))
  {
    assert On(rows, d) == [];
    AppendDay(rows, r, d);
    RowsStepDates(start, d, rows, r);
    var rows' := rows + seq(|r|, i requires 0 <= i < |r| => Row(d, r[i]));
    forall e | start <= e < d + 1 && TickersOn(prices, e) != {}
      ensures IsRanking(prices, e, On(rows', e))
    {
      if e != d {
        assert On(rows', e) == On(rows, e);
      }
    }
    forall e | !(start <= e < d + 1 && TickersOn(prices, e) != {})
      ensures On(rows', e) == []
    {
      if e != d {
        assert On(rows', e) == On(rows, e);
      }
    }
  }

  /**
   The window query's result set: for each day of `[start, last]` with price
   rows, that day's ranking as dated rows, days ascending.
   */
  method RankedRows(prices: PriceTable, start: Date, last: Date) returns (rows: seq<Row<Ranked>>)
    ensures forall i, j :: 0 <= i < j < |rows| ==> rows[i].date <= rows[j].date
    ensures forall d :: start <= d <= last && TickersOn(prices, d) != {} ==> IsRanking(prices, d, On(rows, d))
    ensures forall d :: !(start <= d <= last && TickersOn(prices, d) != {}) ==> On(rows, d) == []
  {
    rows := [];
    var d := start;
    while d <= last
      invariant start <= d && (d <= last + 1 || d == start)
      invariant RowsBefore(prices, start, d, rows)
      decreases last - d
    {
      var r := [];
      if TickersOn(prices, d) != {} {
        r := RankDay(prices, d);
      }
      RowsStep(prices, start, d, rows, r);
      rows := rows + seq(|r|, i requires 0 <= i < |r| => Row(d, r[i]));
      d := d + 1;
    }
  }

  /** Appending day `d`'s rows sets what `d` groups to and leaves every other day alone. */
  lemma AppendDay(rows: seq<Row<Ranked>>, r: seq<Ranked>, d: Date)
    requires On(rows, d) == []
    ensures On(rows + seq(|r|, i requires 0 <= i < |r| => Row(d, r[i])), d) == r
    ensures forall e :: e != d ==> On(rows + seq(|r|, i requires 0 <= i < |r| => Row(d, r[i])), e) == On(rows, e)
  {
    var dayRows := seq(|r|, i requires 0 <= i < |r| => Row(d, r[i]));
    forall e
      ensures On(rows + dayRows, e) == On(rows, e) + (if e == d then r else [])
    {
      OnAppend(rows, dayRows, e);
      OnOfDay(r, d, e);
    }
    assert [] + r == r;
    assert forall e :: On(rows, e) + [] == On(rows, e);
  }

  /** Rows all dated `d` give back their items on `d` and nothing elsewhere. */
  lemma {:induction false} OnOfDay(r: seq<Ranked>, d: Date, e: Date)
    ensures On(seq(|r|, i requires 0 <= i < |r| => Row(d, r[i])), e) == if e == d then r else []
    decreases |r|
  {
    var rows := seq(|r|, i requires 0 <= i < |r| => Row(d, r[i]));
    if r != [] {
      var r' := r[..|r| - 1];
      assert rows[..|rows| - 1] == seq(|r'|, i requires 0 <= i < |r'| => Row(d, r'[i]));
      OnOfDay(r', d, e);
      assert r == r' + [r[|r| - 1]];
    }
  }

  /**
   `get_top_hundred_tickers_by_market_cap`: runs the ranking query over
   `[start, end]` (`end` defaults to `start`) and groups its rows per day,
   keeping the query's order within each day.
   */
  method TopHundredByMarketCap(prices: PriceTable, start: Date, end: Option<Date>) returns (idx: map<Date, seq<Ranked>>)
    ensures IsTopHundred(prices, start, end, idx)
  {
    var last := end.GetOr(start);
    var rows := RankedRows(prices, start, last);
    idx := map[];
    var i := 0;
    while i < |rows|
      invariant 0 <= i <= |rows|
      invariant forall d :: d in idx <==> On(rows[..i], d) != []
      invariant forall d :: d in idx ==> idx[d] == On(rows[..i], d)
    {
      var row := rows[i];
      var soFar := if row.date in idx then idx[row.date] else [];
      idx := idx[row.date := soFar + [row.item]];
      forall d
        ensures On(rows[..i + 1], d) == On(rows[..i], d) + (if d == row.date then [row.item] else [])
      {
        assert rows[..i + 1] == rows[..i] + [row];
        OnAppend(rows[..i], [row], d);
        OnSingle(row, d);
      }
      i := i + 1;
    }
    assert rows[..i] == rows;
    forall d | start <= d <= last && TickersOn(prices, d) != {}
      ensures d in idx
    {
      var r := On(rows, d);
      assert IsRanking(prices, d, r);
      assert |TickersOn(prices, d)| > 0;
    }
  }
}
