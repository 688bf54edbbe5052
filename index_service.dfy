/**
 The service layer: the rebuild of the equal-weighted index over a date
 range, and the day-over-day changes of its composition.
 */
module IndexService {
  import opened Common
  import opened Ranking
  import opened ReturnChain
  import opened Cache
  import opened Database
  import opened CachedReads

  // ---------------------------------------------------------------------------
  // Equal weights

  /** One day's composition built from its ranking: every ranked ticker in rank order, each weighted `1/n`. */
  function EqualWeight(r: seq<Ranked>): (m: seq<Member>)
    ensures |m| == |r|
    ensures forall i :: 0 <= i < |r| ==> m[i].ticker == r[i].ticker
  {
    seq(|r|, i requires 0 <= i < |r| => Member(r[i].ticker, 1.0 / |r| as real))
  }

  /** The composition table the rebuild writes: the equal-weight rows of every ranked day. */
  ghost function EqualWeightComposition(ranking: map<Date, seq<Ranked>>): (c: CompositionTable)
    ensures forall d :: d in c <==> d in ranking
    ensures forall d :: d in c ==> |c[d]| == |ranking[d]| && forall i :: 0 <= i < |c[d]| ==> c[d][i].ticker == ranking[d][i].ticker
  {
    map d | d in ranking :: EqualWeight(ranking[d])
  }

  /** Weights that are all `w` sum to `n * w`. */
  lemma {:induction false} SumOfEqualWeights(m: seq<Member>, w: real)
    requires forall i :: 0 <= i < |m| ==> m[i].weight == w
    ensures SumWeights(m) == |m| as real * w
    decreases |m|
  {
    if m != [] {
      var init := m[..|m| - 1];
      assert forall i :: 0 <= i < |init| ==> init[i] == m[i];
      SumOfEqualWeights(init, w);
    }
  }

  /** Every weight of a day is `1/n`, for `n` the tickers ranked that day, and the weights sum to 1. */
  lemma EqualWeightsSumToOne(r: seq<Ranked>)
    requires r != []
    ensures forall i :: 0 <= i < |r| ==> EqualWeight(r)[i].weight == 1.0 / |r| as real
    ensures SumWeights(EqualWeight(r)) == 1.0
  {
    var n := |r| as real;
    SumOfEqualWeights(EqualWeight(r), 1.0 / n);
    assert n * (1.0 / n) == 1.0;
  }

  /**
   An equal-weighted day whose members all grow by the same factor `1 + g`
   has daily return `g`.
   */
  lemma EqualWeightUniformGrowth(r: seq<Ranked>, prices: PriceTable, d: Date, p: Date, g: real)
    requires r != [] && Priced(EqualWeight(r), prices, d, p) && ClosesNonZero(EqualWeight(r), prices, p)
    requires forall i :: 0 <= i < |r| ==> prices[(d, r[i].ticker)].close == (1.0 + g) * prices[(p, r[i].ticker)].close
    ensures DailyReturn(EqualWeight(r), prices, d, p) == g
  {
    var m := EqualWeight(r);
    assert forall i :: 0 <= i < |m| ==> prices[(d, m[i].ticker)].close == (1.0 + g) * prices[(p, m[i].ticker)].close;
    UniformGrowth(m, prices, d, p, g);
    EqualWeightsSumToOne(r);
  }

  /** Adding one row to a list extends exactly its own date's grouping. */
  lemma OnSnoc<T>(rows: seq<Row<T>>, x: Row<T>)
    ensures forall e :: On(rows + [x], e) == On(rows, e) + (if x.date == e then [x.item] else [])
  {
    forall e
      ensures On(rows + [x], e) == On(rows, e) + (if x.date == e then [x.item] else [])
    {
      OnAppend(rows, [x], e);
      OnSingle(x, e);
    }
  }

  /** The rows hold the equal-weight composition of exactly the days of `done`. */
  ghost predicate Grouped(rows: seq<Row<Member>>, ranking: map<Date, seq<Ranked>>, done: set<Date>)
    requires done <= ranking.Keys
  {
    forall e :: On(rows, e) == if e in done then EqualWeight(ranking[e]) else []
  }

  /** As `Grouped`, with day `d` under way: its first `i` rows are in. */
  ghost predicate GroupedUpTo(rows: seq<Row<Member>>, ranking: map<Date, seq<Ranked>>, done: set<Date>, d: Date, i: nat)
    requires done <= ranking.Keys && d in ranking && d !in done && i <= |ranking[d]|
  {
    && On(rows, d) == EqualWeight(ranking[d])[..i]
    && forall e :: e != d ==> On(rows, e) == if e in done then EqualWeight(ranking[e]) else []
  }

  /** Appending the next row of day `d` moves the weighting loop one ticker on. */
  lemma WeightStep(rows: seq<Row<Member>>, ranking: map<Date, seq<Ranked>>, done: set<Date>, d: Date, i: nat)
    requires done <= ranking.Keys && d in ranking && d !in done && i < |ranking[d]|
    requires GroupedUpTo(rows, ranking, done, d, i)
    ensures GroupedUpTo(rows + [Row(d, EqualWeight(ranking[d])[i])], ranking, done, d, i + 1)
  {
    var x := Row(d, EqualWeight(ranking[d])[i]);
    OnSnoc(rows, x);
    assert EqualWeight(ranking[d])[..i + 1] == EqualWeight(ranking[d])[..i] + [x.item];
  }

  /** The weighting loop's day boundaries: a day starts with no rows and ends with all of them. */
  lemma WeightDay(rows: seq<Row<Member>>, ranking: map<Date, seq<Ranked>>, done: set<Date>, d: Date)
    requires done <= ranking.Keys && d in ranking && d !in done
    ensures Grouped(rows, ranking, done) ==> GroupedUpTo(rows, ranking, done, d, 0)
    ensures GroupedUpTo(rows, ranking, done, d, |ranking[d]|) ==> Grouped(rows, ranking, done + {d})
  {
    assert EqualWeight(ranking[d])[..|ranking[d]|] == EqualWeight(ranking[d]);
  }

  /**
   The weighting loop of `build_index`: for every ranked day and every
   ticker of it, in rank order, a row weighted one over that day's count.
   */
  method EqualWeightRows(ranking: map<Date, seq<Ranked>>) returns (rows: seq<Row<Member>>)
    ensures forall d :: On(rows, d) == if d in ranking then EqualWeight(ranking[d]) else []
  {
    var dates := ranking.Keys;
    ghost var done: set<Date> := {};
    rows := [];
    while dates != {}
      invariant dates <= ranking.Keys && done == ranking.Keys - dates
      invariant Grouped(rows, ranking, done)
      decreases dates
    {
      NonEmptyHasElement(dates);
      var d :| d in dates;
      var day := ranking[d];
      var total := |day|;
      WeightDay(rows, ranking, done, d);
      var i := 0;
      while i < total
        invariant 0 <= i <= total
        invariant GroupedUpTo(rows, ranking, done, d, i)
      {
        var weight := 1.0 / total as real;
        WeightStep(rows, ranking, done, d, i);
        assert Member(day[i].ticker, weight) == EqualWeight(ranking[d])[i];
        rows := rows + [Row(d, Member(day[i].ticker, weight))];
        i := i + 1;
      }
      dates := dates - {d};
      done := done + {d};
    }
  }

  // ---------------------------------------------------------------------------
  // What the rebuild writes

  /**
   The rebuilt composition has a date exactly for each day of `[start, end]`
   with price rows: nothing outside the range survives the rebuild.
   */
  lemma BuiltCompositionDates(prices: PriceTable, start: Date, end: Date, ranking: map<Date, seq<Ranked>>)
    requires IsTopHundred(prices, start, Some(end), ranking)
    ensures NoEmptyDates(EqualWeightComposition(ranking))
    ensures forall d :: d in EqualWeightComposition(ranking) <==> start <= d <= end && TickersOn(prices, d) != {}
  {
    var comp := EqualWeightComposition(ranking);
    forall d | d in comp
      ensures comp[d] != []
    {
      assert IsRanking(prices, d, ranking[d]);
      assert |TickersOn(prices, d)| > 0;
    }
  }

  /**
   A rebuilt day lists the day's ranking, ticker for ticker in rank order:
   `min(100, n)` distinct tickers, the largest caps of the day, each
   weighted `1/count`, weights summing to 1.
   */
  lemma BuiltCompositionRows(prices: PriceTable, start: Date, end: Date, ranking: map<Date, seq<Ranked>>, d: Date)
    requires IsTopHundred(prices, start, Some(end), ranking)
    requires d in EqualWeightComposition(ranking)
    ensures var rows := EqualWeightComposition(ranking)[d];
      && |rows| == Min(IndexSize, |TickersOn(prices, d)|)
      && (forall i :: 0 <= i < |rows| ==> rows[i].ticker == ranking[d][i].ticker)
      && (forall i, j :: 0 <= i < j < |rows| ==> rows[i].ticker != rows[j].ticker)
      && (forall i, t :: 0 <= i < |rows| && t in TickersOn(prices, d) && t !in Selected(ranking[d]) ==>
            prices[(d, t)].marketCap <= prices[(d, rows[i].ticker)].marketCap)
      && (forall i :: 0 <= i < |rows| ==> rows[i].weight == 1.0 / |rows| as real)
      && SumWeights(rows) == 1.0
  {
    var r := ranking[d];
    assert IsRanking(prices, d, r);
    assert |TickersOn(prices, d)| > 0;
    EqualWeightsSumToOne(r);
  }

  /** A rebuilt day with at least 100 priced tickers has exactly 100 rows, so the performance step treats it as a trading day. */
  lemma BuiltDayIsComplete(prices: PriceTable, start: Date, end: Date, ranking: map<Date, seq<Ranked>>, d: Date)
    requires IsTopHundred(prices, start, Some(end), ranking)
    requires start <= d <= end && |TickersOn(prices, d)| >= IndexSize
    ensures |RowsOn(EqualWeightComposition(ranking), d)| == IndexSize
  {
    assert TickersOn(prices, d) != {};
    BuiltCompositionDates(prices, start, end, ranking);
    BuiltCompositionRows(prices, start, end, ranking, d);
  }

  /**
   On the walk, an equal-weighted trading day whose members' closes all grow
   by `1 + g` since its previous trading date records the return `g`,
   compounded onto that date's final cumulative return.
   */
  lemma UniformDayOnWalk(prices: PriceTable, comp: CompositionTable, from: Date, to: Date, e: Date, p: Date,
                         r: seq<Ranked>, g: real, c: real)
    requires RangeDivisorsNonZero(prices, comp, from, to) && from <= e <= to
    requires |r| == IndexSize && RowsOn(comp, e) == EqualWeight(r) && PrevTradingDate(comp, e) == Some(p)
    requires Priced(EqualWeight(r), prices, e, p)
    requires forall i :: 0 <= i < |r| ==> prices[(e, r[i].ticker)].close == (1.0 + g) * prices[(p, r[i].ticker)].close
    requires p in Chain(prices, comp, map[], from, to) && Chain(prices, comp, map[], from, to)[p].cumulative == c
    ensures Record(Chain(prices, comp, map[], from, to), e) == Some(Performance(g, Compound(c, g)))
  {
    PricedDayDivisors(prices, comp, from, to, e, p);
    EqualWeightUniformGrowth(r, prices, e, p, g);
    ChainCompounds(prices, comp, map[], from, to, e, p);
  }

  /**
   Three consecutive trading days, the first of them the first composition
   date, the other two equal-weighted with every member's close growing by
   `1 + g` a day: the walk from an empty table records `(0, 0)`, then
   `(g, g)`, then `(g, (1 + g)(1 + g) - 1)`. With `g = 1%` the cumulative
   return on the third day is 2.01%.
   */
  lemma ThreeDaysOfUniformGrowth(prices: PriceTable, comp: CompositionTable, from: Date, to: Date, d: Date,
                                 r1: seq<Ranked>, r2: seq<Ranked>, g: real)
    requires RangeDivisorsNonZero(prices, comp, from, to) && from <= d && d + 2 <= to
    requires |RowsOn(comp, d)| == IndexSize && forall k :: k in comp ==> d <= k
    requires |r1| == IndexSize && RowsOn(comp, d + 1) == EqualWeight(r1)
    requires |r2| == IndexSize && RowsOn(comp, d + 2) == EqualWeight(r2)
    requires Priced(EqualWeight(r1), prices, d + 1, d) && Priced(EqualWeight(r2), prices, d + 2, d + 1)
    requires forall i :: 0 <= i < |r1| ==> prices[(d + 1, r1[i].ticker)].close == (1.0 + g) * prices[(d, r1[i].ticker)].close
    requires forall i :: 0 <= i < |r2| ==> prices[(d + 2, r2[i].ticker)].close == (1.0 + g) * prices[(d + 1, r2[i].ticker)].close
    ensures var t := Chain(prices, comp, map[], from, to);
      && Record(t, d) == Some(Performance(0.0, 0.0))
      && Record(t, d + 1) == Some(Performance(g, g))
      && Record(t, d + 2) == Some(Performance(g, (1.0 + g) * (1.0 + g) - 1.0))
    ensures g == 0.01 ==> Record(Chain(prices, comp, map[], from, to), d + 2) == Some(Performance(0.01, 0.0201))
  {
    ChainFirstTradingDay(prices, comp, map[], from, to, d);
    assert PrevTradingDate(comp, d + 1) == Some(d);
    UniformDayOnWalk(prices, comp, from, to, d + 1, d, r1, g, 0.0);
    assert PrevTradingDate(comp, d + 2) == Some(d + 1);
    UniformDayOnWalk(prices, comp, from, to, d + 2, d + 1, r2, g, g);
    assert Compound(0.0, g) == g;
    assert Compound(g, g) == (1.0 + g) * (1.0 + g) - 1.0;
    if g == 0.01 {
      assert (1.0 + g) * (1.0 + g) - 1.0 == 0.0201;
    }
  }

  /**
   Whatever answer the ranking gives, the walk over the rebuilt composition
   never divides by a zero close.
   */
  ghost predicate RebuildDivisorsNonZero(prices: PriceTable, start: Date, end: Date) {
    forall idx :: IsTopHundred(prices, start, Some(end), idx) ==>
      RangeDivisorsNonZero(prices, EqualWeightComposition(idx), start, end)
  }

  /**
   `build_index`: ranks `[start, end]`, empties the composition table,
   inserts the equal-weight rows, empties the performance table, recomputes
   the chain over the range, and flushes the cache, in that order.
   */
  method BuildIndex(db: IndexDatabase, slot: ClientSlot, start: Date, end: Date) returns (ghost ranking: map<Date, seq<Ranked>>)
    requires db.Valid() && RebuildDivisorsNonZero(db.price, start, end) && slot.Valid()
    modifies db`composition, db`performance, slot`client, slot.server
    ensures db.Valid() && slot.Valid()
    ensures IsTopHundred(db.price, start, Some(end), ranking)
    ensures db.composition == EqualWeightComposition(ranking)
    ensures db.performance == Chain(db.price, db.composition, map[], start, end)
    ensures old(slot.client) != null ==> slot.client == old(slot.client)
    ensures old(slot.client) == null ==> fresh(slot.client)
    ensures slot.server.entries == WithoutIndexKeys(old(slot.server.entries))
    ensures Coherent(slot.server.entries, db.composition, db.performance)
  {
    var composition := TopHundredByMarketCap(db.price, start, Some(end));
    ranking := composition;
    db.DeleteComposition();
    var rows := EqualWeightRows(composition);
    db.InsertComposition(rows);
    BuiltCompositionDates(db.price, start, end, ranking);
    forall d | d in db.composition
      ensures d in EqualWeightComposition(ranking)
    {
      assert RowsOn(db.composition, d) != [];
    }
    forall d | d in EqualWeightComposition(ranking)
      ensures d in db.composition && db.composition[d] == EqualWeightComposition(ranking)[d]
    {
      assert RowsOn(db.composition, d) != [];
    }
    assert db.composition == EqualWeightComposition(ranking);
    assert RangeDivisorsNonZero(db.price, db.composition, start, end);
    db.DeletePerformance();
    db.BuildIndexPerformance(start, end);
    FlushRedis(slot);
    FlushedIsCoherent(old(slot.server.entries), db.composition, db.performance);
  }

  // ---------------------------------------------------------------------------
  // Composition changes

  /** The tickers added to and removed from the index on one day. */
  datatype Change = Change(added: set<Ticker>, removed: set<Ticker>)

  /** The set of tickers of a composition. */
  function Tickers(rows: seq<Member>): (s: set<Ticker>)
    ensures forall i :: 0 <= i < |rows| ==> rows[i].ticker in s
    ensures forall t :: t in s ==> exists i :: 0 <= i < |rows| && rows[i].ticker == t
  {
    set i | 0 <= i < |rows| :: rows[i].ticker
  }

  /**
   The day-over-day difference: the added and removed tickers are disjoint,
   and each side rebuilds the other; the change is empty exactly when the
   two sets are equal.
   */
  function Diff(current: set<Ticker>, previous: set<Ticker>): (c: Change)
    ensures c.added !! c.removed
    ensures (previous - c.removed) + c.added == current
    ensures (current - c.added) + c.removed == previous
    ensures c.added + c.removed == {} <==> current == previous
  {
    Change(current - previous, previous - current)
  }

  /** A member leaving and one joining show up as one removal and one addition. */
  lemma DiffExample()
    ensures Diff({"AAPL", "MSFT", "AMZN"}, {"AAPL", "MSFT", "GOOG"}) == Change({"AMZN"}, {"GOOG"})
  {
    var c := Diff({"AAPL", "MSFT", "AMZN"}, {"AAPL", "MSFT", "GOOG"});
    assert "AMZN" != "AAPL" && "AMZN" != "MSFT" && "AMZN" != "GOOG";
    assert "GOOG" != "AAPL" && "GOOG" != "MSFT";
    assert c.added == {"AMZN"};
    assert c.removed == {"GOOG"};
  }

  /**
   The change reported for day `d`: none when the day's composition read is
   empty, when the day has no previous composition date, when that date's
   composition read is empty, or when nothing was added or removed.
   */
  ghost function ChangeOn(entries: map<string, Cached>, comp: CompositionTable, d: Date): (r: Option<Change>)
    requires Typed(entries)
    ensures r.Some? ==> r.value.added !! r.value.removed && r.value.added + r.value.removed != {}
    ensures r.Some? ==> CompositionView(entries, comp, d) != []
  {
    var current := CompositionView(entries, comp, d);
    if current == [] then None
    else match PrevTradingDate(comp, d)
      case None => None
      case Some(p) =>
        var previous := CompositionView(entries, comp, p);
        if previous == [] then None
        else
          var c := Diff(Tickers(current), Tickers(previous));
          if c.added + c.removed == {} then None else Some(c)
  }

  /** The changes of every day of `[start, end]` that has one, keyed by date. */
  ghost function Changes(entries: map<string, Cached>, comp: CompositionTable, start: Date, end: Date): map<Date, Change>
    requires Typed(entries)
  {
    map d | start <= d <= end && ChangeOn(entries, comp, d).Some? :: ChangeOn(entries, comp, d).value
  }

  /**
   Against a coherent cache and a composition table without empty dates,
   a day has a change exactly when it has a composition, has a previous
   composition date, and the ticker sets of the two differ; the change is
   their difference. The third skip of the loop never fires.
   */
  lemma ChangesFromTables(entries: map<string, Cached>, comp: CompositionTable, perf: PerformanceTable, start: Date, end: Date, d: Date)
    requires Coherent(entries, comp, perf) && NoEmptyDates(comp)
    ensures Typed(entries)
    ensures d in Changes(entries, comp, start, end) <==>
      && start <= d <= end && d in comp
      && PrevTradingDate(comp, d).Some?
      && Tickers(comp[d]) != Tickers(comp[PrevTradingDate(comp, d).value])
    ensures d in Changes(entries, comp, start, end) ==>
      Changes(entries, comp, start, end)[d] == Diff(Tickers(comp[d]), Tickers(comp[PrevTradingDate(comp, d).value]))
  {
    CoherentViews(entries, comp, perf);
    var prev := PrevTradingDate(comp, d);
    if prev.Some? {
      assert RowsOn(comp, prev.value) == comp[prev.value] != [];
    }
  }

  /** Key spaces that answer every read alike report the same changes. */
  lemma SameViewsSameChange(a: map<string, Cached>, b: map<string, Cached>, comp: CompositionTable, perf: PerformanceTable, d: Date)
    requires Typed(a) && Typed(b) && SameViews(a, b, comp, perf)
    ensures ChangeOn(a, comp, d) == ChangeOn(b, comp, d)
  {
    assert CompositionView(a, comp, d) == CompositionView(b, comp, d);
    var prev := PrevTradingDate(comp, d);
    if prev.Some? {
      assert CompositionView(a, comp, prev.value) == CompositionView(b, comp, prev.value);
    }
  }

  /**
   The key space `base` after the reads of day `d`'s change, as answered
   against `entries`: the day's composition read is stored; when it is
   non-empty and the day has a previous composition date, that date's read
   is stored too.
   */
  ghost function DayWrites(base: map<string, Cached>, entries: map<string, Cached>, comp: CompositionTable, d: Date): map<string, Cached>
    requires Typed(entries)
  {
    var current := CompositionView(entries, comp, d);
    var first := base[CompositionKey(d) := CompositionRows(current)];
    if current == [] then first
    else match PrevTradingDate(comp, d)
      case None => first
      case Some(p) => first[CompositionKey(p) := CompositionRows(CompositionView(entries, comp, p))]
  }

  /** The key space after the change reads of every day of `[start, end]`, ascending. */
  ghost function ChangeWrites(entries: map<string, Cached>, comp: CompositionTable, start: Date, end: Date): map<string, Cached>
    requires Typed(entries)
    decreases Days(start, end)
  {
    if end < start then entries
    else DayWrites(ChangeWrites(entries, comp, start, end - 1), entries, comp, end)
  }

  /** Key spaces that answer alike make the day's reads store the same values. */
  lemma DayWritesSameViews(base: map<string, Cached>, a: map<string, Cached>, b: map<string, Cached>, comp: CompositionTable, perf: PerformanceTable, d: Date)
    requires Typed(a) && Typed(b) && SameViews(a, b, comp, perf)
    ensures DayWrites(base, a, comp, d) == DayWrites(base, b, comp, d)
  {
    assert CompositionView(a, comp, d) == CompositionView(b, comp, d);
    var prev := PrevTradingDate(comp, d);
    if prev.Some? {
      assert CompositionView(a, comp, prev.value) == CompositionView(b, comp, prev.value);
    }
  }

  /**
   The day's reads store only composition keys: the day's own key, and at
   most one more, each holding the answer its read gave.
   */
  lemma DayWritesKeys(base: map<string, Cached>, entries: map<string, Cached>, comp: CompositionTable, d: Date)
    requires Typed(entries)
    ensures var w := DayWrites(base, entries, comp, d);
      && CompositionKey(d) in w && base.Keys <= w.Keys
      && w[CompositionKey(d)] == CompositionRows(CompositionView(entries, comp, d))
      && (forall e :: e != d && PrevTradingDate(comp, d) != Some(e) ==>
            (CompositionKey(e) in w <==> CompositionKey(e) in base)
            && (CompositionKey(e) in base ==> w[CompositionKey(e)] == base[CompositionKey(e)]))
      && (forall e :: CompositionKey(e) in w ==>
            w[CompositionKey(e)] == CompositionRows(CompositionView(entries, comp, e))
            || (CompositionKey(e) in base && w[CompositionKey(e)] == base[CompositionKey(e)]))
      && (forall k :: (forall e :: k != CompositionKey(e)) ==>
            (k in w <==> k in base) && (k in base ==> w[k] == base[k]))
  {
    var w := DayWrites(base, entries, comp, d);
    var prev := PrevTradingDate(comp, d);
    forall e | CompositionKey(e) in w
      ensures w[CompositionKey(e)] == CompositionRows(CompositionView(entries, comp, e))
        || (CompositionKey(e) in base && w[CompositionKey(e)] == base[CompositionKey(e)])
    {
      ReaderKeysDetermine(d, e);
      if prev.Some? {
        ReaderKeysDetermine(prev.value, e);
      }
    }
    if prev.Some? {
      // the previous date lies before `d`, so its key is not `d`'s
      ReaderKeysDetermine(prev.value, d);
    }
    forall e | e != d && prev != Some(e)
      ensures CompositionKey(e) in w <==> CompositionKey(e) in base
      ensures CompositionKey(e) in base ==> w[CompositionKey(e)] == base[CompositionKey(e)]
    {
      ReaderKeysDetermine(d, e);
      if prev.Some? {
        ReaderKeysDetermine(prev.value, e);
      }
    }
  }

  /**
   After the change reads of `[start, end]` every day of the range has its
   composition key; every composition key holds what its read answers
   against the original key space; every other key is as it was.
   */
  lemma {:induction false} ChangeWritesKeys(entries: map<string, Cached>, comp: CompositionTable, start: Date, end: Date)
    requires Typed(entries)
    ensures var w := ChangeWrites(entries, comp, start, end);
      && (forall d :: start <= d <= end ==> CompositionKey(d) in w)
      && (forall e :: CompositionKey(e) in w ==> w[CompositionKey(e)] == CompositionRows(CompositionView(entries, comp, e)))
      && (forall k :: (forall e :: k != CompositionKey(e)) ==>
            (k in w <==> k in entries) && (k in entries ==> w[k] == entries[k]))
    decreases Days(start, end)
  {
    var w := ChangeWrites(entries, comp, start, end);
    if end < start {
      forall e | CompositionKey(e) in w
        ensures w[CompositionKey(e)] == CompositionRows(CompositionView(entries, comp, e))
      {
        assert entries[CompositionKey(e)].CompositionRows?;
      }
    } else {
      var w0 := ChangeWrites(entries, comp, start, end - 1);
      ChangeWritesKeys(entries, comp, start, end - 1);
      DayWritesKeys(w0, entries, comp, end);
      assert w == DayWrites(w0, entries, comp, end);
      forall d | start <= d <= end
        ensures CompositionKey(d) in w
      {
        if d < end {
          assert CompositionKey(d) in w0;
        }
      }
      forall e | CompositionKey(e) in w
        ensures w[CompositionKey(e)] == CompositionRows(CompositionView(entries, comp, e))
      {
        if CompositionKey(e) in w0 {
          assert w0[CompositionKey(e)] == CompositionRows(CompositionView(entries, comp, e));
        }
      }
      forall k | forall e :: k != CompositionKey(e)
        ensures (k in w <==> k in entries) && (k in entries ==> w[k] == entries[k])
      {
        assert k in w <==> k in w0;
      }
    }
  }

  /** The body of the loop for one day: the change of `d`, read through the memoized composition reads. */
  method DayChange(db: IndexDatabase, slot: ClientSlot, d: Date) returns (change: Option<Change>)
    requires db.Valid() && slot.Valid() && Typed(slot.server.entries)
    modifies slot`client, slot.server
    ensures slot.Valid() && Typed(slot.server.entries)
    ensures old(slot.client) != null ==> slot.client == old(slot.client)
    ensures old(slot.client) == null ==> fresh(slot.client)
    ensures change == ChangeOn(old(slot.server.entries), db.composition, d)
    ensures slot.server.entries == DayWrites(old(slot.server.entries), old(slot.server.entries), db.composition, d)
    ensures SameViews(slot.server.entries, old(slot.server.entries), db.composition, db.performance)
    ensures Coherent(old(slot.server.entries), db.composition, db.performance) ==>
      Coherent(slot.server.entries, db.composition, db.performance)
  {
    ghost var before := slot.server.entries;
    change := None;
    var currentRows := GetIndexComposition(db, slot, d);
    CompositionReadKeepsViews(before, db.composition, db.performance, d);
    if currentRows == [] {
      return;
    }
    var previousDate := db.GetPrevTradingDate(d);
    if previousDate.None? {
      return;
    }
    ghost var mid := slot.server.entries;
    var previousRows := GetIndexComposition(db, slot, previousDate.value);
    CompositionReadKeepsViews(mid, db.composition, db.performance, previousDate.value);
    SameViewsTransitive(slot.server.entries, mid, before, db.composition, db.performance);
    assert previousRows == CompositionView(before, db.composition, previousDate.value);
    if previousRows == [] {
      return;
    }
    var added := Tickers(currentRows) - Tickers(previousRows);
    var removed := Tickers(previousRows) - Tickers(currentRows);
    if added + removed != {} {
      change := Some(Change(added, removed));
    }
  }

  /** `changes` holds the changes of the days of `[start, current)`. */
  ghost predicate ChangesBefore(changes: map<Date, Change>, entries: map<string, Cached>, comp: CompositionTable, start: Date, current: Date)
    requires Typed(entries)
  {
    && (forall d :: d in changes <==> start <= d < current && ChangeOn(entries, comp, d).Some?)
    && (forall d :: d in changes ==> changes[d] == ChangeOn(entries, comp, d).value)
  }

  /** Recording the change of day `current`, if any, extends the changes by one day. */
  lemma ChangesStep(changes: map<Date, Change>, entries: map<string, Cached>, comp: CompositionTable, start: Date, current: Date)
    requires Typed(entries) && start <= current && ChangesBefore(changes, entries, comp, start, current)
    ensures var c := ChangeOn(entries, comp, current);
      ChangesBefore(if c.Some? then changes[current := c.value] else changes, entries, comp, start, current + 1)
  {
  }

  /** Once every day of `[start, end]` is visited, the changes are complete. */
  lemma ChangesDone(changes: map<Date, Change>, entries: map<string, Cached>, comp: CompositionTable, start: Date, end: Date, current: Date)
    requires Typed(entries) && ChangesBefore(changes, entries, comp, start, current)
    requires end < current && (current <= end + 1 || current == start)
    ensures changes == Changes(entries, comp, start, end)
  {
    var all := Changes(entries, comp, start, end);
    assert forall d :: d in changes <==> d in all;
  }

  /**
   `get_composition_changes`: walks the calendar days of `[start, end]`
   ascending and records the non-empty day-over-day differences.
   */
  method GetCompositionChanges(db: IndexDatabase, slot: ClientSlot, start: Date, end: Date) returns (changes: map<Date, Change>)
    requires db.Valid() && slot.Valid() && Typed(slot.server.entries)
    modifies slot`client, slot.server
    ensures slot.Valid() && Typed(slot.server.entries)
    ensures old(slot.client) != null ==> slot.client == old(slot.client)
    ensures old(slot.client) == null ==> slot.client == null || fresh(slot.client)
    ensures changes == Changes(old(slot.server.entries), db.composition, start, end)
    ensures slot.server.entries == ChangeWrites(old(slot.server.entries), db.composition, start, end)
    ensures SameViews(slot.server.entries, old(slot.server.entries), db.composition, db.performance)
    ensures Coherent(old(slot.server.entries), db.composition, db.performance) ==>
      Coherent(slot.server.entries, db.composition, db.performance)
  {
    ghost var before := slot.server.entries;
    ghost var comp, perf := db.composition, db.performance;
    changes := map[];
    var current := start;
    while current <= end
      invariant start <= current && (current <= end + 1 || current == start)
      invariant slot.Valid() && Typed(slot.server.entries)
      invariant SameViews(slot.server.entries, before, comp, perf)
      invariant Coherent(before, comp, perf) ==> Coherent(slot.server.entries, comp, perf)
      invariant old(slot.client) != null ==> slot.client == old(slot.client)
      invariant old(slot.client) == null ==> slot.client == null || fresh(slot.client)
      invariant ChangesBefore(changes, before, comp, start, current)
      invariant slot.server.entries == ChangeWrites(before, comp, start, current - 1)
      decreases end - current
    {
      ghost var now := slot.server.entries;
      var change := DayChange(db, slot, current);
      SameViewsSameChange(now, before, comp, perf, current);
      DayWritesSameViews(now, now, before, comp, perf, current);
      SameViewsTransitive(slot.server.entries, now, before, comp, perf);
      ChangesStep(changes, before, comp, start, current);
      if change.Some? {
        changes := changes[current := change.value];
      }
      current := current + 1;
    }
    ChangesDone(changes, before, db.composition, start, end, current);
  }
}
