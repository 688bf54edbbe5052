/**
 The return chain, as functions of the tables: what one day's performance
 step does to the performance table, and what the walk over a range of
 calendar days does. The imperative store in module Database is proved to
 implement these; the lemmas here state what the chain promises.
 */
module ReturnChain {
  import opened Common

  type CompositionTable = map<Date, seq<Member>>

  type PerformanceTable = map<Date, Performance>

  /** The composition rows of day `d` (none when the day has no composition). */
  function RowsOn(comp: CompositionTable, d: Date): seq<Member> {
    if d in comp then comp[d] else []
  }

  /** The performance record of day `d`, if any. */
  function Record(perf: PerformanceTable, d: Date): Option<Performance> {
    if d in perf then Some(perf[d]) else None
  }

  /** A date is present in the composition table only through at least one row. */
  ghost predicate NoEmptyDates(comp: CompositionTable) {
    forall d :: d in comp ==> comp[d] != []
  }

  /** The largest element of a non-empty finite set. */
  ghost function MaxOf(s: set<int>): (m: int)
    requires s != {}
    ensures m in s && forall x :: x in s ==> x <= m
    decreases |s|
  {
    NonEmptyHasElement(s);
    var x :| x in s;
    if s == {x} then
      assert forall y :: y in s ==> y == x;
      x
    else
      var rest := MaxOf(s - {x});
      assert forall y :: y in s ==> y == x || y in s - {x};
      if rest < x then x else rest
  }

  /** A non-empty set has an element, so that choosing one is justified. */
  lemma NonEmptyHasElement(s: set<int>)
    requires s != {}
    ensures exists y :: y in s
  {
    if forall y :: y !in s {
      assert false;
    }
  }

  /**
   The previous trading date of `d`: the latest date before `d` that has
   any composition row (whatever their number), or none.
   */
  ghost function PrevTradingDate(comp: CompositionTable, d: Date): (r: Option<Date>)
    ensures r.None? <==> forall k :: k in comp ==> d <= k
    ensures r.Some? ==> r.value in comp && r.value < d
    ensures r.Some? ==> forall k :: k in comp && k < d ==> k <= r.value
  {
    var below := set k | k in comp && k < d;
    assert forall k :: k in below <==> k in comp && k < d;
    if below == {} then None else Some(MaxOf(below))
  }

  /** Every member has a close price on both `d` and `p`. */
  ghost predicate Priced(members: seq<Member>, prices: PriceTable, d: Date, p: Date) {
    forall i :: 0 <= i < |members| ==> (d, members[i].ticker) in prices && (p, members[i].ticker) in prices
  }

  /** Every member's close on `p`, where there is one, is non-zero. */
  ghost predicate ClosesNonZero(members: seq<Member>, prices: PriceTable, p: Date) {
    forall i :: 0 <= i < |members| && (p, members[i].ticker) in prices ==> prices[(p, members[i].ticker)].close != 0.0
  }

  /**
   Every close the summing loop divides by is non-zero. The loop divides by
   member `i`'s close on `p` exactly when members `0..i` all have both
   closes, since it stops at the first member that lacks one.
   */
  ghost predicate DivisorsNonZero(members: seq<Member>, prices: PriceTable, d: Date, p: Date) {
    forall i :: 0 <= i < |members| && Priced(members[..i + 1], prices, d, p) ==>
      (p, members[i].ticker) in prices && prices[(p, members[i].ticker)].close != 0.0
  }

  /**
   The step for day `d` never divides by zero: when the day has exactly 100
   rows and a previous trading date, the divisors of its summing loop are
   non-zero. A zero close anywhere else is harmless.
   */
  ghost predicate DayDivisorsNonZero(prices: PriceTable, comp: CompositionTable, d: Date) {
    var members := RowsOn(comp, d);
    var prev := PrevTradingDate(comp, d);
    |members| == IndexSize && prev.Some? ==> DivisorsNonZero(members, prices, d, prev.value)
  }

  /** No step of the walk over `[from, to]` divides by zero. */
  ghost predicate RangeDivisorsNonZero(prices: PriceTable, comp: CompositionTable, from: Date, to: Date) {
    forall d :: from <= d <= to ==> DayDivisorsNonZero(prices, comp, d)
  }

  /**
   One turn of the summing loop: a member priced on both days extends the
   priced prefix, its divisor is non-zero, and its contribution is added.
   */
  lemma SumStep(members: seq<Member>, prices: PriceTable, d: Date, p: Date, i: nat)
    requires i < |members| && DivisorsNonZero(members, prices, d, p)
    requires Priced(members[..i], prices, d, p) && ClosesNonZero(members[..i], prices, p)
    requires (d, members[i].ticker) in prices && (p, members[i].ticker) in prices
    ensures prices[(p, members[i].ticker)].close != 0.0
    ensures Priced(members[..i + 1], prices, d, p) && ClosesNonZero(members[..i + 1], prices, p)
    ensures DailyReturn(members[..i + 1], prices, d, p) ==
      DailyReturn(members[..i], prices, d, p) + Contribution(members[i], prices, d, p)
  {
    var next := members[..i + 1];
    assert next[..i] == members[..i];
    assert Priced(next, prices, d, p);
  }

  /** Once every member is priced, the loop divides by every member's close on `p`. */
  lemma PricedDivisorsNonZero(members: seq<Member>, prices: PriceTable, d: Date, p: Date)
    requires Priced(members, prices, d, p) && DivisorsNonZero(members, prices, d, p)
    ensures ClosesNonZero(members, prices, p)
  {
    forall i | 0 <= i < |members|
      ensures prices[(p, members[i].ticker)].close != 0.0
    {
      assert Priced(members[..i + 1], prices, d, p);
    }
  }

  /** One member's weighted simple return from `p` to `d`. */
  ghost function Contribution(m: Member, prices: PriceTable, d: Date, p: Date): real
    requires (d, m.ticker) in prices && (p, m.ticker) in prices
    requires prices[(p, m.ticker)].close != 0.0
  {
    m.weight * (prices[(d, m.ticker)].close / prices[(p, m.ticker)].close - 1.0)
  }

  /** The day's return: the weighted sum of the members' simple returns from `p` to `d`. */
  ghost function DailyReturn(members: seq<Member>, prices: PriceTable, d: Date, p: Date): (r: real)
    requires Priced(members, prices, d, p) && ClosesNonZero(members, prices, p)
    ensures (forall i :: 0 <= i < |members| ==> prices[(d, members[i].ticker)].close == prices[(p, members[i].ticker)].close)
      ==> r == 0.0
    decreases |members|
  {
    if members == [] then 0.0
    else
      var last := members[|members| - 1];
      DailyReturn(members[..|members| - 1], prices, d, p) + Contribution(last, prices, d, p)
  }

  /**
   Geometric compounding of a cumulative return with one more day's return:
   a flat day keeps the cumulative return, and compounding onto a flat
   history gives the day's return.
   */
  function Compound(cumulative: real, daily: real): (r: real)
    ensures daily == 0.0 ==> r == cumulative
    ensures cumulative == 0.0 ==> r == daily
  {
    (1.0 + cumulative) * (1.0 + daily) - 1.0
  }

  /** What the performance step decides for one day. */
  datatype DayOutcome =
    | NoComposition                // the day's composition does not have exactly 100 rows
    | FirstTradingDay              // no earlier date has composition rows
    | IncompleteData               // some member lacks a close on the day or its predecessor
    | MissingPredecessor           // the previous trading date has no performance record
    | Computed(record: Performance)

  /** The outcome of the performance step for day `d` against the current tables. */
  ghost function Outcome(prices: PriceTable, comp: CompositionTable, perf: PerformanceTable, d: Date): (r: DayOutcome)
    requires DayDivisorsNonZero(prices, comp, d)
    ensures r.NoComposition? <==> |RowsOn(comp, d)| != IndexSize
    ensures r.FirstTradingDay? <==> |RowsOn(comp, d)| == IndexSize && forall k :: k in comp ==> d <= k
    ensures r.IncompleteData? ==>
      PrevTradingDate(comp, d).Some? && !Priced(RowsOn(comp, d), prices, d, PrevTradingDate(comp, d).value)
    ensures r.MissingPredecessor? ==>
      PrevTradingDate(comp, d).Some? && PrevTradingDate(comp, d).value !in perf
    ensures r.Computed? ==>
      var p := PrevTradingDate(comp, d);
      && p.Some? && p.value in perf && Priced(RowsOn(comp, d), prices, d, p.value)
      && 1.0 + r.record.cumulative == (1.0 + perf[p.value].cumulative) * (1.0 + r.record.daily)
  {
    var members := RowsOn(comp, d);
    if |members| != IndexSize then NoComposition
    else match PrevTradingDate(comp, d)
      case None => FirstTradingDay
      case Some(p) =>
        if !Priced(members, prices, d, p) then IncompleteData
        else if p !in perf then MissingPredecessor
        else
          PricedDivisorsNonZero(members, prices, d, p);
          var r := DailyReturn(members, prices, d, p);
          Computed(Performance(r, Compound(perf[p].cumulative, r)))
  }

  /**
   The performance table after the step for day `d`: a first trading day
   gets `(0, 0)` unless it already has a record, a computed day has its
   record overwritten, and every other outcome writes nothing.
   */
  ghost function DayStep(prices: PriceTable, comp: CompositionTable, perf: PerformanceTable, d: Date): (r: PerformanceTable)
    requires DayDivisorsNonZero(prices, comp, d)
    ensures forall e :: e != d ==> Record(r, e) == Record(perf, e)
    ensures d in perf ==> d in r
  {
    match Outcome(prices, comp, perf, d)
    case FirstTradingDay => if d in perf then perf else perf[d := Performance(0.0, 0.0)]
    case Computed(rec) => perf[d := rec]
    case _ => perf
  }

  /** The number of calendar days in `[from, to]`. */
  function Days(from: Date, to: Date): nat {
    if from <= to then to - from + 1 else 0
  }

  /** The performance table after the steps for every calendar day of `[from, to]`, ascending. */
  ghost function Chain(prices: PriceTable, comp: CompositionTable, perf: PerformanceTable, from: Date, to: Date): (r: PerformanceTable)
    requires RangeDivisorsNonZero(prices, comp, from, to)
    ensures forall e :: e in perf ==> e in r
    decreases Days(from, to)
  {
    if to < from then perf
    else Chain(prices, comp, DayStep(prices, comp, perf, from), from + 1, to)
  }

  // ---------------------------------------------------------------------------
  // One day

  /** A day whose composition does not have exactly 100 rows leaves the table as it is. */
  lemma StepSkipsIncompleteComposition(prices: PriceTable, comp: CompositionTable, perf: PerformanceTable, d: Date)
    requires DayDivisorsNonZero(prices, comp, d)
    requires |RowsOn(comp, d)| != IndexSize
    ensures DayStep(prices, comp, perf, d) == perf
  {
  }

  /** A trading day without an earlier composition date gets `(0, 0)`, unless it already has a record. */
  lemma StepFirstTradingDay(prices: PriceTable, comp: CompositionTable, perf: PerformanceTable, d: Date)
    requires DayDivisorsNonZero(prices, comp, d)
    requires |RowsOn(comp, d)| == IndexSize
    requires forall k :: k in comp ==> d <= k
    ensures d in perf ==> DayStep(prices, comp, perf, d) == perf
    ensures d !in perf ==> DayStep(prices, comp, perf, d) == perf[d := Performance(0.0, 0.0)]
  {
  }

  /** A member without both close prices aborts the day: nothing is written, not even in part. */
  lemma StepAbortsOnMissingPrice(prices: PriceTable, comp: CompositionTable, perf: PerformanceTable, d: Date, p: Date, i: nat)
    requires DayDivisorsNonZero(prices, comp, d)
    requires |RowsOn(comp, d)| == IndexSize
    requires PrevTradingDate(comp, d) == Some(p)
    requires i < |RowsOn(comp, d)|
    requires (d, RowsOn(comp, d)[i].ticker) !in prices || (p, RowsOn(comp, d)[i].ticker) !in prices
    ensures DayStep(prices, comp, perf, d) == perf
  {
  }

  /** A previous trading date without a record aborts the day. */
  lemma StepNeedsPredecessor(prices: PriceTable, comp: CompositionTable, perf: PerformanceTable, d: Date, p: Date)
    requires DayDivisorsNonZero(prices, comp, d)
    requires PrevTradingDate(comp, d) == Some(p)
    requires p !in perf
    ensures DayStep(prices, comp, perf, d) == perf
  {
  }

  /** Otherwise the day's record is upserted with the compounded cumulative return. */
  lemma StepCompounds(prices: PriceTable, comp: CompositionTable, perf: PerformanceTable, d: Date, p: Date)
    requires DayDivisorsNonZero(prices, comp, d)
    requires |RowsOn(comp, d)| == IndexSize
    requires PrevTradingDate(comp, d) == Some(p)
    requires Priced(RowsOn(comp, d), prices, d, p)
    requires p in perf
    ensures var r := DailyReturn(RowsOn(comp, d), prices, d, p);
      DayStep(prices, comp, perf, d) == perf[d := Performance(r, Compound(perf[p].cumulative, r))]
  {
  }

  // ---------------------------------------------------------------------------
  // The walk over a range of days

  /** Days outside `[from, to]` keep their records. */
  lemma {:induction false} ChainFrame(prices: PriceTable, comp: CompositionTable, perf: PerformanceTable, from: Date, to: Date, e: Date)
    requires RangeDivisorsNonZero(prices, comp, from, to)
    requires e < from || to < e
    ensures Record(Chain(prices, comp, perf, from, to), e) == Record(perf, e)
    decreases Days(from, to)
  {
    if from <= to {
      ChainFrame(prices, comp, DayStep(prices, comp, perf, from), from + 1, to, e);
    }
  }

  /** Walking `[from, to]` is walking `[from, e)` and then `[e, to]`. */
  lemma {:induction false} ChainSplit(prices: PriceTable, comp: CompositionTable, perf: PerformanceTable, from: Date, e: Date, to: Date)
    requires RangeDivisorsNonZero(prices, comp, from, to)
    requires from <= e <= to + 1
    ensures Chain(prices, comp, perf, from, to) == Chain(prices, comp, Chain(prices, comp, perf, from, e - 1), e, to)
    decreases Days(from, e)
  {
    if from < e {
      ChainSplit(prices, comp, DayStep(prices, comp, perf, from), from + 1, e, to);
    }
  }

  /**
   The final record of a day of the range is the one its own step wrote,
   against the table as the walk had left it the day before; and every
   earlier day already had its final record then.
   */
  lemma ChainAt(prices: PriceTable, comp: CompositionTable, perf: PerformanceTable, from: Date, to: Date, e: Date)
    requires RangeDivisorsNonZero(prices, comp, from, to)
    requires from <= e <= to
    ensures var before := Chain(prices, comp, perf, from, e - 1);
      && Record(Chain(prices, comp, perf, from, to), e) == Record(DayStep(prices, comp, before, e), e)
      && forall k :: k < e ==> Record(Chain(prices, comp, perf, from, to), k) == Record(before, k)
  {
    var before := Chain(prices, comp, perf, from, e - 1);
    ChainSplit(prices, comp, perf, from, e, to);
    var after := DayStep(prices, comp, before, e);
    assert Chain(prices, comp, before, e, to) == Chain(prices, comp, after, e + 1, to);
    ChainFrame(prices, comp, after, e + 1, to, e);
    forall k | k < e
      ensures Record(Chain(prices, comp, perf, from, to), k) == Record(before, k)
    {
      ChainFrame(prices, comp, after, e + 1, to, k);
    }
  }

  /** Only days of the range whose composition has exactly 100 rows can have their record changed. */
  lemma ChainChangesOnlyTradingDays(prices: PriceTable, comp: CompositionTable, perf: PerformanceTable, from: Date, to: Date, e: Date)
    requires RangeDivisorsNonZero(prices, comp, from, to)
    requires Record(Chain(prices, comp, perf, from, to), e) != Record(perf, e)
    ensures from <= e <= to && |RowsOn(comp, e)| == IndexSize
  {
    if e < from || to < e {
      ChainFrame(prices, comp, perf, from, to, e);
    } else {
      ChainAt(prices, comp, perf, from, to, e);
      ChainFrame(prices, comp, perf, from, e - 1, e);
    }
  }

  /** The first trading day of a walk gets `(0, 0)` unless it already had a record. */
  lemma ChainFirstTradingDay(prices: PriceTable, comp: CompositionTable, perf: PerformanceTable, from: Date, to: Date, e: Date)
    requires RangeDivisorsNonZero(prices, comp, from, to)
    requires from <= e <= to
    requires |RowsOn(comp, e)| == IndexSize
    requires PrevTradingDate(comp, e).None?
    ensures Record(Chain(prices, comp, perf, from, to), e) ==
      if e in perf then Some(perf[e]) else Some(Performance(0.0, 0.0))
  {
    ChainAt(prices, comp, perf, from, to, e);
    ChainFrame(prices, comp, perf, from, e - 1, e);
  }

  /**
   A trading day of the walk with a member unpriced on it or on its previous
   trading date ends the walk with the record it had before: no partial record.
   */
  lemma ChainAbortsOnMissingPrice(prices: PriceTable, comp: CompositionTable, perf: PerformanceTable, from: Date, to: Date, e: Date, p: Date)
    requires RangeDivisorsNonZero(prices, comp, from, to)
    requires from <= e <= to
    requires PrevTradingDate(comp, e) == Some(p)
    requires !Priced(RowsOn(comp, e), prices, e, p)
    ensures Record(Chain(prices, comp, perf, from, to), e) == Record(perf, e)
  {
    ChainAt(prices, comp, perf, from, to, e);
    ChainFrame(prices, comp, perf, from, e - 1, e);
  }

  /** A fully priced trading day of the walk divides by every member's previous close. */
  lemma PricedDayDivisors(prices: PriceTable, comp: CompositionTable, from: Date, to: Date, e: Date, p: Date)
    requires RangeDivisorsNonZero(prices, comp, from, to) && from <= e <= to
    requires |RowsOn(comp, e)| == IndexSize && PrevTradingDate(comp, e) == Some(p)
    requires Priced(RowsOn(comp, e), prices, e, p)
    ensures ClosesNonZero(RowsOn(comp, e), prices, p)
  {
    assert DayDivisorsNonZero(prices, comp, e);
    PricedDivisorsNonZero(RowsOn(comp, e), prices, e, p);
  }

  /**
   Compounding along the walk: a fully priced trading day ends with the
   record `(r, (1 + c) * (1 + r) - 1)`, where `r` is its daily return and
   `c` the final cumulative return of its previous trading date, when that
   date has a record; when it has none, the day keeps the record it had
   before the walk.
   */
  lemma ChainCompounds(prices: PriceTable, comp: CompositionTable, perf: PerformanceTable, from: Date, to: Date, e: Date, p: Date)
    requires RangeDivisorsNonZero(prices, comp, from, to)
    requires from <= e <= to
    requires |RowsOn(comp, e)| == IndexSize
    requires PrevTradingDate(comp, e) == Some(p)
    requires Priced(RowsOn(comp, e), prices, e, p)
    ensures var t := Chain(prices, comp, perf, from, to);
      var r := (PricedDayDivisors(prices, comp, from, to, e, p); DailyReturn(RowsOn(comp, e), prices, e, p));
      && (p in t ==> Record(t, e) == Some(Performance(r, Compound(t[p].cumulative, r))))
      && (p !in t ==> Record(t, e) == Record(perf, e))
  {
    ChainAt(prices, comp, perf, from, to, e);
    ChainFrame(prices, comp, perf, from, e - 1, e);
    var t := Chain(prices, comp, perf, from, to);
    var before := Chain(prices, comp, perf, from, e - 1);
    assert Record(t, p) == Record(before, p);
  }

  /**
   A broken chain stays broken: starting from an empty table, once a
   composition date `q` ends without a record, every later composition
   date ends without one too, whatever its row count and whether or not
   the walk reaches it. The previous trading date of a later date is a
   composition date at or after `q`, so by induction it has no record
   either, and the step has nothing to compound onto.
   */
  lemma {:induction false} ChainBreakPropagates(prices: PriceTable, comp: CompositionTable, from: Date, to: Date, q: Date, e: Date)
    requires RangeDivisorsNonZero(prices, comp, from, to)
    requires q in comp && e in comp && q < e
    requires q !in Chain(prices, comp, map[], from, to)
    ensures e !in Chain(prices, comp, map[], from, to)
    decreases Days(q, e)
  {
    var t := Chain(prices, comp, map[], from, to);
    var p := PrevTradingDate(comp, e).value;
    assert q <= p;
    if q < p {
      ChainBreakPropagates(prices, comp, from, to, q, p);
    }
    assert p !in t;
    if Record(t, e) != Record(map[], e) {
      ChainChangesOnlyTradingDays(prices, comp, map[], from, to, e);
      if Priced(RowsOn(comp, e), prices, e, p) {
        ChainCompounds(prices, comp, map[], from, to, e, p);
      } else {
        ChainAbortsOnMissingPrice(prices, comp, map[], from, to, e, p);
      }
    }
  }

  // ---------------------------------------------------------------------------
  // The daily return

  /** The sum of the members' weights. */
  function SumWeights(members: seq<Member>): real
    decreases |members|
  {
    if members == [] then 0.0 else SumWeights(members[..|members| - 1]) + members[|members| - 1].weight
  }

  /** Dividing a product by one of its non-zero factors gives back the other. */
  lemma DivideOut(a: real, c: real)
    requires c != 0.0
    ensures (a * c) / c == a
  {
    var q := (a * c) / c;
    assert q * c == a * c;
    assert (q - a) * c == 0.0;
  }

  /** A member whose close grows by the factor `1 + g` contributes `g` times its weight. */
  lemma UniformContribution(m: Member, prices: PriceTable, d: Date, p: Date, g: real)
    requires (d, m.ticker) in prices && (p, m.ticker) in prices && prices[(p, m.ticker)].close != 0.0
    requires prices[(d, m.ticker)].close == (1.0 + g) * prices[(p, m.ticker)].close
    ensures Contribution(m, prices, d, p) == g * m.weight
  {
    var c := prices[(p, m.ticker)].close;
    var a := 1.0 + g;
    assert c != 0.0;
    assert prices[(d, m.ticker)].close == a * c;
    DivideOut(a, c);
  }

  /**
   When every member's close grows by the same factor `1 + g` from `p` to
   `d`, the daily return is `g` times the total weight.
   */
  lemma {:induction false} UniformGrowth(members: seq<Member>, prices: PriceTable, d: Date, p: Date, g: real)
    requires Priced(members, prices, d, p) && ClosesNonZero(members, prices, p)
    requires forall i :: 0 <= i < |members| ==>
      prices[(d, members[i].ticker)].close == (1.0 + g) * prices[(p, members[i].ticker)].close
    ensures DailyReturn(members, prices, d, p) == g * SumWeights(members)
    decreases |members|
  {
    if members != [] {
      var init := members[..|members| - 1];
      var last := members[|members| - 1];
      assert forall i :: 0 <= i < |init| ==> init[i] == members[i];
      UniformGrowth(init, prices, d, p, g);
      UniformContribution(last, prices, d, p, g);
      assert DailyReturn(members, prices, d, p) == DailyReturn(init, prices, d, p) + Contribution(last, prices, d, p);
      var s := SumWeights(init);
      assert SumWeights(members) == s + last.weight;
      assert g * s + g * last.weight == g * (s + last.weight);
    }
  }
}
