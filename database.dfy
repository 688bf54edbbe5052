/**
 The store: the price, composition and performance tables as maps held by
 one object, and the operations that read and rewrite them. Each table
 operation is specified by its effect on the tables; the return-chain
 operations are proved to implement the functions of module ReturnChain.
 */
module Database {
  import opened Common
  import opened ReturnChain

  /** Appending row `i` to its date's composition extends date `d`'s grouping by that row, if it is dated `d`. */
  lemma InsertRowAt(comp: CompositionTable, comp': CompositionTable, base: CompositionTable, rows: seq<Row<Member>>, i: nat, d: Date)
    requires i < |rows|
    requires comp' == comp[rows[i].date := RowsOn(comp, rows[i].date) + [rows[i].item]]
    requires RowsOn(comp, d) == RowsOn(base, d) + On(rows[..i], d)
    ensures RowsOn(comp', d) == RowsOn(base, d) + On(rows[..i + 1], d)
  {
    var row := rows[i];
    assert rows[..i + 1] == rows[..i] + [row];
    OnAppend(rows[..i], [row], d);
    OnSingle(row, d);
    if d == row.date {
      assert RowsOn(comp', d) == RowsOn(comp, d) + [row.item];
    } else {
      assert RowsOn(comp', d) == RowsOn(comp, d);
      assert On(rows[..i + 1], d) == On(rows[..i], d) + [];
    }
  }

  /** Appending one row to its date's composition extends the grouping of the rows inserted so far. */
  lemma InsertRowStep(comp: CompositionTable, comp': CompositionTable, base: CompositionTable, rows: seq<Row<Member>>, i: nat)
    requires i < |rows|
    requires comp' == comp[rows[i].date := RowsOn(comp, rows[i].date) + [rows[i].item]]
    requires forall d :: RowsOn(comp, d) == RowsOn(base, d) + On(rows[..i], d)
    ensures forall d :: RowsOn(comp', d) == RowsOn(base, d) + On(rows[..i + 1], d)
  {
    forall d
      ensures RowsOn(comp', d) == RowsOn(base, d) + On(rows[..i + 1], d)
    {
      InsertRowAt(comp, comp', base, rows, i, d);
    }
  }

  /** Appending a row to a date keeps every stored date non-empty. */
  lemma AppendKeepsDatesNonEmpty(comp: CompositionTable, d: Date, m: Member)
    requires NoEmptyDates(comp)
    ensures NoEmptyDates(comp[d := RowsOn(comp, d) + [m]])
  {
  }

  class IndexDatabase {
    var price: PriceTable
    var composition: CompositionTable
    var performance: PerformanceTable

    /** A date is present in the composition table only through its rows. */
    ghost predicate Valid()
      reads this
    {
      NoEmptyDates(composition)
    }

    constructor (prices: PriceTable)
      ensures Valid()
      ensures price == prices && composition == map[] && performance == map[]
    {
      price := prices;
      composition := map[];
      performance := map[];
    }

    /** `delete_index_composition`: empties the whole composition table, whatever the dates. */
    method DeleteComposition()
      modifies this`composition
      ensures Valid()
      ensures composition == map[]
    {
      composition := map[];
    }

    /**
     `insert_index_composition`: appends every row to its date's composition,
     in the order given; nothing else changes.
     */
    method InsertComposition(rows: seq<Row<Member>>)
      requires Valid()
      modifies this`composition
      ensures Valid()
      ensures forall d :: RowsOn(composition, d) == RowsOn(old(composition), d) + On(rows, d)
    {
      var i := 0;
      while i < |rows|
        invariant 0 <= i <= |rows|
        invariant Valid()
        invariant forall d :: RowsOn(composition, d) == RowsOn(old(composition), d) + On(rows[..i], d)
      {
        var row := rows[i];
        var next := composition[row.date := RowsOn(composition, row.date) + [row.item]];
        InsertRowStep(composition, next, old(composition), rows, i);
        AppendKeepsDatesNonEmpty(composition, row.date, row.item);
        composition := next;
        i := i + 1;
      }
      assert rows[..i] == rows;
    }

    /** `delete_index_performance_table`: empties the whole performance table. */
    method DeletePerformance()
      modifies this`performance
      ensures performance == map[]
    {
      performance := map[];
    }

    /**
     `get_prev_trading_date`: the greatest date before `d` that has any
     composition row, computed as the store's MAX aggregate over the dates.
     */
    method GetPrevTradingDate(d: Date) returns (prev: Option<Date>)
      requires Valid()
      ensures prev == PrevTradingDate(composition, d)
    {
      var dates := composition.Keys;
      prev := None;
      while dates != {}
        invariant dates <= composition.Keys
        invariant prev.Some? ==> prev.value in composition && prev.value < d
        invariant forall k :: k in composition && k !in dates && k < d ==> prev.Some? && k <= prev.value
        decreases dates
      {
        NonEmptyHasElement(dates);
        var k :| k in dates;
        if k < d && (prev.None? || prev.value < k) {
          prev := Some(k);
        }
        dates := dates - {k};
      }
      var spec := PrevTradingDate(composition, d);
      if spec.Some? {
        assert prev.Some?;
      }
    }

    /**
     `set_index_performance`: the performance step for one day. A day whose
     composition does not have exactly 100 rows is skipped; a first trading
     day gets `(0, 0)` unless it has a record; otherwise the weighted return
     is summed over the members, aborting at the first member without both
     closes, and compounded onto the previous trading date's cumulative
     return, when that date has a record.
     */
    method SetIndexPerformance(current: Date)
      requires Valid() && DayDivisorsNonZero(price, composition, current)
      modifies this`performance
      ensures performance == DayStep(price, composition, old(performance), current)
    {
      var members := RowsOn(composition, current);
      if |members| != IndexSize {
        StepSkipsIncompleteComposition(price, composition, performance, current);
        return;
      }
      var prev := GetPrevTradingDate(current);
      if prev.None? {
        StepFirstTradingDay(price, composition, performance, current);
        if current !in performance {
          performance := performance[current := Performance(0.0, 0.0)];
        }
        return;
      }
      var p := prev.value;
      var daily := 0.0;
      var validCount := 0;
      var i := 0;
      while i < |members|
        invariant 0 <= i <= |members| && validCount == i
        invariant performance == old(performance)
        invariant Priced(members[..i], price, current, p)
        invariant ClosesNonZero(members[..i], price, p)
        invariant daily == DailyReturn(members[..i], price, current, p)
      {
        var m := members[i];
        if (current, m.ticker) !in price || (p, m.ticker) !in price {
          // Partial data is never written: the whole day is abandoned.
          StepAbortsOnMissingPrice(price, composition, performance, current, p, i);
          return;
        }
        SumStep(members, price, current, p, i);
        var contribution := m.weight * (price[(current, m.ticker)].close / price[(p, m.ticker)].close - 1.0);
        assert contribution == Contribution(m, price, current, p);
        daily := daily + contribution;
        validCount := validCount + 1;
        i := i + 1;
      }
      assert members[..i] == members;
      // Every member contributed, so the count check of `set_index_performance` cannot fail.
      assert validCount == IndexSize;
      if p !in performance {
        StepNeedsPredecessor(price, composition, performance, current, p);
        return;
      }
      StepCompounds(price, composition, performance, current, p);
      assert daily == DailyReturn(members, price, current, p);
      var cumulative := Compound(performance[p].cumulative, daily);
      performance := performance[current := Performance(daily, cumulative)];
    }

    /**
     `build_index_performance`: runs the performance step once for every
     calendar day from `start` to `end`, ascending; nothing when `start > end`.
     */
    method BuildIndexPerformance(start: Date, end: Date)
      requires Valid() && RangeDivisorsNonZero(price, composition, start, end)
      modifies this`performance
      ensures performance == Chain(price, composition, old(performance), start, end)
    {
      var current := start;
      while current <= end
        invariant start <= current && (current <= end + 1 || current == start)
        invariant Chain(price, composition, performance, current, end) == Chain(price, composition, old(performance), start, end)
        decreases end - current
      {
        SetIndexPerformance(current);
        current := current + 1;
      }
    }
  }
}
