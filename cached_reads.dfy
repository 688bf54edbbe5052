/**
 The memoized reads of the store: the composition of one day, the
 performance record of one day, and the performance series of a range,
 which reads the latter day by day. Each read answers from the cache when
 its key is there and from the tables otherwise, so it is specified by a
 "view": the cached value where there is one, the table where there is not.
 When every cached entry agrees with the tables (the state a rebuild leaves,
 since it flushes every key of these readers) the view is the table.
 */
module CachedReads {
  import opened Common
  import opened ReturnChain
  import opened Cache
  import opened Database

  const CompositionReader: string := "get_index_composition"

  const PerformanceReader: string := "get_index_performance_per_day"

  function CompositionKey(d: Date): string {
    CacheKey(CompositionReader, d)
  }

  function PerformanceKey(d: Date): string {
    CacheKey(PerformanceReader, d)
  }

  /** The row the per-day performance query returns: the record of `d`, or none. */
  function PerformanceQuery(perf: PerformanceTable, d: Date): (r: Option<PerformanceRecord>)
    ensures r.Some? <==> d in perf
    ensures r.Some? ==> r.value.date == d && Performance(r.value.daily, r.value.cumulative) == perf[d]
  {
    if d in perf then Some(PerformanceRecord(d, perf[d].daily, perf[d].cumulative)) else None
  }

  /** Both readers' keys match the flush pattern `*index*`. */
  lemma ReaderKeysMentionIndex(d: Date)
    ensures Contains(CompositionKey(d), IndexPattern)
    ensures Contains(PerformanceKey(d), IndexPattern)
  {
    var c, p := CompositionKey(d), PerformanceKey(d);
    CacheKeyShape(CompositionReader, d);
    CacheKeyShape(PerformanceReader, d);
    assert c[4..9] == c[..|CompositionReader|][4..9] == CompositionReader[4..9] == IndexPattern;
    assert p[4..9] == p[..|PerformanceReader|][4..9] == PerformanceReader[4..9] == IndexPattern;
    assert OccursAt(c, IndexPattern, 4);
    assert OccursAt(p, IndexPattern, 4);
  }

  /** The two readers never share a key, whatever the dates. */
  lemma ReaderKeysDistinct(d: Date, e: Date)
    ensures CompositionKey(d) != PerformanceKey(e)
  {
    assert CompositionKey(d)[10] == 'c';
    assert PerformanceKey(e)[10] == 'p';
  }

  /** Each reader's key holds the kind of value that reader returns. */
  ghost predicate Typed(entries: map<string, Cached>) {
    && (forall d :: CompositionKey(d) in entries ==> entries[CompositionKey(d)].CompositionRows?)
    && (forall d :: PerformanceKey(d) in entries ==> entries[PerformanceKey(d)].PerformanceRow?)
  }

  /** What the composition read of `d` returns. */
  ghost function CompositionView(entries: map<string, Cached>, comp: CompositionTable, d: Date): seq<Member>
    requires Typed(entries)
  {
    if CompositionKey(d) in entries then entries[CompositionKey(d)].rows else RowsOn(comp, d)
  }

  /** What the performance read of `d` returns. */
  ghost function PerformanceView(entries: map<string, Cached>, perf: PerformanceTable, d: Date): Option<PerformanceRecord>
    requires Typed(entries)
  {
    if PerformanceKey(d) in entries then entries[PerformanceKey(d)].row else PerformanceQuery(perf, d)
  }

  /** Two key spaces give every read the same answer. */
  ghost predicate SameViews(a: map<string, Cached>, b: map<string, Cached>, comp: CompositionTable, perf: PerformanceTable)
    requires Typed(a) && Typed(b)
  {
    && (forall d :: CompositionView(a, comp, d) == CompositionView(b, comp, d))
    && (forall d :: PerformanceView(a, perf, d) == PerformanceView(b, perf, d))
  }

  /** Every cached entry of the two readers agrees with the tables. */
  ghost predicate Coherent(entries: map<string, Cached>, comp: CompositionTable, perf: PerformanceTable) {
    && (forall d :: CompositionKey(d) in entries ==> entries[CompositionKey(d)] == CompositionRows(RowsOn(comp, d)))
    && (forall d :: PerformanceKey(d) in entries ==> entries[PerformanceKey(d)] == PerformanceRow(PerformanceQuery(perf, d)))
  }

  /** Agreement of key spaces is transitive. */
  lemma SameViewsTransitive(a: map<string, Cached>, b: map<string, Cached>, c: map<string, Cached>, comp: CompositionTable, perf: PerformanceTable)
    requires Typed(a) && Typed(b) && Typed(c)
    requires SameViews(a, b, comp, perf) && SameViews(b, c, comp, perf)
    ensures SameViews(a, c, comp, perf)
  {
  }

  /** Under coherence every read answers what the tables hold. */
  lemma CoherentViews(entries: map<string, Cached>, comp: CompositionTable, perf: PerformanceTable)
    requires Coherent(entries, comp, perf)
    ensures Typed(entries)
    ensures forall d :: CompositionView(entries, comp, d) == RowsOn(comp, d)
    ensures forall d :: PerformanceView(entries, perf, d) == PerformanceQuery(perf, d)
  {
  }

  /** After the flush no entry of either reader is left, so the cache is coherent with any tables. */
  lemma FlushedIsCoherent(entries: map<string, Cached>, comp: CompositionTable, perf: PerformanceTable)
    ensures var flushed := WithoutIndexKeys(entries);
      && (forall d :: CompositionKey(d) !in flushed && PerformanceKey(d) !in flushed)
      && Coherent(flushed, comp, perf)
  {
    var flushed := WithoutIndexKeys(entries);
    forall d
      ensures CompositionKey(d) !in flushed && PerformanceKey(d) !in flushed
    {
      ReaderKeysMentionIndex(d);
    }
  }

  /** Each key names one reader and one date. */
  lemma ReaderKeysDetermine(d: Date, e: Date)
    ensures CompositionKey(d) != PerformanceKey(e) && PerformanceKey(d) != CompositionKey(e)
    ensures CompositionKey(e) == CompositionKey(d) ==> e == d
    ensures PerformanceKey(e) == PerformanceKey(d) ==> e == d
  {
    ReaderKeysDistinct(d, e);
    ReaderKeysDistinct(e, d);
    if CompositionKey(e) == CompositionKey(d) {
      CacheKeyInjective(CompositionReader, e, d);
    }
    if PerformanceKey(e) == PerformanceKey(d) {
      CacheKeyInjective(PerformanceReader, e, d);
    }
  }

  /**
   Storing what a composition read returned under its key changes no read's
   answer and keeps a coherent cache coherent: memoization is invisible.
   */
  lemma CompositionReadKeepsViews(entries: map<string, Cached>, comp: CompositionTable, perf: PerformanceTable, d: Date)
    requires Typed(entries)
    ensures var e1 := entries[CompositionKey(d) := CompositionRows(CompositionView(entries, comp, d))];
      && Typed(e1) && SameViews(e1, entries, comp, perf)
      && (Coherent(entries, comp, perf) ==> Coherent(e1, comp, perf))
  {
    var e1 := entries[CompositionKey(d) := CompositionRows(CompositionView(entries, comp, d))];
    forall e
      ensures CompositionKey(e) in e1 ==> e1[CompositionKey(e)].CompositionRows?
      ensures PerformanceKey(e) in e1 <==> PerformanceKey(e) in entries
      ensures PerformanceKey(e) in e1 ==> e1[PerformanceKey(e)] == entries[PerformanceKey(e)]
    {
      ReaderKeysDetermine(d, e);
    }
    assert Typed(e1);
    forall e
      ensures CompositionView(e1, comp, e) == CompositionView(entries, comp, e)
      ensures PerformanceView(e1, perf, e) == PerformanceView(entries, perf, e)
    {
      ReaderKeysDetermine(d, e);
    }
    if Coherent(entries, comp, perf) {
      forall e | CompositionKey(e) in e1
        ensures e1[CompositionKey(e)] == CompositionRows(RowsOn(comp, e))
      {
        ReaderKeysDetermine(d, e);
      }
    }
  }

  /**
   Storing what a performance read returned under its key changes no read's
   answer and keeps a coherent cache coherent.
   */
  lemma PerformanceReadKeepsViews(entries: map<string, Cached>, comp: CompositionTable, perf: PerformanceTable, d: Date)
    requires Typed(entries)
    ensures var e2 := entries[PerformanceKey(d) := PerformanceRow(PerformanceView(entries, perf, d))];
      && Typed(e2) && SameViews(e2, entries, comp, perf)
      && (Coherent(entries, comp, perf) ==> Coherent(e2, comp, perf))
  {
    var e2 := entries[PerformanceKey(d) := PerformanceRow(PerformanceView(entries, perf, d))];
    forall e
      ensures PerformanceKey(e) in e2 ==> e2[PerformanceKey(e)].PerformanceRow?
      ensures CompositionKey(e) in e2 <==> CompositionKey(e) in entries
      ensures CompositionKey(e) in e2 ==> e2[CompositionKey(e)] == entries[CompositionKey(e)]
    {
      ReaderKeysDetermine(d, e);
    }
    assert Typed(e2);
    forall e
      ensures CompositionView(e2, comp, e) == CompositionView(entries, comp, e)
      ensures PerformanceView(e2, perf, e) == PerformanceView(entries, perf, e)
    {
      ReaderKeysDetermine(d, e);
    }
    if Coherent(entries, comp, perf) {
      forall e | PerformanceKey(e) in e2
        ensures e2[PerformanceKey(e)] == PerformanceRow(PerformanceQuery(perf, e))
      {
        ReaderKeysDetermine(d, e);
      }
    }
  }

  /** The arguments of a reader called with its date as the only positional argument. */
  function DateCall(d: Date): (a: CallArgs)
    ensures DateArgument(a) == Some(d)
  {
    CallArgs([d], map[])
  }

  /**
   `get_index_composition`: the composition rows of `d`, memoized by date.
   The rows come in stored order.
   */
  method GetIndexComposition(db: IndexDatabase, slot: ClientSlot, d: Date) returns (rows: seq<Member>)
    requires slot.Valid() && Typed(slot.server.entries)
    modifies slot`client, slot.server
    ensures slot.Valid() && Typed(slot.server.entries)
    ensures old(slot.client) != null ==> slot.client == old(slot.client)
    ensures old(slot.client) == null ==> fresh(slot.client)
    ensures rows == CompositionView(old(slot.server.entries), db.composition, d)
    ensures slot.server.entries == old(slot.server.entries)[CompositionKey(d) := CompositionRows(rows)]
  {
    var comp := db.composition;
    var query := (a: CallArgs) => CompositionRows(RowsOn(comp, DateArgument(a).GetOr(d)));
    var r := Memoize(slot, CompositionReader, DateCall(d), query);
    assert r.value == Memoized(old(slot.server.entries), CompositionKey(d), DateCall(d), query);
    assert r.value.CompositionRows?;
    rows := r.value.rows;
    CompositionReadKeepsViews(old(slot.server.entries), comp, db.performance, d);
  }

  /** `get_index_performance_per_day`: the performance record of `d`, if any, memoized by date. */
  method GetIndexPerformancePerDay(db: IndexDatabase, slot: ClientSlot, d: Date) returns (row: Option<PerformanceRecord>)
    requires slot.Valid() && Typed(slot.server.entries)
    modifies slot`client, slot.server
    ensures slot.Valid() && Typed(slot.server.entries)
    ensures old(slot.client) != null ==> slot.client == old(slot.client)
    ensures old(slot.client) == null ==> fresh(slot.client)
    ensures row == PerformanceView(old(slot.server.entries), db.performance, d)
    ensures slot.server.entries == old(slot.server.entries)[PerformanceKey(d) := PerformanceRow(row)]
  {
    var perf := db.performance;
    var query := (a: CallArgs) => PerformanceRow(PerformanceQuery(perf, DateArgument(a).GetOr(d)));
    var r := Memoize(slot, PerformanceReader, DateCall(d), query);
    assert r.value == Memoized(old(slot.server.entries), PerformanceKey(d), DateCall(d), query);
    assert r.value.PerformanceRow?;
    row := r.value.row;
    PerformanceReadKeepsViews(old(slot.server.entries), db.composition, perf, d);
  }

  /** The records the range read collects: one per day of `[start, end]` whose read finds one, ascending. */
  ghost function Series(entries: map<string, Cached>, perf: PerformanceTable, start: Date, end: Date): (r: seq<PerformanceRecord>)
    requires Typed(entries)
    ensures |r| <= Days(start, end)
    decreases Days(start, end)
  {
    if end < start then []
    else
      Series(entries, perf, start, end - 1) +
      match PerformanceView(entries, perf, end)
      case Some(r) => [r]
      case None => []
  }

  /** `s` lists exactly the stored records of `[start, end]`, each once, in ascending date order. */
  ghost predicate ListsRecords(s: seq<PerformanceRecord>, perf: PerformanceTable, start: Date, end: Date) {
    && (forall i :: 0 <= i < |s| ==> start <= s[i].date <= end && Record(perf, s[i].date) == Some(Performance(s[i].daily, s[i].cumulative)))
    && (forall i, j :: 0 <= i < j < |s| ==> s[i].date < s[j].date)
    && (forall d :: start <= d <= end && d in perf ==> exists i :: 0 <= i < |s| && s[i].date == d)
  }

  /** Extending a listing of `[start, end - 1]` by the record of `end`, if any, lists `[start, end]`. */
  lemma ListsRecordsStep(s0: seq<PerformanceRecord>, perf: PerformanceTable, start: Date, end: Date)
    requires start <= end && ListsRecords(s0, perf, start, end - 1)
    ensures ListsRecords(s0 + (if end in perf then [PerformanceQuery(perf, end).value] else []), perf, start, end)
  {
    var s := s0 + (if end in perf then [PerformanceQuery(perf, end).value] else []);
    forall i | 0 <= i < |s|
      ensures start <= s[i].date <= end && Record(perf, s[i].date) == Some(Performance(s[i].daily, s[i].cumulative))
    {
      if i < |s0| {
        assert s[i] == s0[i];
      }
    }
    forall i, j | 0 <= i < j < |s|
      ensures s[i].date < s[j].date
    {
      assert s[i] == s0[i];
      if j < |s0| {
        assert s[j] == s0[j];
      }
    }
    forall d | start <= d <= end && d in perf
      ensures exists i :: 0 <= i < |s| && s[i].date == d
    {
      if d == end {
        assert s[|s0|].date == d;
      } else {
        var i :| 0 <= i < |s0| && s0[i].date == d;
        assert s[i] == s0[i];
      }
    }
  }

  /** Against a coherent cache the range read lists exactly the stored records of `[start, end]`. */
  lemma {:induction false} SeriesListsRecords(entries: map<string, Cached>, perf: PerformanceTable, comp: CompositionTable, start: Date, end: Date)
    requires Coherent(entries, comp, perf)
    ensures Typed(entries)
    ensures ListsRecords(Series(entries, perf, start, end), perf, start, end)
    decreases Days(start, end)
  {
    CoherentViews(entries, comp, perf);
    if start <= end {
      SeriesListsRecords(entries, perf, comp, start, end - 1);
      var s0 := Series(entries, perf, start, end - 1);
      assert PerformanceView(entries, perf, end) == PerformanceQuery(perf, end);
      assert Series(entries, perf, start, end) == s0 + (if end in perf then [PerformanceQuery(perf, end).value] else []);
      ListsRecordsStep(s0, perf, start, end);
    }
  }

  /**
   The key space after the range read of `[start, end]`: the answer of each
   day's read against `entries` is stored under that day's key.
   */
  ghost function SeriesWrites(entries: map<string, Cached>, perf: PerformanceTable, start: Date, end: Date): map<string, Cached>
    requires Typed(entries)
    decreases Days(start, end)
  {
    if end < start then entries
    else SeriesWrites(entries, perf, start, end - 1)[PerformanceKey(end) := PerformanceRow(PerformanceView(entries, perf, end))]
  }

  /**
   After the range read every day of `[start, end]` has its key, holding the
   answer its read gave; every other key is present and valued as before.
   */
  lemma {:induction false} SeriesWritesKeys(entries: map<string, Cached>, perf: PerformanceTable, start: Date, end: Date)
    requires Typed(entries)
    ensures var w := SeriesWrites(entries, perf, start, end);
      && (forall d :: start <= d <= end ==> PerformanceKey(d) in w && w[PerformanceKey(d)] == PerformanceRow(PerformanceView(entries, perf, d)))
      && (forall k :: (forall d :: start <= d <= end ==> k != PerformanceKey(d)) ==>
            (k in w <==> k in entries) && (k in entries ==> w[k] == entries[k]))
    decreases Days(start, end)
  {
    if start <= end {
      SeriesWritesKeys(entries, perf, start, end - 1);
      var w0 := SeriesWrites(entries, perf, start, end - 1);
      var w := SeriesWrites(entries, perf, start, end);
      assert w == w0[PerformanceKey(end) := PerformanceRow(PerformanceView(entries, perf, end))];
      forall d | start <= d < end
        ensures PerformanceKey(d) in w && w[PerformanceKey(d)] == PerformanceRow(PerformanceView(entries, perf, d))
      {
        ReaderKeysDetermine(d, end);
        assert w[PerformanceKey(d)] == w0[PerformanceKey(d)];
      }
      forall k | forall d :: start <= d <= end ==> k != PerformanceKey(d)
        ensures (k in w <==> k in entries) && (k in entries ==> w[k] == entries[k])
      {
        assert k != PerformanceKey(end);
        assert k in w <==> k in w0;
      }
    }
  }

  /**
   One day of the range read: against a key space that answers like the
   original one, the day's read gives the original answer, extends the
   series by it, and stores it as the key space after the range read does.
   */
  lemma SeriesReadStep(before: map<string, Cached>, now: map<string, Cached>, comp: CompositionTable, perf: PerformanceTable, start: Date, current: Date)
    requires Typed(before) && Typed(now) && start <= current
    requires SameViews(now, before, comp, perf)
    ensures var row := PerformanceView(now, perf, current);
      && row == PerformanceView(before, perf, current)
      && Series(before, perf, start, current) == Series(before, perf, start, current - 1) + (if row.Some? then [row.value] else [])
      && (now == SeriesWrites(before, perf, start, current - 1) ==>
            now[PerformanceKey(current) := PerformanceRow(row)] == SeriesWrites(before, perf, start, current))
  {
  }

  /**
   One turn of the range read: reads day `current` through the memoized
   per-day read and extends the series and the stored keys by that day.
   */
  method ReadSeriesDay(db: IndexDatabase, slot: ClientSlot, ghost before: map<string, Cached>, start: Date, current: Date,
                       data: seq<PerformanceRecord>) returns (data': seq<PerformanceRecord>)
    requires slot.Valid() && Typed(slot.server.entries) && Typed(before) && start <= current
    requires data == Series(before, db.performance, start, current - 1)
    requires slot.server.entries == SeriesWrites(before, db.performance, start, current - 1)
    requires SameViews(slot.server.entries, before, db.composition, db.performance)
    requires Coherent(before, db.composition, db.performance) ==> Coherent(slot.server.entries, db.composition, db.performance)
    modifies slot`client, slot.server
    ensures slot.Valid() && Typed(slot.server.entries)
    ensures old(slot.client) != null ==> slot.client == old(slot.client)
    ensures old(slot.client) == null ==> fresh(slot.client)
    ensures data' == Series(before, db.performance, start, current)
    ensures slot.server.entries == SeriesWrites(before, db.performance, start, current)
    ensures SameViews(slot.server.entries, before, db.composition, db.performance)
    ensures Coherent(before, db.composition, db.performance) ==> Coherent(slot.server.entries, db.composition, db.performance)
  {
    ghost var now := slot.server.entries;
    SeriesReadStep(before, now, db.composition, db.performance, start, current);
    var row := GetIndexPerformancePerDay(db, slot, current);
    PerformanceReadKeepsViews(now, db.composition, db.performance, current);
    SameViewsTransitive(slot.server.entries, now, before, db.composition, db.performance);
    data' := data;
    if row.Some? {
      data' := data' + [row.value];
    }
  }

  /**
   `get_index_performance_table_data`: reads each calendar day of
   `[start, end]` through the memoized per-day read and keeps the days
   that have a record.
   */
  method GetIndexPerformanceTableData(db: IndexDatabase, slot: ClientSlot, start: Date, end: Date) returns (data: seq<PerformanceRecord>)
    requires slot.Valid() && Typed(slot.server.entries)
    modifies slot`client, slot.server
    ensures slot.Valid() && Typed(slot.server.entries)
    ensures old(slot.client) != null ==> slot.client == old(slot.client)
    ensures old(slot.client) == null ==> slot.client == null || fresh(slot.client)
    ensures data == Series(old(slot.server.entries), db.performance, start, end)
    ensures slot.server.entries == SeriesWrites(old(slot.server.entries), db.performance, start, end)
    ensures SameViews(slot.server.entries, old(slot.server.entries), db.composition, db.performance)
    ensures Coherent(old(slot.server.entries), db.composition, db.performance) ==>
      Coherent(slot.server.entries, db.composition, db.performance)
  {
    ghost var before := slot.server.entries;
    var current := start;
    data := [];
    while current <= end
      invariant start <= current && (current <= end + 1 || current == start)
      invariant slot.Valid() && Typed(slot.server.entries)
      invariant old(slot.client) != null ==> slot.client == old(slot.client)
      invariant old(slot.client) == null ==> slot.client == null || fresh(slot.client)
      invariant data == Series(before, db.performance, start, current - 1)
      invariant slot.server.entries == SeriesWrites(before, db.performance, start, current - 1)
      invariant SameViews(slot.server.entries, before, db.composition, db.performance)
      invariant Coherent(before, db.composition, db.performance) ==>
        Coherent(slot.server.entries, db.composition, db.performance)
      decreases end - current
    {
      data := ReadSeriesDay(db, slot, before, start, current, data);
      current := current + 1;
    }
  }
}
