/**
 Shared vocabulary of the index engine: calendar days, tickers, the rows of
 the price, composition and performance tables, and grouping of row lists
 by date (the `setdefault(date, []).append(...)` idiom of the source).
 */
module Common {
  /** The number of tickers in the index: the ranking keeps this many, and only a day with exactly this many rows has a return. */
  const IndexSize: nat := 100

  /** A calendar day as a day number: the next calendar day of `d` is `d + 1`. */
  type Date = int

  type Ticker = string

  datatype Option<T> = None | Some(value: T) {
    function GetOr(default: T): T {
      match this
      case Some(v) => v
      case None => default
    }
  }

  /** One row of the price table, keyed by (date, ticker). */
  datatype Price = Price(close: real, marketCap: real)

  type PriceTable = map<(Date, Ticker), Price>

  /** One member of the index on one day: a row of the composition table without its date. */
  datatype Member = Member(ticker: Ticker, weight: real)

  /** The value columns of the performance table, keyed by date. */
  datatype Performance = Performance(daily: real, cumulative: real)

  /** A performance row as the per-day query returns it: `(date, daily_return, cumulative_return)`. */
  datatype PerformanceRecord = PerformanceRecord(date: Date, daily: real, cumulative: real)

  /** A row of a date-keyed result set. */
  datatype Row<T> = Row(date: Date, item: T)

  /** The items of `rows` dated `d`, in the order the rows come. */
  function On<T>(rows: seq<Row<T>>, d: Date): (r: seq<T>)
    ensures |r| <= |rows|
  {
    if rows == [] then []
    else On(rows[..|rows| - 1], d) + (if rows[|rows| - 1].date == d then [rows[|rows| - 1].item] else [])
  }

  /** Grouping distributes over concatenation of row lists. */
  lemma {:induction false} OnAppend<T>(a: seq<Row<T>>, b: seq<Row<T>>, d: Date)
    ensures On(a + b, d) == On(a, d) + On(b, d)
    decreases |b|
  {
    if b == [] {
      assert a + b == a;
    } else {
      var b' := b[..|b| - 1];
      assert (a + b)[..|a + b| - 1] == a + b';
      OnAppend(a, b', d);
    }
  }

  /** Items of a single row. */
  lemma OnSingle<T>(x: Row<T>, d: Date)
    ensures On([x], d) == if x.date == d then [x.item] else []
  {
    assert [x][..0] == [];
  }

  /** The smallest of two integers. */
  function Min(a: int, b: int): (m: int)
    ensures m <= a && m <= b && (m == a || m == b)
  {
    if a <= b then a else b
  }
}
