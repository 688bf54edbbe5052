/**
 The cache in front of the date-keyed reads: a string-keyed key space,
 the lazily created client that reaches it, cache-aside memoization keyed
 by reader name and date only, and the flush of every key that mentions
 the index.
 */
module Cache {
  import opened Common

  /** A cached value: what a memoized reader returned (the serialized form is taken as the value itself). */
  datatype Cached =
    | CompositionRows(rows: seq<Member>)
    | PerformanceRow(row: Option<PerformanceRecord>)

  /** `sub` occurs in `s` starting at position `i`. */
  predicate OccursAt(s: string, sub: string, i: int) {
    0 <= i && i + |sub| <= |s| && s[i..i + |sub|] == sub
  }

  /** `sub` occurs in `s` as a contiguous run of characters. */
  predicate Contains(s: string, sub: string) {
    exists i :: 0 <= i <= |s| && OccursAt(s, sub, i)
  }

  /** The flush deletes every key that matches `*index*`. */
  const IndexPattern: string := "index"

  // ---------------------------------------------------------------------------
  // Keys

  function Digit(n: nat): (c: char)
    requires n < 10
    ensures '0' <= c <= '9'
  {
    "0123456789"[n]
  }

  /** The decimal digits of `n`. */
  function NatText(n: nat): (t: string)
    ensures |t| >= 1
    ensures forall i :: 0 <= i < |t| ==> '0' <= t[i] <= '9'
    decreases n
  {
    if n < 10 then [Digit(n)] else NatText(n / 10) + [Digit(n % 10)]
  }

  /** The text of a date inside a cache key. */
  function DateText(d: Date): (t: string)
    ensures |t| >= 1
    ensures (t[0] == '-') == (d < 0)
  {
    if d < 0 then "-" + NatText(-d) else NatText(d)
  }

  /** Different numbers have different decimal texts. */
  lemma {:induction false} NatTextInjective(a: nat, b: nat)
    requires NatText(a) == NatText(b)
    ensures a == b
    decreases a
  {
    var t := NatText(a);
    if a < 10 && b < 10 {
      assert "0123456789"[a] == t[0] == "0123456789"[b];
    } else if a < 10 || b < 10 {
      // one text has a single digit, the other at least two
      assert false;
    } else {
      var ta, tb := NatText(a / 10), NatText(b / 10);
      assert t == ta + [Digit(a % 10)] == tb + [Digit(b % 10)];
      assert ta == t[..|t| - 1] == tb;
      NatTextInjective(a / 10, b / 10);
      assert "0123456789"[a % 10] == t[|t| - 1] == "0123456789"[b % 10];
    }
  }

  /** Different dates have different texts. */
  lemma DateTextInjective(a: Date, b: Date)
    requires DateText(a) == DateText(b)
    ensures a == b
  {
    var t := DateText(a);
    if a < 0 {
      assert t[1..] == NatText(-a) == NatText(-b);
      NatTextInjective(-a, -b);
    } else {
      NatTextInjective(a, b);
    }
  }

  /** The key of a memoized call: the reader's name, a colon, the date; no other argument takes part. */
  function CacheKey(name: string, d: Date): string {
    name + ":" + DateText(d)
  }

  /** A key starts with the reader's name and a colon, and the date's text is the rest. */
  lemma CacheKeyShape(name: string, d: Date)
    ensures var k := CacheKey(name, d);
      && |k| > |name| + 1 && k[..|name|] == name && k[|name|] == ':' && k[|name| + 1..] == DateText(d)
  {
  }

  /** For one reader, the key determines the date. */
  lemma CacheKeyInjective(name: string, a: Date, b: Date)
    requires CacheKey(name, a) == CacheKey(name, b)
    ensures a == b
  {
    var prefix := name + ":";
    assert CacheKey(name, a)[|prefix|..] == DateText(a);
    assert CacheKey(name, b)[|prefix|..] == DateText(b);
    DateTextInjective(a, b);
  }

  /** The arguments of a call: positional ones and keyword ones. */
  datatype CallArgs = CallArgs(positional: seq<Date>, keywords: map<string, Date>)

  /**
   The date a memoized call is keyed by: the `date` keyword argument when
   there is one, otherwise the first positional argument; none when the call
   has neither, where `memoize` fails on indexing an empty argument list.
   */
  function DateArgument(args: CallArgs): (r: Option<Date>)
    ensures "date" in args.keywords ==> r == Some(args.keywords["date"])
    ensures "date" !in args.keywords && |args.positional| > 0 ==> r == Some(args.positional[0])
    ensures r.None? <==> "date" !in args.keywords && |args.positional| == 0
  {
    if "date" in args.keywords then Some(args.keywords["date"])
    else if |args.positional| > 0 then Some(args.positional[0])
    else None
  }

  // ---------------------------------------------------------------------------
  // The key space and its client

  /** The key space of the cache server. */
  class Redis {
    var entries: map<string, Cached>

    constructor ()
      ensures entries == map[]
    {
      entries := map[];
    }
  }

  /** A client connection; every client reaches the same key space. */
  class Connection {
    const server: Redis

    constructor (server: Redis)
      ensures this.server == server
    {
      this.server := server;
    }
  }

  /** The module-level client slot, filled on first use. */
  class ClientSlot {
    const server: Redis
    var client: Connection?

    ghost predicate Valid()
      reads this, client
    {
      client != null ==> client.server == server
    }

    constructor (server: Redis)
      ensures Valid() && this.server == server && client == null
    {
      this.server := server;
      client := null;
    }

    /** `get_redis`: creates the client on the first call only, and returns that same client from then on. */
    method GetRedis() returns (c: Connection)
      requires Valid()
      modifies this`client
      ensures Valid() && client == c && c.server == server
      ensures old(client) != null ==> c == old(client)
      ensures old(client) == null ==> fresh(c)
    {
      if client == null {
        client := new Connection(server);
      }
      c := client;
    }
  }

  // ---------------------------------------------------------------------------
  // Cache-aside memoization

  /** What a memoized call returns: the stored value on a hit, the freshly computed one on a miss. */
  function Memoized(entries: map<string, Cached>, key: string, args: CallArgs, compute: CallArgs -> Cached): Cached {
    if key in entries then entries[key] else compute(args)
  }

  /** The key space after a memoized call: the returned value is stored under the key. */
  function AfterMemoized(entries: map<string, Cached>, key: string, args: CallArgs, compute: CallArgs -> Cached): map<string, Cached> {
    entries[key := Memoized(entries, key, args, compute)]
  }

  /** A hit returns the stored value and leaves the key space as it was. */
  lemma MemoizedHit(entries: map<string, Cached>, key: string, args: CallArgs, compute: CallArgs -> Cached)
    requires key in entries
    ensures Memoized(entries, key, args, compute) == entries[key]
    ensures AfterMemoized(entries, key, args, compute) == entries
  {
  }

  /** A miss stores the computed value under the key and changes no other key. */
  lemma MemoizedMiss(entries: map<string, Cached>, key: string, args: CallArgs, compute: CallArgs -> Cached)
    requires key !in entries
    ensures Memoized(entries, key, args, compute) == compute(args)
    ensures var after := AfterMemoized(entries, key, args, compute);
      && after.Keys == entries.Keys + {key}
      && after[key] == compute(args)
      && forall k :: k in entries ==> after[k] == entries[k]
  {
  }

  /**
   A second call with the same key, with no flush in between, returns the
   first call's value whatever it would compute, and changes nothing.
   */
  lemma MemoizedRepeat(entries: map<string, Cached>, key: string, args: CallArgs, compute: CallArgs -> Cached,
                       args': CallArgs, compute': CallArgs -> Cached)
    ensures var after := AfterMemoized(entries, key, args, compute);
      && Memoized(after, key, args', compute') == Memoized(entries, key, args, compute)
      && AfterMemoized(after, key, args', compute') == after
  {
  }

  /**
   The key ignores every argument but the date: two calls of one reader on
   the same date share one entry, so the second returns the first's value
   even when its other arguments would compute something else.
   */
  lemma KeyIgnoresOtherArguments(entries: map<string, Cached>, name: string, a: CallArgs, b: CallArgs, compute: CallArgs -> Cached)
    requires DateArgument(a).Some? && DateArgument(a) == DateArgument(b)
    ensures var key := CacheKey(name, DateArgument(a).value);
      var after := AfterMemoized(entries, key, a, compute);
      Memoized(after, CacheKey(name, DateArgument(b).value), b, compute) == Memoized(entries, key, a, compute)
  {
  }

  /**
   `memoize`: looks the call up by `name:date`; on a hit returns the stored
   value without computing, on a miss computes once and stores the result.
   A call without a date argument fails before touching the cache.
   */
  method Memoize(slot: ClientSlot, name: string, args: CallArgs, compute: CallArgs -> Cached) returns (r: Option<Cached>)
    requires slot.Valid()
    modifies slot`client, slot.server
    ensures slot.Valid()
    ensures old(slot.client) != null ==> slot.client == old(slot.client)
    ensures DateArgument(args).Some? && old(slot.client) == null ==> fresh(slot.client)
    ensures DateArgument(args).None? ==>
      r.None? && slot.client == old(slot.client) && slot.server.entries == old(slot.server.entries)
    ensures DateArgument(args).Some? ==>
      var key := CacheKey(name, DateArgument(args).value);
      && slot.client != null
      && r == Some(Memoized(old(slot.server.entries), key, args, compute))
      && slot.server.entries == AfterMemoized(old(slot.server.entries), key, args, compute)
  {
    var dt := DateArgument(args);
    if dt.None? {
      return None;
    }
    var redis := slot.GetRedis();
    var key := CacheKey(name, dt.value);
    if key in redis.server.entries {
      return Some(redis.server.entries[key]);
    }
    var result := compute(args);
    redis.server.entries := redis.server.entries[key := result];
    return Some(result);
  }

  // ---------------------------------------------------------------------------
  // Flushing

  /** The key space without the keys that contain `index`. */
  function WithoutIndexKeys(entries: map<string, Cached>): (r: map<string, Cached>)
    ensures forall k :: k in r <==> k in entries && !Contains(k, IndexPattern)
    ensures forall k :: k in r ==> r[k] == entries[k]
  {
    map k | k in entries && !Contains(k, IndexPattern) :: entries[k]
  }

  /** Flushing twice leaves the key space as flushing once. */
  lemma FlushIdempotent(entries: map<string, Cached>)
    ensures WithoutIndexKeys(WithoutIndexKeys(entries)) == WithoutIndexKeys(entries)
  {
  }

  /**
   `flush_redis`: scans the keys matching `*index*` and deletes them one by
   one; every other key keeps its value.
   */
  method FlushRedis(slot: ClientSlot)
    requires slot.Valid()
    modifies slot`client, slot.server
    ensures slot.Valid() && slot.client != null
    ensures old(slot.client) != null ==> slot.client == old(slot.client)
    ensures old(slot.client) == null ==> fresh(slot.client)
    ensures slot.server.entries == WithoutIndexKeys(old(slot.server.entries))
  {
    var redis := slot.GetRedis();
    var matching := set k | k in redis.server.entries && Contains(k, IndexPattern);
    while matching != {}
      invariant slot.client == redis && redis.server == slot.server
      invariant matching <= redis.server.entries.Keys
      invariant forall k :: k in redis.server.entries <==>
        k in old(slot.server.entries) && (k in matching || !Contains(k, IndexPattern))
      invariant forall k :: k in redis.server.entries ==> redis.server.entries[k] == old(slot.server.entries)[k]
      invariant forall k :: k in matching ==> Contains(k, IndexPattern)
      decreases matching
    {
      var k :| k in matching;
      redis.server.entries := redis.server.entries - {k};
      matching := matching - {k};
    }
  }
}
