/**
 The bot's message table (a pandas DataFrame in `simple_bot.py`), modelled as
 an immutable sequence of rows in arrival order, capped at the newest 1000.
 */
module MessageStore {
  import opened Sentiment

  /** A clock reading, supplied by the caller (`simple_bot.py` calls
      `datetime.now()` when it builds the row). */
  type Instant = int

  /** One stored chat message: the six columns of the table. */
  datatype Row = Row(
    timestamp: Instant,
    username: string,
    message: string,
    sentimentScore: real,
    sentimentLabel: Label,
    channel: string)

  /** The number of rows the store keeps. */
  const Capacity: nat := 1000

  function Min(a: int, b: int): int {
    if a <= b then a else b
  }

  /** pandas `tail(n)`: the last `n` rows, or all of them when there are fewer. */
  function Last<T>(s: seq<T>, n: nat): (r: seq<T>)
    ensures |r| == Min(|s|, n)
    ensures r == s[|s| - |r|..]
  {
    if |s| <= n then s else s[|s| - n..]
  }

  /** Appends a row, then keeps only the newest `Capacity` rows. */
  function Append(store: seq<Row>, row: Row): (r: seq<Row>)
    ensures |r| == Min(|store| + 1, Capacity)
    ensures r[|r| - 1] == row
    ensures r[..|r| - 1] == store[|store| + 1 - |r|..]
    ensures |store| < Capacity ==> r == store + [row]
  {
    var grown := store + [row];
    if |grown| > Capacity then Last(grown, Capacity) else grown
  }

  /** Within capacity, appending one row keeps the newest `Capacity` rows. */
  lemma AppendIsLast(store: seq<Row>, row: Row)
    requires |store| <= Capacity
    ensures Append(store, row) == Last(store + [row], Capacity)
  {
  }

  /** Appends rows one at a time, oldest first. */
  function AppendAll(store: seq<Row>, rows: seq<Row>): seq<Row>
    decreases |rows|
  {
    if |rows| == 0 then store else AppendAll(Append(store, rows[0]), rows[1..])
  }

  /** The eviction invariant: whatever rows arrive, a store that starts within
      capacity holds exactly the newest `Capacity` rows of everything
      appended, in arrival order. */
  lemma {:induction false} AppendAllKeepsNewest(store: seq<Row>, rows: seq<Row>)
    requires |store| <= Capacity
    ensures AppendAll(store, rows) == Last(store + rows, Capacity)
    decreases |rows|
  {
    if |rows| == 0 {
      assert store + rows == store;
    } else {
      var next := Append(store, rows[0]);
      var grown := store + [rows[0]];
      AppendIsLast(store, rows[0]);
      AppendAllKeepsNewest(next, rows[1..]);
      LastOfLastMany(grown, rows[1..], Capacity);
      HeadThenRest(store, rows);
    }
  }

  lemma HeadThenRest<T>(s: seq<T>, rows: seq<T>)
    requires |rows| > 0
    ensures s + [rows[0]] + rows[1..] == s + rows
  {
  }

  /** Truncating to the last `n` before appending more makes no difference
      to the last `n` afterwards. */
  lemma LastOfLastMany<T>(s: seq<T>, t: seq<T>, n: nat)
    ensures Last(Last(s, n) + t, n) == Last(s + t, n)
  {
    if |s| > n {
      var u := s[|s| - n..];
      assert s + t == s[..|s| - n] + (u + t);
    }
  }

  /** The last `m` of the last `n` are the last `m`, for `m <= n`. */
  lemma LastNested<T>(s: seq<T>, n: nat, m: nat)
    requires m <= n
    ensures Last(Last(s, n), m) == Last(s, m)
  {
  }

  /** Older elements do not reach the last `m` when the newer ones suffice. */
  lemma LastOfSuffix<T>(older: seq<T>, newer: seq<T>, m: nat)
    requires |newer| >= m
    ensures Last(older + newer, m) == Last(newer, m)
  {
    var s := older + newer;
    assert s[|s| - m..] == newer[|newer| - m..];
  }

  /** Length never exceeds capacity, whatever is appended. */
  lemma AppendAllBounded(store: seq<Row>, rows: seq<Row>)
    requires |store| <= Capacity
    ensures |AppendAll(store, rows)| <= Capacity
  {
    AppendAllKeepsNewest(store, rows);
  }
}
