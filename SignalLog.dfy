/** The append-only `signals` table of CoinClerk: created if absent, one row
    inserted per run with an AUTOINCREMENT id, and read back as "the rows of
    one ticker, newest `created_at` first, at most 50". */
module SignalLog {

  /** Rows returned by the history query. */
  const HistoryLimit: nat := 50

  /** The largest rowid SQLite can assign (a signed 64-bit integer). */
  const MaxRowId: int := 0x7FFF_FFFF_FFFF_FFFF

  /** One row of `signals`; `createdAt` is the timestamp the caller supplies. */
  datatype Row = Row(id: int, ticker: string, price: real, rsi: real, macd: real, signal: string, createdAt: int)

  /** Ways a statement on the table fails. */
  datatype StoreError =
    | NoSuchTable  // the table has not been created
    | Full         // AUTOINCREMENT has used the largest rowid

  datatype Result<T> = Ok(value: T) | Err(error: StoreError)

  /** `WHERE ticker = ?`: the rows of one ticker, with their multiplicities. */
  function RowsFor(rows: seq<Row>, ticker: string): (r: seq<Row>)
    ensures forall i :: 0 <= i < |r| ==> r[i].ticker == ticker
    ensures forall x :: multiset(r)[x] == if x.ticker == ticker then multiset(rows)[x] else 0
  {
    if rows == [] then []
    else
      assert rows == [rows[0]] + rows[1..];
      if rows[0].ticker == ticker then [rows[0]] + RowsFor(rows[1..], ticker)
      else RowsFor(rows[1..], ticker)
  }

  /** `ORDER BY created_at DESC`: no row is older than one after it. */
  ghost predicate NewestFirst(s: seq<Row>) {
    forall i, j :: 0 <= i < j < |s| ==> s[i].createdAt >= s[j].createdAt
  }

  /** `LIMIT` after the ordering: no row of `all` left out of `kept` is newer
      than a row of `kept`. */
  ghost predicate KeepsNewest(all: seq<Row>, kept: seq<Row>) {
    forall x :: x in multiset(all) - multiset(kept) ==>
      forall i :: 0 <= i < |kept| ==> x.createdAt <= kept[i].createdAt
  }

  /** A newest-first sequence stays newest-first with a row no older than its head in front. */
  lemma NewestFirstCons(h: Row, t: seq<Row>)
    requires NewestFirst(t)
    requires t != [] ==> h.createdAt >= t[0].createdAt
    ensures NewestFirst([h] + t)
  {
    forall i, j | 0 <= i < j < |[h] + t|
      ensures ([h] + t)[i].createdAt >= ([h] + t)[j].createdAt
    {
      if i == 0 && j > 1 {
        assert t[0].createdAt >= t[j - 1].createdAt;
      }
    }
  }

  /** Puts `x` into a newest-first sequence, before the rows no newer than it. */
  function InsertByTime(x: Row, s: seq<Row>): (r: seq<Row>)
    requires NewestFirst(s)
    ensures NewestFirst(r)
    ensures multiset(r) == multiset(s) + multiset{x}
    ensures r != [] && (r[0] == x || (s != [] && r[0] == s[0]))
  {
    if s == [] || x.createdAt >= s[0].createdAt then
      NewestFirstCons(x, s);
      [x] + s
    else
      var rest := s[1..];
      assert NewestFirst(rest) by {
        forall i, j | 0 <= i < j < |rest| ensures rest[i].createdAt >= rest[j].createdAt {
          assert rest[i] == s[i + 1] && rest[j] == s[j + 1];
        }
      }
      var t := InsertByTime(x, rest);
      assert t[0] == x || t[0] == s[1];
      NewestFirstCons(s[0], t);
      assert multiset(s) == multiset{s[0]} + multiset(rest) by {
        assert s == [s[0]] + rest;
      }
      assert multiset([s[0]] + t) == multiset{s[0]} + multiset(t);
      [s[0]] + t
  }

  /** Orders rows newest first.  SQL leaves the order of equal timestamps
      open; this sort keeps them in table order, and nothing below relies on it. */
  function SortNewestFirst(s: seq<Row>): (r: seq<Row>)
    ensures NewestFirst(r)
    ensures multiset(r) == multiset(s)
    ensures |r| == |s|
  {
    if s == [] then []
    else
      assert s == [s[0]] + s[1..];
      InsertByTime(s[0], SortNewestFirst(s[1..]))
  }

  /** `SELECT * FROM signals WHERE ticker=? ORDER BY created_at DESC LIMIT limit`. */
  function RecentFor(rows: seq<Row>, ticker: string, limit: nat): (r: seq<Row>)
    ensures |r| == if limit < |RowsFor(rows, ticker)| then limit else |RowsFor(rows, ticker)|
    ensures forall i :: 0 <= i < |r| ==> r[i].ticker == ticker
    ensures NewestFirst(r)
    ensures multiset(r) <= multiset(RowsFor(rows, ticker))
    ensures limit >= |RowsFor(rows, ticker)| ==> multiset(r) == multiset(RowsFor(rows, ticker))
    ensures KeepsNewest(RowsFor(rows, ticker), r)
  {
    var f := RowsFor(rows, ticker);
    var sorted := SortNewestFirst(f);
    var r := if limit < |sorted| then sorted[..limit] else sorted;
    assert NewestFirst(r) && multiset(r) <= multiset(f) && KeepsNewest(f, r) by {
      if limit < |sorted| {
        TakeKeepsNewest(sorted, limit);
      } else {
        assert multiset(f) - multiset(r) == multiset{};
      }
    }
    SameTicker(f, r, ticker);
    r
  }

  /** Rows drawn from rows of one ticker are all of that ticker. */
  lemma SameTicker(f: seq<Row>, r: seq<Row>, ticker: string)
    requires forall i :: 0 <= i < |f| ==> f[i].ticker == ticker
    requires multiset(r) <= multiset(f)
    ensures forall i :: 0 <= i < |r| ==> r[i].ticker == ticker
  {
    forall i | 0 <= i < |r| ensures r[i].ticker == ticker {
      assert r[i] in multiset(f);
      assert r[i] in f;
    }
  }

  /** The rows a prefix leaves out are the rows of the suffix. */
  lemma PrefixDrops(s: seq<Row>, k: nat)
    requires k <= |s|
    ensures multiset(s[..k]) <= multiset(s)
    ensures multiset(s) - multiset(s[..k]) == multiset(s[k..])
  {
    assert s == s[..k] + s[k..];
  }

  /** A prefix of a newest-first sequence is newest-first. */
  lemma NewestFirstPrefix(s: seq<Row>, k: nat)
    requires NewestFirst(s) && k <= |s|
    ensures NewestFirst(s[..k])
  {
  }

  /** The first `k` rows of a newest-first sequence are no older than any row dropped. */
  lemma TakeKeepsNewest(s: seq<Row>, k: nat)
    requires NewestFirst(s) && k <= |s|
    ensures NewestFirst(s[..k])
    ensures multiset(s[..k]) <= multiset(s)
    ensures KeepsNewest(s, s[..k])
  {
    var kept := s[..k];
    NewestFirstPrefix(s, k);
    PrefixDrops(s, k);
    forall x: Row | x in multiset(s) - multiset(kept)
      ensures forall i :: 0 <= i < |kept| ==> x.createdAt <= kept[i].createdAt
    {
      assert x in s[k..];
      var j :| k <= j < |s| && s[j] == x;
    }
  }

  /** The first row of a history is at least as new as every row of the ticker. */
  lemma HeadIsNewest(all: seq<Row>, kept: seq<Row>)
    requires kept != []
    requires NewestFirst(kept) && multiset(kept) <= multiset(all) && KeepsNewest(all, kept)
    ensures forall x :: x in all ==> x.createdAt <= kept[0].createdAt
  {
    forall x | x in all
      ensures x.createdAt <= kept[0].createdAt
    {
      assert x in multiset(all);
      if x !in multiset(kept) {
        assert x in multiset(all) - multiset(kept);
      } else {
        var j :| 0 <= j < |kept| && kept[j] == x;
      }
    }
  }

  /** A sequence longer than a multiset holds some row more often than the multiset. */
  lemma {:induction false} Exceeds(a: seq<Row>, m: multiset<Row>)
    requires |a| > |m|
    ensures exists x :: multiset(a)[x] > m[x]
  {
    var x := a[0];
    assert a == [x] + a[1..];
    if multiset(a)[x] <= m[x] {
      Exceeds(a[1..], m - multiset{x});
      var y :| multiset(a[1..])[y] > (m - multiset{x})[y];
      assert multiset(a)[y] > m[y];
    }
  }

  /** A row among the first `i + 1` of a newest-first sequence is no older than row `i`. */
  lemma InHeadNoOlder(r: seq<Row>, i: nat, x: Row)
    requires NewestFirst(r) && i < |r|
    requires x in multiset(r[..i + 1])
    ensures x.createdAt >= r[i].createdAt
  {
    assert x in r[..i + 1];
    var j :| 0 <= j <= i && r[..i + 1][j] == x;
    assert r[j] == x;
  }

  /** A row newer than row `i` of a newest-first sequence occurs only before `i`. */
  lemma NewerOnlyInHead(r: seq<Row>, i: nat, x: Row)
    requires NewestFirst(r) && i < |r|
    requires x.createdAt > r[i].createdAt
    ensures multiset(r)[x] == multiset(r[..i])[x]
  {
    assert r == r[..i] + r[i..];
    forall k | 0 <= k < |r[i..]| ensures r[i..][k] != x {
      assert r[i..][k] == r[i + k];
    }
    assert x !in r[i..];
  }

  /** Two results meeting the history contract agree position by position on
      `created_at`: one is never newer than the other at the same place. */
  lemma NotNewerAt(f: seq<Row>, r1: seq<Row>, r2: seq<Row>, i: nat)
    requires |r1| == |r2| && i < |r1|
    requires NewestFirst(r1) && multiset(r1) <= multiset(f)
    requires NewestFirst(r2) && KeepsNewest(f, r2)
    ensures r1[i].createdAt <= r2[i].createdAt
  {
    if r1[i].createdAt > r2[i].createdAt {
      var head1, head2 := r1[..i + 1], r2[..i];
      Exceeds(head1, multiset(head2));
      var x :| multiset(head1)[x] > multiset(head2)[x];
      InHeadNoOlder(r1, i, x);
      NewerOnlyInHead(r2, i, x);
      PrefixDrops(r1, i + 1);
      assert false;
    }
  }

  /** The history contract fixes every position's `created_at`: two results
      meeting it differ at most in the order of rows with equal timestamps. */
  lemma HistoryUniqueUpToTies(f: seq<Row>, r1: seq<Row>, r2: seq<Row>)
    requires |r1| == |r2|
    requires NewestFirst(r1) && multiset(r1) <= multiset(f) && KeepsNewest(f, r1)
    requires NewestFirst(r2) && multiset(r2) <= multiset(f) && KeepsNewest(f, r2)
    ensures forall i :: 0 <= i < |r1| ==> r1[i].createdAt == r2[i].createdAt
  {
    forall i | 0 <= i < |r1| ensures r1[i].createdAt == r2[i].createdAt {
      NotNewerAt(f, r1, r2, i);
      NotNewerAt(f, r2, r1, i);
    }
  }

  /** Rows of one ticker are found the same way in a concatenation. */
  lemma {:induction false} RowsForAppend(a: seq<Row>, b: seq<Row>, ticker: string)
    ensures RowsFor(a + b, ticker) == RowsFor(a, ticker) + RowsFor(b, ticker)
  {
    if a == [] {
      assert a + b == b;
    } else {
      assert (a + b)[0] == a[0];
      assert (a + b)[1..] == a[1..] + b;
      RowsForAppend(a[1..], b, ticker);
    }
  }

  /** A ticker with no rows has an empty history, not an error. */
  lemma UnknownTickerEmpty(rows: seq<Row>, ticker: string, limit: nat)
    requires forall i :: 0 <= i < |rows| ==> rows[i].ticker != ticker
    ensures RecentFor(rows, ticker, limit) == []
  {
  }

  /** Appending a row of another ticker leaves this ticker's history unchanged. */
  lemma OtherTickerUnaffected(rows: seq<Row>, row: Row, ticker: string, limit: nat)
    requires row.ticker != ticker
    ensures RecentFor(rows + [row], ticker, limit) == RecentFor(rows, ticker, limit)
  {
    RowsForAppend(rows, [row], ticker);
    assert RowsFor([row], ticker) == [];
    assert RowsFor(rows, ticker) + [] == RowsFor(rows, ticker);
  }

  /** Every row of `ticker` is older than `t`. */
  ghost predicate NewerThanAll(rows: seq<Row>, ticker: string, t: int) {
    forall x :: x in rows && x.ticker == ticker ==> x.createdAt < t
  }

  /** The first row of a ticker's history is one of its rows and at least as
      new as all of them. */
  lemma HistoryHead(rows: seq<Row>, ticker: string, limit: nat)
    requires limit > 0 && RowsFor(rows, ticker) != []
    ensures RecentFor(rows, ticker, limit) != []
    ensures RecentFor(rows, ticker, limit)[0] in RowsFor(rows, ticker)
    ensures forall x :: x in RowsFor(rows, ticker) ==> x.createdAt <= RecentFor(rows, ticker, limit)[0].createdAt
  {
    var f, r := RowsFor(rows, ticker), RecentFor(rows, ticker, limit);
    HeadIsNewest(f, r);
    assert r[0] in multiset(f);
  }

  /** A row newer than every other row of its ticker comes first in the history. */
  lemma NewestAppendedRowFirst(rows: seq<Row>, row: Row, limit: nat)
    requires limit > 0
    requires NewerThanAll(rows, row.ticker, row.createdAt)
    ensures RecentFor(rows + [row], row.ticker, limit) != []
    ensures RecentFor(rows + [row], row.ticker, limit)[0] == row
  {
    var f := RowsFor(rows + [row], row.ticker);
    RowsForAppend(rows, [row], row.ticker);
    assert RowsFor([row], row.ticker) == [row];
    assert f == RowsFor(rows, row.ticker) + [row];
    HistoryHead(rows + [row], row.ticker, limit);
    var h := RecentFor(rows + [row], row.ticker, limit)[0];
    assert row.createdAt <= h.createdAt;
    assert h in RowsFor(rows, row.ticker) ==> h in multiset(RowsFor(rows, row.ticker));
  }

  /** The `signals` table of one database file. */
  class SignalStore {
    /** Whether `CREATE TABLE` has run on this file. */
    var tableExists: bool
    /** The rows, in insertion order. */
    var rows: seq<Row>
    /** The id AUTOINCREMENT assigns next: one more than the largest id ever used. */
    var nextId: int

    ghost predicate Valid()
      reads this
    {
      && 1 <= nextId <= MaxRowId + 1
      && (forall i :: 0 <= i < |rows| ==> 1 <= rows[i].id < nextId)
      && (forall i, j :: 0 <= i < j < |rows| ==> rows[i].id < rows[j].id)
      && (!tableExists ==> rows == [] && nextId == 1)
    }

    /** A database file without the table. */
    constructor ()
      ensures Valid() && !tableExists && rows == [] && nextId == 1
    {
      tableExists := false;
      rows := [];
      nextId := 1;
    }

    /** `CREATE TABLE IF NOT EXISTS`: creates the table when absent and
        otherwise leaves the table and its rows as they are. */
    method InitDb()
      requires Valid()
      modifies this
      ensures Valid() && tableExists
      ensures rows == old(rows) && nextId == old(nextId)
    {
      if !tableExists {
        tableExists := true;
      }
    }

    /** `INSERT INTO signals(...)`: adds one row with the next id. */
    method Append(ticker: string, price: real, rsi: real, macd: real, signal: string, createdAt: int)
      returns (r: Result<int>)
      requires Valid()
      modifies this
      ensures Valid() && tableExists == old(tableExists)
      ensures !old(tableExists) ==> r == Err(NoSuchTable) && rows == old(rows) && nextId == old(nextId)
      ensures old(tableExists) && old(nextId) > MaxRowId ==>
                r == Err(Full) && rows == old(rows) && nextId == old(nextId)
      ensures old(tableExists) && old(nextId) <= MaxRowId ==>
                && r == Ok(old(nextId))
                && rows == old(rows) + [Row(old(nextId), ticker, price, rsi, macd, signal, createdAt)]
                && nextId == old(nextId) + 1
      ensures r.Ok? ==> forall i :: 0 <= i < |old(rows)| ==> old(rows)[i].id < r.value
    {
      if !tableExists {
        return Err(NoSuchTable);
      }
      if nextId > MaxRowId {
        return Err(Full);
      }
      r := Ok(nextId);
      rows := rows + [Row(nextId, ticker, price, rsi, macd, signal, createdAt)];
      nextId := nextId + 1;
    }

    /** The history query for one ticker. */
    method History(ticker: string, limit: nat) returns (r: Result<seq<Row>>)
      ensures tableExists ==> r == Ok(RecentFor(rows, ticker, limit))
      ensures !tableExists ==> r == Err(NoSuchTable)
    {
      if !tableExists {
        return Err(NoSuchTable);
      }
      r := Ok(RecentFor(rows, ticker, limit));
    }
  }
}
