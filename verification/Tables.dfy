// An SQLite table with an AUTOINCREMENT key: rows in id order, ids never reused.
module Tables {

  datatype Row<+V> = Row(id: nat, value: V)

  datatype Table<+V> = Table(rows: seq<Row<V>>, next: nat)

  ghost predicate Ascending<V>(rows: seq<Row<V>>) {
    forall i, j | 0 <= i < j < |rows| :: rows[i].id < rows[j].id
  }

  ghost predicate ValidTable<V>(t: Table<V>) {
    && Ascending(t.rows)
    && 1 <= t.next
    && forall row | row in t.rows :: 1 <= row.id < t.next
  }

  // INSERT with a fresh id.
  function Append<V(!new)>(t: Table<V>, v: V): (r: Table<V>)
    ensures ValidTable(t) ==> ValidTable(r)
    ensures forall row :: row in r.rows <==> row in t.rows || row == Row(t.next, v)
  {
    Table(t.rows + [Row(t.next, v)], t.next + 1)
  }

  // The rows satisfying a WHERE clause, in id order.
  function Where<V(!new)>(rows: seq<Row<V>>, keep: Row<V> -> bool): (r: seq<Row<V>>)
    ensures forall row :: row in r <==> row in rows && keep(row)
    ensures |r| <= |rows|
    ensures Ascending(rows) ==> Ascending(r)
  {
    if rows == [] then []
    else
      var front := Where(rows[..|rows| - 1], keep);
      var last := rows[|rows| - 1];
      assert rows == rows[..|rows| - 1] + [last];
      assert Ascending(rows) ==> forall row | row in rows[..|rows| - 1] :: row.id < last.id;
      if keep(last) then front + [last] else front
  }

  function Select<V(!new)>(rows: seq<Row<V>>, keep: V -> bool): (r: seq<Row<V>>)
    ensures forall row :: row in r <==> row in rows && keep(row.value)
    ensures |r| <= |rows|
    ensures Ascending(rows) ==> Ascending(r)
  {
    Where(rows, OnValue(keep))
  }

  function OnValue<V>(keep: V -> bool): Row<V> -> bool {
    (row: Row<V>) => keep(row.value)
  }

  // WHERE id > since ORDER BY id.
  function Above<V(!new)>(rows: seq<Row<V>>, since: nat): (r: seq<Row<V>>)
    ensures forall row :: row in r <==> row in rows && since < row.id
    ensures |r| <= |rows|
    ensures Ascending(rows) ==> Ascending(r)
  {
    Where(rows, (row: Row<V>) => since < row.id)
  }

  // WHERE id > since ORDER BY id LIMIT limit.
  function Page<V(!new)>(rows: seq<Row<V>>, since: nat, limit: nat): (r: seq<Row<V>>)
    ensures |r| <= limit
    ensures Ascending(rows) ==> Ascending(r)
    ensures forall row | row in r :: row in rows && since < row.id
  {
    var above := Above(rows, since);
    if |above| <= limit then above else above[..limit]
  }

  // The id a reader has reached once it has consumed a page that starts above `since`.
  function LastId<V>(since: nat, page: seq<Row<V>>): nat {
    if page == [] then since else page[|page| - 1].id
  }

  // A page skips nothing: every row up to its last id is in it.
  lemma PageSkipsNothing<V(!new)>(rows: seq<Row<V>>, since: nat, limit: nat, row: Row<V>)
    requires Ascending(rows)
    requires row in rows && since < row.id <= LastId(since, Page(rows, since, limit))
    ensures row in Page(rows, since, limit)
  {
    var above := Above(rows, since);
    var i :| 0 <= i < |above| && above[i] == row;
  }

  // In an ascending log what lies above the id of a row is what comes after that row.
  lemma {:induction false} AboveRow<V(!new)>(log: seq<Row<V>>, at: nat)
    requires Ascending(log) && at < |log|
    ensures Above(log, log[at].id) == log[at + 1..]
  {
    var front, last := log[..|log| - 1], log[|log| - 1];
    if at == |log| - 1 {
      NothingAbove(log, last.id);
    } else {
      AboveRow(front, at);
      assert log[at + 1..] == front[at + 1..] + [last];
    }
  }

  lemma {:induction false} NothingAbove<V(!new)>(log: seq<Row<V>>, place: nat)
    requires forall row | row in log :: row.id <= place
    ensures Above(log, place) == []
  {
    if log != [] { NothingAbove(log[..|log| - 1], place); }
  }

  // A reader's place splits the log in two.
  lemma {:induction false} AboveIsSuffix<V(!new)>(log: seq<Row<V>>, place: nat)
    requires Ascending(log)
    ensures |Above(log, place)| <= |log|
    ensures Above(log, place) == log[|log| - |Above(log, place)|..]
  {
    if log != [] {
      var front, last := log[..|log| - 1], log[|log| - 1];
      if last.id <= place {
        NothingAbove(log, place);
      } else {
        AboveIsSuffix(front, place);
        var from := |front| - |Above(front, place)|;
        assert log[from..] == front[from..] + [last];
      }
    }
  }

  // What lies above the n-th row above a place is what comes after it there.
  lemma AboveNth<V(!new)>(log: seq<Row<V>>, place: nat, n: nat)
    requires Ascending(log) && n < |Above(log, place)|
    ensures Above(log, Above(log, place)[n].id) == Above(log, place)[n + 1..]
  {
    hide Above, Ascending;
    var above := Above(log, place);
    var from := |log| - |above|;
    AboveIsSuffix(log, place);
    SuffixAt(log, above, from, n);
    AboveRow(log, from + n);
  }

  lemma SuffixAt<V>(log: seq<V>, suffix: seq<V>, from: nat, n: nat)
    requires from + n < |log| && suffix == log[from..]
    ensures suffix[n] == log[from + n] && suffix[n + 1..] == log[from + n + 1..]
  {
  }

  lemma PageIsPrefix<V(!new)>(log: seq<Row<V>>, since: nat, limit: nat)
    ensures var page, above := Page(log, since, limit), Above(log, since);
            |page| <= |above| && page == above[..|page|]
  {
    hide Above;
  }

  // What is left above the last id of a page is what the page left out.
  lemma AboveAfterPage<V(!new)>(log: seq<Row<V>>, since: nat, limit: nat)
    requires Ascending(log)
    ensures var page := Page(log, since, limit);
            |page| <= |Above(log, since)| && Above(log, LastId(since, page)) == Above(log, since)[|page|..]
  {
    hide Above, Page, Ascending;
    var n := |Page(log, since, limit)|;
    PageIsPrefix(log, since, limit);
    if n > 0 { AboveNth(log, since, n - 1); }
  }

  // --- A page, plainly stated ---

  // Two ascending lists of the same rows are the same list.
  lemma {:induction false} SameRowsSameOrder<V(!new)>(a: seq<Row<V>>, b: seq<Row<V>>)
    requires Ascending(a) && Ascending(b) && forall row :: row in a <==> row in b
    ensures a == b
  {
    if a == [] {
      if b != [] { HasMember(b); }
    } else if b == [] {
      HasMember(a);
    } else {
      var x, y := a[|a| - 1], b[|b| - 1];
      assert x in b && y in a;
      FrontMembers(a, y);
      FrontMembers(b, x);
      assert x == y;
      var c, d := a[..|a| - 1], b[..|b| - 1];
      forall row: Row<V> ensures row in c <==> row in d {
        assert row in a <==> row in b;
      }
      SameRowsSameOrder(c, d);
      assert a == a[..|a| - 1] + [x] && b == b[..|b| - 1] + [y];
    }
  }

  lemma HasMember<V(!new)>(rows: seq<Row<V>>)
    requires rows != []
    ensures exists row :: row in rows
  {
    assert rows[0] in rows;
  }

  lemma FrontMembers<V(!new)>(rows: seq<Row<V>>, some: Row<V>)
    requires Ascending(rows) && some in rows
    ensures var last := rows[|rows| - 1];
            && some.id <= last.id && (some.id == last.id ==> some == last)
            && forall row :: row in rows[..|rows| - 1] <==> row in rows && row != last
  {
    var last := rows[|rows| - 1];
    assert rows == rows[..|rows| - 1] + [last];
  }

  ghost function RowSet<V>(rows: seq<Row<V>>): set<Row<V>> {
    set row | row in rows
  }

  lemma {:induction false} AscendingSize<V>(rows: seq<Row<V>>)
    requires Ascending(rows)
    ensures |RowSet(rows)| == |rows|
  {
    if rows != [] {
      var front, last := rows[..|rows| - 1], rows[|rows| - 1];
      AscendingSize(front);
      assert rows == front + [last];
      assert RowSet(rows) == RowSet(front) + {last} && last !in RowSet(front);
    }
  }

  // An ascending list whose rows are all in another, which has one row more.
  lemma FewerRows<V>(a: seq<Row<V>>, b: seq<Row<V>>, more: Row<V>)
    requires Ascending(a) && Ascending(b) && more in b && more !in a && forall row | row in a :: row in b
    ensures |a| < |b|
  {
    AscendingSize(a);
    AscendingSize(b);
    assert RowSet(a) <= RowSet(b) - {more};
    SubsetSize(RowSet(a), RowSet(b) - {more});
  }

  lemma {:induction false} SubsetSize<T>(a: set<T>, b: set<T>)
    requires a <= b
    ensures |a| <= |b|
  {
    assert b == a + (b - a) && a !! b - a;
  }

  // What a request for the rows above `since` must serve: rows above it, in id order and no
  // more than the limit; all of them if they are fewer, and otherwise none skipped.
  ghost predicate Serves<V(!new)>(page: seq<Row<V>>, rows: seq<Row<V>>, since: nat, limit: nat) {
    && Ascending(page) && |page| <= limit
    && (forall row | row in page :: row in rows && since < row.id)
    && forall row | row in rows && since < row.id && (|page| < limit || row.id <= LastId(since, page)) :: row in page
  }

  lemma PageServes<V(!new)>(rows: seq<Row<V>>, since: nat, limit: nat)
    requires Ascending(rows)
    ensures Serves(Page(rows, since, limit), rows, since, limit)
  {
    var page := Page(rows, since, limit);
    forall row | row in rows && since < row.id && (|page| < limit || row.id <= LastId(since, page))
      ensures row in page
    {
      if |page| == limit { PageSkipsNothing(rows, since, limit, row); }
    }
  }

  // Every row of one such page is in any other.
  lemma ServedTwice<V(!new)>(a: seq<Row<V>>, b: seq<Row<V>>, rows: seq<Row<V>>, since: nat, limit: nat, row: Row<V>)
    requires Serves(a, rows, since, limit) && Serves(b, rows, since, limit) && row in a
    ensures row in b
  {
    if row !in b {
      forall other | other in b ensures other in a { Earlier(a, b, since, row, other); }
      FewerRows(b, a, row);
    }
  }

  lemma Earlier<V(!new)>(a: seq<Row<V>>, b: seq<Row<V>>, since: nat, row: Row<V>, other: Row<V>)
    requires Ascending(a) && Ascending(b) && row in a && other in b && LastId(since, b) < row.id
    ensures other.id <= LastId(since, b) < row.id <= LastId(since, a)
  {
  }

  // The page is the one list that serves the request.
  lemma PageExact<V(!new)>(rows: seq<Row<V>>, since: nat, limit: nat, page: seq<Row<V>>)
    requires Ascending(rows)
    ensures page == Page(rows, since, limit) <==> Serves(page, rows, since, limit)
  {
    hide Serves, Page;
    PageServes(rows, since, limit);
    if Serves(page, rows, since, limit) {
      var same := Page(rows, since, limit);
      assert Ascending(page) && Ascending(same) by { ServesAscending(page, rows, since, limit); }
      forall row: Row<V> ensures row in page <==> row in same {
        if row in page { ServedTwice(page, same, rows, since, limit, row); }
        if row in same { ServedTwice(same, page, rows, since, limit, row); }
      }
      SameRowsSameOrder(page, same);
    }
  }

  lemma ServesAscending<V(!new)>(page: seq<Row<V>>, rows: seq<Row<V>>, since: nat, limit: nat)
    requires Serves(page, rows, since, limit)
    ensures Ascending(page)
  {
  }
}
