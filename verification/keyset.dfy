/** Keyset paging: what following the returned cursor yields when the table changes between pages. */
module Keyset {
  import opened Common

  /** A row's place in the listing order: ids as Rank(-id, 0, 0), ratings as Rank(-level, -stars, user). */
  datatype Rank = Rank(a: int, b: int, c: int)

  predicate Before(x: Rank, y: Rank) {
    x.a < y.a || (x.a == y.a && (x.b < y.b || (x.b == y.b && x.c < y.c)))
  }

  ghost predicate Ordered(s: seq<Rank>) {
    forall i, j :: 0 <= i < j < |s| ==> Before(s[i], s[j])
  }

  // ---- ORDER BY ---------------------------------------------------------------------------

  predicate IsLeast(s: set<Rank>, x: Rank) {
    x in s && forall y :: y in s ==> y == x || Before(x, y)
  }

  lemma {:induction false} LeastExists(s: set<Rank>)
    requires s != {}
    ensures exists x :: IsLeast(s, x)
  {
    var x :| x in s;
    if s == {x} {
      assert IsLeast(s, x);
    } else {
      assert s - {x} != {};
      LeastExists(s - {x});
      var y :| IsLeast(s - {x}, y);
      var z := if Before(x, y) then x else y;
      assert forall w :: w in s ==> w == x || w in s - {x};
      assert IsLeast(s, z);
    }
  }

  /** ORDER BY: the rows of a set, each once, in order. */
  ghost predicate IsListing(s: set<Rank>, rows: seq<Rank>) {
    Ordered(rows) && |rows| == |s| && forall x :: x in rows <==> x in s
  }

  lemma {:induction false} ListingExists(s: set<Rank>)
    ensures exists rows :: IsListing(s, rows)
  {
    if s == {} {
      assert IsListing(s, []);
    } else {
      LeastExists(s);
      var x :| IsLeast(s, x);
      ListingExists(s - {x});
      var rest :| IsListing(s - {x}, rest);
      assert IsListing(s, [x] + rest);
    }
  }

  ghost function Sorted(s: set<Rank>): seq<Rank> {
    ListingExists(s);
    var rows :| IsListing(s, rows);
    rows
  }

  lemma SortedIsListing(s: set<Rank>)
    ensures IsListing(s, Sorted(s))
  {
    ListingExists(s);
  }

  /** A set has one ordered listing. */
  lemma {:induction false} OrderedUnique(a: seq<Rank>, b: seq<Rank>)
    requires Ordered(a) && Ordered(b)
    requires forall x :: x in a <==> x in b
    ensures a == b
  {
    assert b != [] ==> b[0] in b;
    if a != [] {
      assert a[0] in a && a[0] in b;
      assert b[0] in b && b[0] in a;
      assert a[0] == b[0];
      forall x
        ensures x in a[1..] <==> x in b[1..]
      {
        assert a == [a[0]] + a[1..] && b == [b[0]] + b[1..];
        assert x in a <==> x == a[0] || x in a[1..];
        assert x in b <==> x == b[0] || x in b[1..];
      }
      OrderedUnique(a[1..], b[1..]);
      assert a == [a[0]] + a[1..] && b == [b[0]] + b[1..];
    }
  }

  // ---- One page ---------------------------------------------------------------------------

  /** The keyset predicate: everything, or what comes strictly after the cursor. */
  function After(table: set<Rank>, cursor: Option<Rank>): set<Rank> {
    set r | r in table && (cursor.Some? ==> Before(cursor.value, r))
  }

  datatype Page = Page(rows: seq<Rank>, hasMore: bool)

  ghost function PageOf(table: set<Rank>, cursor: Option<Rank>, limit: nat): Page {
    var all := Sorted(After(table, cursor));
    if |all| > limit then Page(all[..limit], true) else Page(all, false)
  }

  /** The query: the first limit rows after the cursor. */
  ghost function Query(table: set<Rank>, cursor: Option<Rank>, limit: nat): seq<Rank> {
    var all := Sorted(After(table, cursor));
    if |all| > limit then all[..limit] else all
  }

  lemma SortedStartsWithLeast(s: set<Rank>, x: Rank)
    requires IsLeast(s, x)
    ensures Sorted(s) == [x] + Sorted(s - {x})
  {
    SortedIsListing(s);
    var rest := Sorted(s - {x});
    SortedIsListing(s - {x});
    assert forall i :: 0 <= i < |rest| ==> rest[i] in rest;
    OrderedUnique(Sorted(s), [x] + rest);
  }

  /** The database's answer, the least remaining row first. */
  method RunQuery(table: set<Rank>, cursor: Option<Rank>, limit: nat) returns (rows: seq<Rank>)
    ensures rows == Query(table, cursor, limit)
  {
    rows := [];
    var rest := After(table, cursor);
    while rest != {} && |rows| < limit
      invariant |rows| <= limit && Sorted(After(table, cursor)) == rows + Sorted(rest)
      decreases rest
    {
      LeastExists(rest);
      var x :| x in rest && IsLeast(rest, x);
      SortedStartsWithLeast(rest, x);
      rows, rest := rows + [x], rest - {x};
    }
    SortedIsListing(rest);
  }

  lemma QueryIsPage(table: set<Rank>, cursor: Option<Rank>, n: nat)
    ensures var rows := Query(table, cursor, n + 1);
            PageOf(table, cursor, n) == if |rows| > n then Page(rows[..n], true) else Page(rows, false)
  {
    var all, rows := Sorted(After(table, cursor)), Query(table, cursor, n + 1);
    assert |all| > n + 1 ==> rows[..n] == all[..n];
  }

  /** A list method: asks for one row more than the page holds and cuts it off again. */
  method List(table: set<Rank>, cursor: Option<Rank>, limit: int, default_: nat, max: nat)
    returns (out: seq<Rank>, hasMore: bool)
    ensures var n := if limit <= 0 then default_ else if limit > max then max else limit;
            Page(out, hasMore) == PageOf(table, cursor, n)
  {
    var n := limit;
    if n <= 0 {
      n := default_;
    } else if n > max {
      n := max;
    }
    var rows := RunQuery(table, cursor, n + 1);
    QueryIsPage(table, cursor, n);
    out := [];
    for i := 0 to |rows|
      invariant out == rows[..i]
    {
      out := out + [rows[i]];
    }
    assert out == rows;
    hasMore := |out| > n;
    if hasMore {
      out := out[..n];
    }
  }

  /** What a page holds, said of the table's rows: an ordered part after the cursor; a row after the
      cursor is missing only if the page is full, more is reported and the row comes later. */
  lemma PageExact(table: set<Rank>, cursor: Option<Rank>, limit: nat)
    ensures var p := PageOf(table, cursor, limit);
            && Ordered(p.rows)
            && (forall r :: r in p.rows ==> r in After(table, cursor))
            && (forall r, q :: r in After(table, cursor) && r !in p.rows && q in p.rows ==> Before(q, r))
            && (p.hasMore <==> |After(table, cursor)| > limit)
            && |p.rows| == if p.hasMore then limit else |After(table, cursor)|
    ensures !PageOf(table, cursor, limit).hasMore ==> forall r :: r in After(table, cursor) ==>
              r in PageOf(table, cursor, limit).rows
  {
    var s := After(table, cursor);
    SortedIsListing(s);
    var all, p := Sorted(s), PageOf(table, cursor, limit);
    forall r, q | r in s && r !in p.rows && q in p.rows
      ensures Before(q, r)
    {
      assert r in all;
      var i :| 0 <= i < |all| && all[i] == r;
      var j :| 0 <= j < |p.rows| && p.rows[j] == q;
      assert p.rows == all[..|p.rows|];
      assert r == all[i] && q == all[j] && i != j;
    }
  }

  // ---- Following the cursor ---------------------------------------------------------------

  /** One request: the table as it is then, and the clamped limit. */
  datatype Visit = Visit(table: set<Rank>, limit: nat)

  /** The handler's next cursor: the last row, when there is more. */
  function NextCursor(p: Page): Option<Rank> {
    if p.hasMore && |p.rows| > 0 then Some(p.rows[|p.rows| - 1]) else None
  }

  /** All rows a client gets by following next cursors until none is returned. */
  ghost function Walk(visits: seq<Visit>, cursor: Option<Rank>): seq<Rank> {
    if visits == [] then []
    else
      var p := PageOf(visits[0].table, cursor, visits[0].limit);
      p.rows + if NextCursor(p).Some? then Walk(visits[1..], NextCursor(p)) else []
  }

  /** The client saw a page without a next cursor. */
  ghost predicate Done(visits: seq<Visit>, cursor: Option<Rank>) {
    visits != [] &&
    var p := PageOf(visits[0].table, cursor, visits[0].limit);
    NextCursor(p).Some? ==> Done(visits[1..], NextCursor(p))
  }

  predicate Positive(visits: seq<Visit>) {
    forall i :: 0 <= i < |visits| ==> visits[i].limit > 0
  }

  ghost predicate Throughout(visits: seq<Visit>, r: Rank) {
    forall i :: 0 <= i < |visits| ==> r in visits[i].table
  }

  ghost predicate Somewhere(visits: seq<Visit>, r: Rank) {
    exists i :: 0 <= i < |visits| && r in visits[i].table
  }

  /** Whatever happens to the table between requests, no row is returned twice, rows come in order,
      and each was in the table of some request. */
  lemma {:induction false} WalkOrdered(visits: seq<Visit>, cursor: Option<Rank>)
    ensures Ordered(Walk(visits, cursor))
    ensures forall r :: r in Walk(visits, cursor) ==> (cursor.Some? ==> Before(cursor.value, r)) && Somewhere(visits, r)
  {
    if visits != [] {
      var p := PageOf(visits[0].table, cursor, visits[0].limit);
      PageExact(visits[0].table, cursor, visits[0].limit);
      var next := NextCursor(p);
      forall r | r in p.rows
        ensures (cursor.Some? ==> Before(cursor.value, r)) && Somewhere(visits, r)
      {
        assert r in visits[0].table;
      }
      if next.Some? {
        WalkOrdered(visits[1..], next);
        var rest := Walk(visits[1..], next);
        assert next.value in p.rows;
        forall r | r in rest
          ensures (cursor.Some? ==> Before(cursor.value, r)) && Somewhere(visits, r)
        {
          var i :| 0 <= i < |visits[1..]| && r in visits[1..][i].table;
          assert r in visits[i + 1].table;
        }
        OrderedJoin(p.rows, rest);
      }
    }
  }

  lemma OrderedJoin(a: seq<Rank>, b: seq<Rank>)
    requires Ordered(a) && Ordered(b) && a != []
    requires forall r :: r in b ==> Before(a[|a| - 1], r)
    ensures Ordered(a + b)
  {
    forall i, j | 0 <= i < j < |a + b|
      ensures Before((a + b)[i], (a + b)[j])
    {
      if i < |a| <= j {
        assert (a + b)[j] in b;
      }
    }
  }

  /** A row in the table at every request is returned, once the client is done. */
  lemma {:induction false} WalkComplete(visits: seq<Visit>, cursor: Option<Rank>, r: Rank)
    requires Positive(visits) && Done(visits, cursor) && Throughout(visits, r)
    requires cursor.Some? ==> Before(cursor.value, r)
    ensures r in Walk(visits, cursor)
  {
    var p := PageOf(visits[0].table, cursor, visits[0].limit);
    PageExact(visits[0].table, cursor, visits[0].limit);
    assert r in After(visits[0].table, cursor);
    if r !in p.rows {
      assert p.hasMore && |p.rows| > 0;
      var next := NextCursor(p);
      assert next.value in p.rows;
      assert forall i :: 0 <= i < |visits[1..]| ==> visits[1..][i] == visits[i + 1];
      WalkComplete(visits[1..], next, r);
    }
  }

  /** Between requests rows may go, and new rows come before every row there is: larger new ids. */
  ghost predicate NewRowsFirst(visits: seq<Visit>) {
    forall i :: 0 < i < |visits| ==>
      forall r, q :: r in visits[i].table && r !in visits[i - 1].table && q in visits[i - 1].table ==> Before(r, q)
  }

  function Capacity(visits: seq<Visit>): nat {
    if visits == [] then 0 else visits[0].limit + Capacity(visits[1..])
  }

  /** The client is done as soon as the pages it was allowed could hold the rows of the first request. */
  lemma {:induction false} WalkTerminates(visits: seq<Visit>, cursor: Option<Rank>)
    requires visits != [] && Positive(visits) && NewRowsFirst(visits)
    requires Capacity(visits) >= |After(visits[0].table, cursor)|
    ensures Done(visits, cursor)
  {
    var p := PageOf(visits[0].table, cursor, visits[0].limit);
    PageExact(visits[0].table, cursor, visits[0].limit);
    if NextCursor(p).Some? {
      assert Capacity(visits) == visits[0].limit + Capacity(visits[1..]);
      assert visits[1..] != [];
      FewerAhead(visits[0].table, visits[1].table, cursor, visits[0].limit);
      assert forall i :: 0 <= i < |visits[1..]| ==> visits[1..][i] == visits[i + 1];
      WalkTerminates(visits[1..], NextCursor(p));
    }
  }

  lemma AheadOfLast(was: set<Rank>, now: set<Rank>, cursor: Option<Rank>, limit: nat, r: Rank)
    requires forall x, q :: x in now && x !in was && q in was ==> Before(x, q)
    requires NextCursor(PageOf(was, cursor, limit)).Some? && r in After(now, NextCursor(PageOf(was, cursor, limit)))
    ensures r in After(was, cursor) && r !in PageOf(was, cursor, limit).rows
  {
    var p := PageOf(was, cursor, limit);
    PageExact(was, cursor, limit);
    LastIsGreatest(p.rows);
    var next := NextCursor(p).value;
    assert next in p.rows && next in After(was, cursor);
    assert r in was || Before(r, next);
  }

  /** A page takes its rows from those ahead, and what comes new is not ahead. */
  lemma FewerAhead(was: set<Rank>, now: set<Rank>, cursor: Option<Rank>, limit: nat)
    requires forall r, q :: r in now && r !in was && q in was ==> Before(r, q)
    requires NextCursor(PageOf(was, cursor, limit)).Some?
    ensures |After(now, NextCursor(PageOf(was, cursor, limit)))| <= |After(was, cursor)| - limit
  {
    var p := PageOf(was, cursor, limit);
    PageExact(was, cursor, limit);
    var first, rest, got := After(was, cursor), After(now, NextCursor(p)), RowSet(p.rows);
    forall r | r in rest
      ensures r in first - got
    {
      AheadOfLast(was, now, cursor, limit, r);
    }
    Distinct(p.rows);
    Subset(rest, first - got);
    assert |first - got| == |first| - |got|;
  }

  lemma Subset(a: set<Rank>, b: set<Rank>)
    requires a <= b
    ensures |a| <= |b|
  {
    assert b == a + (b - a);
  }

  function RowSet(rows: seq<Rank>): set<Rank> {
    set r | r in rows
  }

  lemma LastIsGreatest(rows: seq<Rank>)
    requires Ordered(rows) && rows != []
    ensures forall r :: r in rows ==> r == rows[|rows| - 1] || Before(r, rows[|rows| - 1])
  {
  }

  lemma {:induction false} Distinct(s: seq<Rank>)
    requires Ordered(s)
    ensures |RowSet(s)| == |s|
  {
    if s != [] {
      var n := |s| - 1;
      Distinct(s[..n]);
      assert RowSet(s) == RowSet(s[..n]) + {s[n]} by {
        assert s == s[..n] + [s[n]];
      }
      assert s[n] !in s[..n];
    }
  }

  /** Over a fixed table the pages are exactly the ordered listing. */
  lemma {:induction false} FixedWalk(visits: seq<Visit>, table: set<Rank>)
    requires Positive(visits) && Done(visits, None)
    requires forall i :: 0 <= i < |visits| ==> visits[i].table == table
    ensures Walk(visits, None) == Sorted(table)
  {
    WalkOrdered(visits, None);
    SortedIsListing(table);
    forall r
      ensures r in Walk(visits, None) <==> r in Sorted(table)
    {
      if r in table {
        WalkComplete(visits, None, r);
      }
    }
    OrderedUnique(Walk(visits, None), Sorted(table));
  }

  // ---- Lists by descending id -------------------------------------------------------------

  function IdRank(id: int): Rank {
    Rank(-id, 0, 0)
  }

  function IdTable(ids: set<int>): set<Rank> {
    set id | id in ids :: IdRank(id)
  }

  /** before_id = 0 means from the top. */
  function IdCursor(beforeID: int): Option<Rank> {
    if beforeID == 0 then None else Some(IdRank(beforeID))
  }

  ghost predicate OnlyLargerIds(was: set<int>, now: set<int>) {
    forall x, y :: x in now && x !in was && y in was ==> x > y
  }

  /** For id lists the condition holds when new rows take ids above all present ones. */
  lemma IdsGrow(tables: seq<set<int>>, visits: seq<Visit>)
    requires |visits| == |tables| && forall i :: 0 <= i < |tables| ==> visits[i].table == IdTable(tables[i])
    requires forall i :: 0 < i < |tables| ==> OnlyLargerIds(tables[i - 1], tables[i])
    ensures NewRowsFirst(visits)
  {
  }

  function Ids(rows: seq<Rank>): seq<int> {
    seq(|rows|, i requires 0 <= i < |rows| => -rows[i].a)
  }

  /** What a client of an id list gets: each page's rows, the last id sent back as before_id. */
  ghost function IdWalk(visits: seq<Visit>, cursor: Option<Rank>): seq<Rank>
    decreases |visits|
  {
    if visits == [] then []
    else
      var p := PageOf(visits[0].table, cursor, visits[0].limit);
      p.rows + if NextCursor(p).Some? then IdWalk(visits[1..], Sent(NextCursor(p).value)) else []
  }

  /** The last row's id, sent back as before_id. */
  function Sent(last: Rank): Option<Rank> {
    IdCursor(-last.a)
  }

  function IdVisits(tables: seq<set<int>>, limits: seq<nat>): seq<Visit>
    requires |tables| == |limits|
  {
    seq(|tables|, i requires 0 <= i < |tables| => Visit(IdTable(tables[i]), limits[i]))
  }

  ghost predicate PositiveIds(tables: seq<set<int>>) {
    forall i :: 0 <= i < |tables| ==> forall x :: x in tables[i] ==> x > 0
  }

  /** Rows of an id list: a rank of a positive id. */
  ghost predicate IdRows(rows: set<Rank>) {
    forall r :: r in rows ==> r == IdRank(-r.a) && r.a < 0
  }

  ghost predicate AllIdRows(visits: seq<Visit>) {
    visits == [] || (IdRows(visits[0].table) && AllIdRows(visits[1..]))
  }

  lemma {:induction false} VisitsHaveIdRows(tables: seq<set<int>>, limits: seq<nat>)
    requires |tables| == |limits| && PositiveIds(tables)
    ensures AllIdRows(IdVisits(tables, limits))
  {
    if tables != [] {
      VisitsHaveIdRows(tables[1..], limits[1..]);
      assert IdVisits(tables, limits)[1..] == IdVisits(tables[1..], limits[1..]);
    }
  }

  /** The id sent back stands for the last row again. */
  lemma SentIsNext(rows: set<Rank>, cursor: Option<Rank>, limit: nat)
    requires IdRows(rows)
    ensures var next := NextCursor(PageOf(rows, cursor, limit)); next.Some? ==> Sent(next.value) == next
  {
    var p := PageOf(rows, cursor, limit);
    PageExact(rows, cursor, limit);
    if NextCursor(p).Some? {
      var last := NextCursor(p).value;
      assert last in p.rows;
      assert last in After(rows, cursor);
    }
  }

  lemma {:induction false} IdWalkIsWalk(visits: seq<Visit>, cursor: Option<Rank>)
    requires AllIdRows(visits)
    ensures IdWalk(visits, cursor) == Walk(visits, cursor)
    decreases |visits|
  {
    if visits != [] {
      SentIsNext(visits[0].table, cursor, visits[0].limit);
      var next := NextCursor(PageOf(visits[0].table, cursor, visits[0].limit));
      if next.Some? {
        IdWalkIsWalk(visits[1..], next);
      }
    }
  }

  lemma {:induction false} IdCapacity(tables: seq<set<int>>, limits: seq<nat>)
    requires |tables| == |limits|
    ensures Capacity(IdVisits(tables, limits)) == Sum(limits)
  {
    if limits != [] {
      assert IdVisits(tables, limits)[1..] == IdVisits(tables[1..], limits[1..]);
      IdCapacity(tables[1..], limits[1..]);
    }
  }

  lemma {:induction false} IdTableSize(ids: set<int>)
    ensures |IdTable(ids)| == |ids|
  {
    if ids != {} {
      var x := Member(ids);
      IdTableSize(ids - {x});
      assert IdTable(ids) == IdTable(ids - {x}) + {IdRank(x)};
      assert IdRank(x) !in IdTable(ids - {x});
    }
  }

  /** An id list followed to its end while rows are deleted and rows with larger ids arrive: the ids
      come strictly falling, so none twice; each was in the list at some request; and every id that
      was there at all requests is returned. Pages enough for the first request's rows are enough. */
  lemma {:induction false} IdListWalk(tables: seq<set<int>>, limits: seq<nat>, id: int)
    requires |tables| == |limits| > 0 && PositiveIds(tables)
    requires forall i :: 0 <= i < |limits| ==> limits[i] > 0
    requires forall i :: 0 < i < |tables| ==> OnlyLargerIds(tables[i - 1], tables[i])
    requires Sum(limits) >= |tables[0]|
    ensures var w := Ids(IdWalk(IdVisits(tables, limits), IdCursor(0)));
            && (forall i, j :: 0 <= i < j < |w| ==> w[i] > w[j])
            && (id in w ==> exists i :: 0 <= i < |tables| && id in tables[i])
            && Done(IdVisits(tables, limits), None)
            && ((forall i :: 0 <= i < |tables| ==> id in tables[i]) ==> id in w)
  {
    var visits := IdVisits(tables, limits);
    VisitsHaveIdRows(tables, limits);
    IdWalkIsWalk(visits, None);
    IdsGrow(tables, visits);
    IdCapacity(tables, limits);
    IdTableSize(tables[0]);
    assert After(visits[0].table, None) == IdTable(tables[0]);
    WalkTerminates(visits, None);
    WalkOrdered(visits, None);
    var rows := Walk(visits, None);
    var w := Ids(rows);
    forall k | 0 <= k < |rows|
      ensures rows[k] == IdRank(w[k]) && exists i :: 0 <= i < |tables| && w[k] in tables[i]
    {
      assert rows[k] in rows && Somewhere(visits, rows[k]);
      var i :| 0 <= i < |visits| && rows[k] in visits[i].table;
      var x :| x in tables[i] && rows[k] == IdRank(x);
      assert w[k] == x;
    }
    forall i, j | 0 <= i < j < |w|
      ensures w[i] > w[j]
    {
      assert Before(rows[i], rows[j]);
    }
    if forall i :: 0 <= i < |tables| ==> id in tables[i] {
      WalkComplete(visits, None, IdRank(id));
      var k :| 0 <= k < |rows| && rows[k] == IdRank(id);
      assert w[k] == id;
    }
  }

  const MAX_INT64 := 0x7fff_ffff_ffff_ffff

  lemma FirstBelow(ids: set<int>, id: int, before: int)
    requires forall x :: x in ids ==> 0 < x <= MAX_INT64
    requires 0 < id <= MAX_INT64 && before == if id < MAX_INT64 then id + 1 else 0
    ensures var items := Query(IdTable(ids), IdCursor(before), 1);
            id in ids <==> |items| > 0 && items[0] == IdRank(id)
    ensures forall r :: r in Query(IdTable(ids), IdCursor(before), 1) ==> r == IdRank(-r.a)
  {
    var table, cursor := IdTable(ids), IdCursor(before);
    PageExact(table, cursor, 1);
    var items, rest := Query(table, cursor, 1), After(table, cursor);
    assert items == PageOf(table, cursor, 1).rows;
    forall r | r in rest
      ensures r == IdRank(-r.a) && -r.a in ids && -r.a <= id
    {
      var x :| x in ids && r == IdRank(x);
    }
    assert |items| > 0 ==> items[0] in rest;
    if id in ids {
      assert IdRank(id) in rest;
      assert |items| > 0;
      assert IdRank(id) in items || Before(items[0], IdRank(id));
    }
  }

  /** Reading one asset through the listing: the first row below id + 1 is the asset, if it exists. */
  method CollectibleById(ids: set<int>, id: int) returns (r: Option<int>)
    requires forall x :: x in ids ==> 0 < x <= MAX_INT64
    requires id <= MAX_INT64
    ensures r == if id in ids then Some(id) else None
  {
    if id <= 0 {
      return None;
    }
    var before := 0;
    if id < MAX_INT64 {
      before := id + 1;
    }
    var items := RunQuery(IdTable(ids), IdCursor(before), 1);
    FirstBelow(ids, id, before);
    if |items| == 0 || -items[0].a != id {
      return None;
    }
    r := Some(-items[0].a);
  }

  // ---- The rating list --------------------------------------------------------------------

  datatype Score = Score(level: int, stars: int)

  function RatingRank(user: int, score: Score): Rank {
    Rank(-score.level, -score.stars, user)
  }

  /** The filters: a level, optionally one user, optionally the users a search finds. */
  datatype RatingFilter = RatingFilter(minLevel: int, user: int, found: Option<set<int>>)

  const MAX_LEVEL := 50

  function ClampLevel(level: int): int {
    if level < 0 then 0 else if level > MAX_LEVEL then MAX_LEVEL else level
  }

  function Selected(table: map<int, Score>, f: RatingFilter): set<Rank> {
    set u | u in table && table[u].level >= ClampLevel(f.minLevel) && (f.user == 0 || u == f.user) &&
        (f.found.Some? ==> u in f.found.value)
      :: RatingRank(u, table[u])
  }

  /** The cursor is a user id, resolved against the table as it is now. */
  function RatingCursor(table: map<int, Score>, beforeID: int): Option<Rank> {
    if beforeID != 0 && beforeID in table then Some(RatingRank(beforeID, table[beforeID])) else None
  }

  ghost function RatingPage(table: map<int, Score>, f: RatingFilter, beforeID: int, limit: nat): Page {
    PageOf(Selected(table, f), RatingCursor(table, beforeID), limit)
  }

  /** Following next_before_id, the user id of the last row. */
  ghost function RatingWalk(table: map<int, Score>, f: RatingFilter, beforeID: int, limits: seq<nat>): seq<Rank>
    decreases |limits|
  {
    if limits == [] then []
    else
      var p := RatingPage(table, f, beforeID, limits[0]);
      p.rows + if NextCursor(p).Some? then RatingWalk(table, f, NextCursor(p).value.c, limits[1..]) else []
  }

  function Visits(table: set<Rank>, limits: seq<nat>): seq<Visit> {
    seq(|limits|, i requires 0 <= i < |limits| => Visit(table, limits[i]))
  }

  lemma {:induction false} RatingWalkIsWalk(table: map<int, Score>, f: RatingFilter, beforeID: int, limits: seq<nat>)
    requires 0 !in table
    ensures RatingWalk(table, f, beforeID, limits) ==
              Walk(Visits(Selected(table, f), limits), RatingCursor(table, beforeID))
    decreases |limits|
  {
    if limits != [] {
      var p := RatingPage(table, f, beforeID, limits[0]);
      PageExact(Selected(table, f), RatingCursor(table, beforeID), limits[0]);
      var next := NextCursor(p);
      assert Visits(Selected(table, f), limits)[1..] == Visits(Selected(table, f), limits[1..]);
      if next.Some? {
        assert next.value in p.rows;
        assert next.value in Selected(table, f);
        assert RatingCursor(table, next.value.c) == next;
        RatingWalkIsWalk(table, f, next.value.c, limits[1..]);
      }
    }
  }

  function Sum(limits: seq<nat>): nat {
    if limits == [] then 0 else limits[0] + Sum(limits[1..])
  }

  lemma {:induction false} CapacityIsSum(table: set<Rank>, limits: seq<nat>)
    ensures Capacity(Visits(table, limits)) == Sum(limits)
  {
    if limits != [] {
      assert Visits(table, limits)[1..] == Visits(table, limits[1..]);
      CapacityIsSum(table, limits[1..]);
    }
  }

  /** Over a fixed table, enough pages of any sizes give exactly the filtered rows in the order
      level descending, stars descending, user ascending. */
  lemma RatingListExact(table: map<int, Score>, f: RatingFilter, limits: seq<nat>)
    requires 0 !in table
    requires limits != [] && (forall i :: 0 <= i < |limits| ==> limits[i] > 0) && Sum(limits) >= |Selected(table, f)|
    ensures RatingWalk(table, f, 0, limits) == Sorted(Selected(table, f))
  {
    var rows := Selected(table, f);
    var visits := Visits(rows, limits);
    RatingWalkIsWalk(table, f, 0, limits);
    CapacityIsSum(rows, limits);
    assert After(rows, None) == rows;
    WalkTerminates(visits, None);
    FixedWalk(visits, rows);
  }

  ghost predicate Admitted(table: map<int, Score>, f: RatingFilter, u: int) {
    && u in table
    && table[u].level >= (if f.minLevel < 0 then 0 else if f.minLevel > 50 then 50 else f.minLevel)
    && (f.user == 0 || u == f.user)
    && (f.found.None? || u in f.found.value)
  }

  /** The same said of users and scores: every row is a user's own, a user is listed exactly if level, user
      and search admit it, and of two rows the first has more level, or as much and more stars, or as much
      of both and the smaller id. */
  lemma RatingListOrder(table: map<int, Score>, f: RatingFilter, limits: seq<nat>)
    requires 0 !in table
    requires limits != [] && (forall i :: 0 <= i < |limits| ==> limits[i] > 0) && Sum(limits) >= |Selected(table, f)|
    ensures var w := RatingWalk(table, f, 0, limits);
            && (forall r :: r in w ==> r.c in table && r.a == -table[r.c].level && r.b == -table[r.c].stars)
            && (forall u :: (exists r :: r in w && r.c == u) <==> Admitted(table, f, u))
            && (forall i, j :: 0 <= i < j < |w| ==>
                  w[i].c in table && w[j].c in table && RanksBefore(table[w[i].c], w[i].c, table[w[j].c], w[j].c))
  {
    RatingListExact(table, f, limits);
    var w, rows := RatingWalk(table, f, 0, limits), Selected(table, f);
    SortedIsListing(rows);
    forall u
      ensures (exists r :: r in w && r.c == u) <==> Admitted(table, f, u)
    {
      if Admitted(table, f, u) {
        assert RatingRank(u, table[u]) in rows && RatingRank(u, table[u]) in w;
      }
    }
    forall i, j | 0 <= i < j < |w|
      ensures w[i].c in table && w[j].c in table && RanksBefore(table[w[i].c], w[i].c, table[w[j].c], w[j].c)
    {
      assert w[i] in w && w[j] in w;
      assert w[i] in rows && w[j] in rows;
      SelectedHere(table, f, w[i]);
      SelectedHere(table, f, w[j]);
      assert Before(w[i], w[j]);
    }
  }

  predicate RanksBefore(x: Score, xUser: int, y: Score, yUser: int) {
    || x.level > y.level
    || (x.level == y.level && x.stars > y.stars)
    || (x.level == y.level && x.stars == y.stars && xUser < yUser)
  }

  /** A lost cursor row restarts the list. When rows are only deleted between two requests, the second
      page repeats a row of the first exactly if the cursor's row was deleted while another row of the
      first page was not. */
  lemma RatingCursorLost(before: map<int, Score>, now: map<int, Score>, f: RatingFilter, n: nat, m: nat)
    requires 0 !in before && n > 0 && m > 0
    requires forall u :: u in now ==> u in before && now[u] == before[u]
    requires RatingPage(before, f, 0, n).hasMore
    ensures var p := RatingPage(before, f, 0, n);
            var cursor := p.rows[|p.rows| - 1];
            var next := RatingPage(now, f, cursor.c, m);
            (exists r :: r in p.rows && r in next.rows) <==> cursor.c !in now && exists r :: r in p.rows && r.c in now
  {
    var p := RatingPage(before, f, 0, n);
    PageExact(Selected(before, f), None, n);
    var cursor := p.rows[|p.rows| - 1];
    assert cursor in p.rows && cursor in Selected(before, f);
    assert cursor == RatingRank(cursor.c, before[cursor.c]);
    var next := RatingPage(now, f, cursor.c, m);
    PageExact(Selected(now, f), RatingCursor(now, cursor.c), m);
    forall r | r in p.rows
      ensures r in Selected(before, f) && (r in next.rows ==> r.c in now && cursor.c !in now)
    {
      var i :| 0 <= i < |p.rows| && p.rows[i] == r;
      assert r == cursor || Before(r, cursor);
      if r in next.rows {
        assert r in Selected(now, f);
      }
    }
    if cursor.c !in now && exists r :: r in p.rows && r.c in now {
      var r :| r in p.rows && r.c in now;
      LeastSurvivor(before, now, f, n, m, r);
    }
  }

  lemma LeastSurvivor(before: map<int, Score>, now: map<int, Score>, f: RatingFilter, n: nat, m: nat, r: Rank)
    requires m > 0
    requires forall u :: u in now ==> u in before && now[u] == before[u]
    requires r in RatingPage(before, f, 0, n).rows && r.c in now
    ensures exists q :: q in RatingPage(before, f, 0, n).rows && q in PageOf(Selected(now, f), None, m).rows
  {
    var p, next := RatingPage(before, f, 0, n), PageOf(Selected(now, f), None, m);
    PageExact(Selected(before, f), None, n);
    PageExact(Selected(now, f), None, m);
    assert r in Selected(before, f);
    assert r == RatingRank(r.c, now[r.c]) && r in Selected(now, f);
    assert r in After(Selected(now, f), None);
    assert |next.rows| > 0;
    var q := next.rows[0];
    assert q in next.rows && q in Selected(now, f);
    assert q in After(Selected(before, f), None);
    if r in next.rows {
    } else {
      assert Before(q, r);
    }
  }

  // ---- A rating walk while rows are deleted ---------------------------------------------------

  function LastUser(got: seq<Rank>): int {
    if got == [] then 0 else got[|got| - 1].c
  }

  /** All rows a client has got in the end, who has `got` already and follows the last row's user. */
  ghost function RatingsGot(tables: seq<map<int, Score>>, f: RatingFilter, limits: seq<nat>, got: seq<Rank>): seq<Rank>
    requires |tables| == |limits|
  {
    if tables == [] then got
    else
      var p := RatingPage(tables[0], f, LastUser(got), limits[0]);
      if NextCursor(p).Some? then RatingsGot(tables[1..], f, limits[1..], got + p.rows) else got + p.rows
  }

  /** The cursor's row is gone while a row returned before is still there. */
  predicate PlaceLost(table: map<int, Score>, got: seq<Rank>) {
    got != [] && LastUser(got) !in table && exists r :: r in got && r.c in table
  }

  /** Some request of the walk has lost its place. */
  ghost predicate LosesPlace(tables: seq<map<int, Score>>, f: RatingFilter, limits: seq<nat>, got: seq<Rank>)
    requires |tables| == |limits|
  {
    tables != [] &&
    ( || PlaceLost(tables[0], got)
      || var p := RatingPage(tables[0], f, LastUser(got), limits[0]);
         NextCursor(p).Some? && LosesPlace(tables[1..], f, limits[1..], got + p.rows))
  }

  ghost predicate Repeats(s: seq<Rank>) {
    exists i, j :: 0 <= i < j < |s| && s[i] == s[j]
  }

  ghost predicate OnlyDeleted(was: map<int, Score>, now: map<int, Score>) {
    forall u :: u in now ==> u in was && now[u] == was[u]
  }

  ghost predicate OnlyDeletions(tables: seq<map<int, Score>>) {
    forall i, j :: 0 <= i < j < |tables| ==> OnlyDeleted(tables[i], tables[j])
  }

  /** What was returned came from the list, and whatever is listed at or before it was returned too. */
  ghost predicate Prefix(table: map<int, Score>, f: RatingFilter, got: seq<Rank>) {
    && (forall r :: r in got && r.c in table ==> r in Selected(table, f))
    && (forall x, r :: x in Selected(table, f) && r in got && (x == r || Before(x, r)) ==> x in got)
  }

  /** What was returned is at or before the cursor, or gone. */
  ghost predicate Behind(table: map<int, Score>, got: seq<Rank>) {
    forall r :: r in got ==> r == got[|got| - 1] || Before(r, got[|got| - 1]) || r.c !in table
  }

  lemma SelectedHere(table: map<int, Score>, f: RatingFilter, r: Rank)
    requires r in Selected(table, f)
    ensures r.c in table && r == RatingRank(r.c, table[r.c])
  {
  }

  lemma PrefixAfterDeletion(was: map<int, Score>, now: map<int, Score>, f: RatingFilter, got: seq<Rank>)
    requires OnlyDeleted(was, now) && Prefix(was, f, got)
    ensures Prefix(now, f, got)
  {
    forall r | r in got && r.c in now
      ensures r in Selected(now, f)
    {
      assert r in Selected(was, f);
      SelectedHere(was, f, r);
    }
    forall x | x in Selected(now, f)
      ensures x in Selected(was, f)
    {
      SelectedHere(now, f, x);
    }
  }

  /** Where the next page starts: after the last row got, or again from the top. */
  lemma CursorOf(table: map<int, Score>, f: RatingFilter, got: seq<Rank>)
    requires 0 !in table && Prefix(table, f, got)
    ensures RatingCursor(table, LastUser(got)) ==
            if got != [] && LastUser(got) in table then Some(got[|got| - 1]) else None
  {
    if got != [] && LastUser(got) in table {
      var last := got[|got| - 1];
      assert last in got;
      SelectedHere(table, f, last);
    }
  }

  lemma PrefixGrows(table: map<int, Score>, f: RatingFilter, got: seq<Rank>, limit: nat)
    requires 0 !in table && Prefix(table, f, got)
    ensures Prefix(table, f, got + RatingPage(table, f, LastUser(got), limit).rows)
  {
    var cursor := RatingCursor(table, LastUser(got));
    var all := Selected(table, f);
    var p := RatingPage(table, f, LastUser(got), limit);
    PageExact(all, cursor, limit);
    CursorOf(table, f, got);
    forall x, r | x in all && r in p.rows && (x == r || Before(x, r))
      ensures x in got || x in p.rows
    {
      if x in After(all, cursor) {
        assert x in p.rows || Before(r, x);
      } else {
        assert cursor.Some? && cursor.value in got;
      }
    }
  }

  lemma PageIsNew(table: map<int, Score>, f: RatingFilter, got: seq<Rank>, limit: nat, r: Rank)
    requires 0 !in table && Prefix(table, f, got) && Behind(table, got) && !PlaceLost(table, got)
    requires r in RatingPage(table, f, LastUser(got), limit).rows
    ensures r !in got
  {
    PageExact(Selected(table, f), RatingCursor(table, LastUser(got)), limit);
    CursorOf(table, f, got);
    SelectedHere(table, f, r);
  }

  lemma BehindLast(table: map<int, Score>, f: RatingFilter, got: seq<Rank>, limit: nat, r: Rank)
    requires 0 !in table && Prefix(table, f, got) && Behind(table, got) && !PlaceLost(table, got)
    requires var rows := RatingPage(table, f, LastUser(got), limit).rows; rows != [] && (r in got || r in rows)
    ensures var rows := RatingPage(table, f, LastUser(got), limit).rows;
            r == rows[|rows| - 1] || Before(r, rows[|rows| - 1]) || r.c !in table
  {
    var cursor := RatingCursor(table, LastUser(got));
    var rows := RatingPage(table, f, LastUser(got), limit).rows;
    PageExact(Selected(table, f), cursor, limit);
    CursorOf(table, f, got);
    LastIsGreatest(rows);
    assert rows[|rows| - 1] in rows;
  }

  lemma BehindGrows(table: map<int, Score>, f: RatingFilter, got: seq<Rank>, limit: nat)
    requires 0 !in table && Prefix(table, f, got) && Behind(table, got) && !PlaceLost(table, got)
    ensures var p := RatingPage(table, f, LastUser(got), limit);
            && (p.rows != [] ==> Behind(table, got + p.rows))
            && (forall r :: r in p.rows ==> r !in got)
            && Ordered(p.rows)
  {
    var p := RatingPage(table, f, LastUser(got), limit);
    PageExact(Selected(table, f), RatingCursor(table, LastUser(got)), limit);
    forall r | r in p.rows
      ensures r !in got
    {
      PageIsNew(table, f, got, limit, r);
    }
    if p.rows != [] {
      forall r | r in got + p.rows
        ensures r == p.rows[|p.rows| - 1] || Before(r, p.rows[|p.rows| - 1]) || r.c !in table
      {
        BehindLast(table, f, got, limit, r);
      }
    }
  }

  lemma JoinNoRepeat(a: seq<Rank>, b: seq<Rank>)
    requires !Repeats(a) && Ordered(b) && forall r :: r in b ==> r !in a
    ensures !Repeats(a + b)
  {
    var s := a + b;
    forall i, j | 0 <= i < j < |s|
      ensures s[i] != s[j]
    {
      if i < |a| <= j {
        assert s[i] in a && s[j] in b;
      } else if |a| <= i {
        assert Before(b[i - |a|], b[j - |a|]);
      }
    }
  }

  lemma RepeatsStay(a: seq<Rank>, b: seq<Rank>)
    requires Repeats(a)
    ensures Repeats(a + b)
  {
    var i, j :| 0 <= i < j < |a| && a[i] == a[j];
    assert (a + b)[i] == (a + b)[j];
  }

  lemma {:induction false} GotStays(tables: seq<map<int, Score>>, f: RatingFilter, limits: seq<nat>, got: seq<Rank>)
    requires |tables| == |limits| && Repeats(got)
    ensures Repeats(RatingsGot(tables, f, limits, got))
  {
    if tables != [] {
      var p := RatingPage(tables[0], f, LastUser(got), limits[0]);
      RepeatsStay(got, p.rows);
      if NextCursor(p).Some? {
        GotStays(tables[1..], f, limits[1..], got + p.rows);
      }
    }
  }

  /** A request that has lost its place returns the first row still listed, which it returned before. */
  lemma LostRepeats(table: map<int, Score>, f: RatingFilter, got: seq<Rank>, limit: nat)
    requires 0 !in table && limit > 0 && Prefix(table, f, got) && PlaceLost(table, got)
    ensures Repeats(got + RatingPage(table, f, LastUser(got), limit).rows)
  {
    var all := Selected(table, f);
    var p := RatingPage(table, f, LastUser(got), limit);
    PageExact(all, None, limit);
    CursorOf(table, f, got);
    var r :| r in got && r.c in table;
    assert r in After(all, None);
    var q := p.rows[0];
    assert q in p.rows;
    assert q == r || Before(q, r) by {
      if r in p.rows {
        var i :| 0 <= i < |p.rows| && p.rows[i] == r;
      }
    }
    assert q in got;
    var i :| 0 <= i < |got| && got[i] == q;
    assert (got + p.rows)[i] == (got + p.rows)[|got|];
  }

  /** While rows are only deleted, a walk of any length over the rating list returns some row twice if
      and only if some request's cursor row is gone while a row returned before is still there. */
  lemma RatingWalkRepeats(tables: seq<map<int, Score>>, f: RatingFilter, limits: seq<nat>)
    requires |tables| == |limits| && OnlyDeletions(tables) && (tables != [] ==> 0 !in tables[0])
    requires forall i :: 0 <= i < |limits| ==> limits[i] > 0
    ensures Repeats(RatingsGot(tables, f, limits, [])) <==> LosesPlace(tables, f, limits, [])
  {
    WalkRepeatsFrom(tables, f, limits, []);
  }

  lemma {:induction false} WalkRepeatsFrom(tables: seq<map<int, Score>>, f: RatingFilter, limits: seq<nat>,
                                           got: seq<Rank>)
    requires |tables| == |limits| && OnlyDeletions(tables) && !Repeats(got)
    requires forall i :: 0 <= i < |limits| ==> limits[i] > 0
    requires tables != [] ==> 0 !in tables[0] && Prefix(tables[0], f, got) && Behind(tables[0], got)
    ensures Repeats(RatingsGot(tables, f, limits, got)) <==> LosesPlace(tables, f, limits, got)
  {
    if tables != [] {
      var table, limit := tables[0], limits[0];
      var p := RatingPage(table, f, LastUser(got), limit);
      var longer := got + p.rows;
      if PlaceLost(table, got) {
        LostRepeats(table, f, got, limit);
        if NextCursor(p).Some? {
          GotStays(tables[1..], f, limits[1..], longer);
        }
      } else {
        BehindGrows(table, f, got, limit);
        PrefixGrows(table, f, got, limit);
        JoinNoRepeat(got, p.rows);
        if NextCursor(p).Some? {
          NextTable(tables, f, longer);
          WalkRepeatsFrom(tables[1..], f, limits[1..], longer);
        }
      }
    }
  }

  lemma NextTable(tables: seq<map<int, Score>>, f: RatingFilter, got: seq<Rank>)
    requires tables != [] && OnlyDeletions(tables) && 0 !in tables[0] && Prefix(tables[0], f, got)
    requires Behind(tables[0], got)
    ensures OnlyDeletions(tables[1..])
    ensures |tables| > 1 ==> 0 !in tables[1] && Prefix(tables[1], f, got) && Behind(tables[1], got)
  {
    if |tables| > 1 {
      assert OnlyDeleted(tables[0], tables[1]);
      PrefixAfterDeletion(tables[0], tables[1], f, got);
    }
  }

  const NO_FILTER := RatingFilter(0, 0, None)

  lemma ThreeSelected(table: map<int, Score>, x: int, y: int, z: int, score: Score)
    requires table == map[x := score, y := score, z := score] && score.level >= 0
    ensures Selected(table, NO_FILTER) == {RatingRank(x, score), RatingRank(y, score), RatingRank(z, score)}
  {
    assert x in table && y in table && z in table;
  }

  lemma ThreeSorted(a: Rank, b: Rank, c: Rank)
    requires Before(a, b) && Before(b, c)
    ensures PageOf({a, b, c}, None, 2) == Page([a, b], true)
  {
    SortedIsListing({a, b, c});
    assert Ordered([a, b, c]);
    OrderedUnique(Sorted({a, b, c}), [a, b, c]);
    assert After({a, b, c}, None) == {a, b, c};
    assert [a, b, c][..2] == [a, b];
  }

  /** Any three users of one score, the second of a page of two deleted before the next request: the
      first comes again. */
  lemma DeletedCursorRepeats(x: int, y: int, z: int, score: Score)
    returns (tables: seq<map<int, Score>>, limits: seq<nat>)
    requires 0 < x < y < z && score.level >= 0
    ensures |tables| == |limits| && OnlyDeletions(tables) && Repeats(RatingsGot(tables, NO_FILTER, limits, []))
  {
    var before, now := map[x := score, y := score, z := score], map[x := score, z := score];
    var a, b, c := RatingRank(x, score), RatingRank(y, score), RatingRank(z, score);
    ThreeSelected(before, x, y, z, score);
    ThreeSorted(a, b, c);
    tables, limits := LostOnSecond(before, now, NO_FILTER, 2, a, b);
  }

  lemma LostOnSecond(before: map<int, Score>, now: map<int, Score>, f: RatingFilter, limit: nat, a: Rank, b: Rank)
    returns (tables: seq<map<int, Score>>, limits: seq<nat>)
    requires 0 !in before && limit > 0 && OnlyDeleted(before, now) && b.c !in now && a.c in now
    requires PageOf(Selected(before, f), None, limit) == Page([a, b], true)
    ensures |tables| == |limits| && OnlyDeletions(tables) && Repeats(RatingsGot(tables, f, limits, []))
  {
    tables, limits := [before, now], [limit, limit];
    var p := RatingPage(before, f, 0, limit);
    assert [] + p.rows == p.rows;
    assert a in p.rows && LastUser(p.rows) == b.c;
    assert PlaceLost(now, p.rows);
    assert LosesPlace(tables[1..], f, limits[1..], p.rows);
    assert LosesPlace(tables, f, limits, []);
    RatingWalkRepeats(tables, f, limits);
  }
}
