/**
 Keyset pagination over any row type. The table is a finite set of rows, lt is the ORDER BY
 (strictly before) and after(c, r) is the WHERE clause built from the cursor of row c. A page
 over-fetches by one row; when there is one more, the next cursor is the last row shown.
 */
module Pagination {
  import opened Wrappers

  type Rel<!T(!new)> = (T, T) -> bool

  datatype Page<T> = Page(items: seq<T>, next: Option<T>)

  /** Transitivity at three rows; proofs name the rows they use it for. */
  ghost predicate Chain<T(!new)>(lt: Rel<T>, x: T, y: T, z: T) {
    lt(x, y) && lt(y, z) ==> lt(x, z)
  }

  ghost predicate StrictOn<T(!new)>(lt: Rel<T>, s: set<T>) {
    && (forall x {:trigger lt(x, x)} | x in s :: !lt(x, x))
    && (forall x, y, z {:trigger Chain(lt, x, y, z)} | x in s && y in s && z in s :: Chain(lt, x, y, z))
  }

  ghost predicate TotalOn<T(!new)>(lt: Rel<T>, s: set<T>) {
    forall x, y {:trigger lt(x, y)} | x in s && y in s && x != y :: lt(x, y) || lt(y, x)
  }

  ghost predicate OrderOn<T(!new)>(lt: Rel<T>, s: set<T>) {
    StrictOn(lt, s) && TotalOn(lt, s)
  }

  ghost predicate Ascending<T(!new)>(lt: Rel<T>, rows: seq<T>) {
    forall i, j {:trigger lt(rows[i], rows[j])} | 0 <= i < j < |rows| :: lt(rows[i], rows[j])
  }

  ghost predicate IsLeast<T(!new)>(lt: Rel<T>, s: set<T>, m: T) {
    m in s && forall x | x in s && x != m :: lt(m, x)
  }

  lemma {:induction false} LeastExists<T(!new)>(lt: Rel<T>, s: set<T>)
    requires OrderOn(lt, s) && s != {}
    ensures exists m :: IsLeast(lt, s, m)
    decreases |s|
  {
    var x :| x in s;
    var rest := s - {x};
    if rest == {} {
      assert s == {x};
      assert IsLeast(lt, s, x);
    } else {
      LeastExists(lt, rest);
      var m :| IsLeast(lt, rest, m);
      if lt(x, m) {
        forall y | y in s && y != x ensures lt(x, y) {
          assert Chain(lt, x, m, y);
        }
        assert IsLeast(lt, s, x);
      } else {
        assert IsLeast(lt, s, m);
      }
    }
  }

  /** SELECT ... ORDER BY lt */
  ghost function Sorted<T(!new)>(lt: Rel<T>, s: set<T>): (rows: seq<T>)
    requires OrderOn(lt, s)
    ensures |rows| == |s|
    ensures forall x :: x in rows <==> x in s
    ensures Ascending(lt, rows)
    decreases |s|
  {
    if s == {} then []
    else
      LeastExists(lt, s);
      var m :| IsLeast(lt, s, m);
      [m] + Sorted(lt, s - {m})
  }

  /** An ascending listing of a table starts with its least row and goes on with the others. */
  lemma AscendingHead<T(!new)>(lt: Rel<T>, s: set<T>, rows: seq<T>)
    requires StrictOn(lt, s) && Ascending(lt, rows) && rows != []
    requires forall x :: x in rows <==> x in s
    ensures IsLeast(lt, s, rows[0])
    ensures forall x :: x in rows[1..] <==> x in s - {rows[0]}
  {
    assert rows[0] in rows;
    forall x | x in s && x != rows[0] ensures lt(rows[0], x) && x in rows[1..] {
      assert x in rows;
      var i :| 0 <= i < |rows| && rows[i] == x;
      assert lt(rows[0], rows[i]);
      assert rows[1..][i - 1] == x;
    }
    forall x | x in rows[1..] ensures x in s - {rows[0]} {
      var i :| 0 <= i < |rows[1..]| && rows[1..][i] == x;
      assert rows[i + 1] == x && lt(rows[0], rows[i + 1]);
    }
  }

  lemma {:induction false} AscendingUnique<T(!new)>(lt: Rel<T>, s: set<T>, a: seq<T>, b: seq<T>)
    requires StrictOn(lt, s) && Ascending(lt, a) && Ascending(lt, b)
    requires forall x :: x in a <==> x in s
    requires forall x :: x in b <==> x in s
    ensures a == b
    decreases |a|
  {
    assert a != [] ==> a[0] in a;
    assert b != [] ==> b[0] in b;
    if a != [] && b != [] {
      AscendingHead(lt, s, a);
      AscendingHead(lt, s, b);
      assert a[0] == b[0] by {
        assert Chain(lt, a[0], b[0], a[0]);
      }
      AscendingTail(lt, s, a, b);
      AscendingUnique(lt, s - {a[0]}, a[1..], b[1..]);
      assert a == [a[0]] + a[1..] && b == [b[0]] + b[1..];
    }
  }

  lemma AscendingTail<T(!new)>(lt: Rel<T>, s: set<T>, a: seq<T>, b: seq<T>)
    requires StrictOn(lt, s) && Ascending(lt, a) && Ascending(lt, b) && a != [] && b != []
    ensures StrictOn(lt, s - {a[0]}) && Ascending(lt, a[1..]) && Ascending(lt, b[1..])
  {
    forall i, j | 0 <= i < j < |a[1..]| ensures lt(a[1..][i], a[1..][j]) {
      assert lt(a[i + 1], a[j + 1]);
    }
    forall i, j | 0 <= i < j < |b[1..]| ensures lt(b[1..][i], b[1..][j]) {
      assert lt(b[i + 1], b[j + 1]);
    }
  }

  /** The sorted listing of a table is the only ascending one. */
  lemma SortedUnique<T(!new)>(lt: Rel<T>, s: set<T>, rows: seq<T>)
    requires OrderOn(lt, s) && Ascending(lt, rows)
    requires forall x :: x in rows <==> x in s
    ensures rows == Sorted(lt, s)
  {
    AscendingUnique(lt, s, rows, Sorted(lt, s));
  }

  lemma JoinPages<T>(rows: seq<T>, i: nat, n: nat, walk: seq<T>)
    requires i + n <= |rows| && walk == rows[i..][..n] + rows[i + n..]
    ensures walk == rows[i..]
  {
  }

  /** The rows the WHERE clause of a cursor keeps; no cursor keeps them all. */
  function Rest<T(!new)>(after: Rel<T>, table: set<T>, cursor: Option<T>): set<T> {
    match cursor
    case None => table
    case Some(c) => set r | r in table && after(c, r)
  }

  /** LIMIT limit + 1, show the first limit rows, and offer a cursor when there was one more. */
  function Cut<T(!new)>(rows: seq<T>, limit: nat): Page<T>
    requires limit >= 1
  {
    if |rows| > limit then Page(rows[..limit], Some(rows[limit - 1])) else Page(rows, None)
  }

  ghost function PageOf<T(!new)>(lt: Rel<T>, after: Rel<T>, table: set<T>, cursor: Option<T>, limit: nat): Page<T>
    requires OrderOn(lt, table) && limit >= 1
  {
    Cut(Sorted(lt, Rest(after, table, cursor)), limit)
  }

  /** All items of the walk that follows next cursors from the given one on a fixed table. */
  ghost function Walk<T(!new)>(lt: Rel<T>, after: Rel<T>, table: set<T>, cursor: Option<T>, limit: nat): seq<T>
    requires OrderOn(lt, table) && StrictOn(after, table) && limit >= 1
    requires cursor.Some? ==> cursor.value in table
    decreases |Rest(after, table, cursor)|
  {
    var page := PageOf(lt, after, table, cursor, limit);
    if page.next.None? then page.items
    else
      NextShrinks(lt, after, table, cursor, limit);
      page.items + Walk(lt, after, table, page.next, limit)
  }

  /** Following a cursor always leaves strictly fewer rows, so every walk ends. */
  lemma NextShrinks<T(!new)>(lt: Rel<T>, after: Rel<T>, table: set<T>, cursor: Option<T>, limit: nat)
    requires OrderOn(lt, table) && StrictOn(after, table) && limit >= 1
    requires cursor.Some? ==> cursor.value in table
    requires PageOf(lt, after, table, cursor, limit).next.Some?
    ensures PageOf(lt, after, table, cursor, limit).next.value in table
    ensures |Rest(after, table, PageOf(lt, after, table, cursor, limit).next)| < |Rest(after, table, cursor)|
  {
    var rest := Rest(after, table, cursor);
    var rows := Sorted(lt, rest);
    var last := rows[limit - 1];
    assert last in rows;
    assert last in rest;
    var fewer := Rest(after, table, Some(last));
    forall r | r in fewer ensures r in rest && r != last {
      if cursor.Some? {
        assert Chain(after, cursor.value, last, r);
      }
    }
    assert fewer <= rest - {last};
    SubsetSize(fewer, rest - {last});
  }

  // ---- Exactness on a fixed table ----

  /** The cursor predicate says "strictly after this row in the ORDER BY". */
  ghost predicate Agree<T(!new)>(lt: Rel<T>, after: Rel<T>, table: set<T>) {
    forall c, r {:trigger after(c, r)} {:trigger lt(c, r)} | c in table && r in table :: after(c, r) <==> lt(c, r)
  }

  /** For every page size, the concatenated pages are the sorted table, each row once. */
  ghost predicate WalkExact<T(!new)>(lt: Rel<T>, after: Rel<T>, table: set<T>)
    requires OrderOn(lt, table) && StrictOn(after, table)
  {
    forall limit: nat | limit >= 1 :: Walk(lt, after, table, None, limit) == Sorted(lt, table)
  }

  lemma NeverBefore<T(!new)>(lt: Rel<T>, s: set<T>, rows: seq<T>, i: nat, k: nat)
    requires StrictOn(lt, s) && Ascending(lt, rows) && i <= k < |rows|
    requires forall y :: y in rows <==> y in s
    ensures !lt(rows[k], rows[i])
  {
    assert rows[i] in rows && rows[k] in rows;
    if i < k {
      assert lt(rows[i], rows[k]);
      assert Chain(lt, rows[k], rows[i], rows[k]);
    }
  }

  /** In an ascending listing the rows after index k are those that lt puts after rows[k]. */
  lemma AfterIndex<T(!new)>(lt: Rel<T>, s: set<T>, rows: seq<T>, k: nat, x: T)
    requires StrictOn(lt, s) && Ascending(lt, rows) && k < |rows|
    requires forall y :: y in rows <==> y in s
    ensures x in rows[k + 1..] <==> x in s && lt(rows[k], x)
  {
    assert rows[k] in rows;
    if x in rows[k + 1..] {
      var i :| 0 <= i < |rows[k + 1..]| && rows[k + 1..][i] == x;
      assert rows[k + 1 + i] == x && x in rows;
      assert lt(rows[k], rows[k + 1 + i]);
    }
    if x in s && lt(rows[k], x) {
      assert x in rows;
      var i :| 0 <= i < |rows| && rows[i] == x;
      if i <= k {
        NeverBefore(lt, s, rows, i, k);
      }
      assert rows[k + 1..][i - k - 1] == x;
    }
  }

  /** The rows after sorted[k] are sorted[k+1..]. */
  lemma RestOfSorted<T(!new)>(lt: Rel<T>, after: Rel<T>, table: set<T>, k: nat)
    requires OrderOn(lt, table) && Agree(lt, after, table) && k < |table|
    ensures Sorted(lt, Rest(after, table, Some(Sorted(lt, table)[k]))) == Sorted(lt, table)[k + 1..]
  {
    var sorted := Sorted(lt, table);
    var rest := Rest(after, table, Some(sorted[k]));
    assert sorted[k] in table;
    forall x ensures x in sorted[k + 1..] <==> x in rest {
      AfterIndex(lt, table, sorted, k, x);
    }
    SortedUnique(lt, rest, sorted[k + 1..]);
  }

  /** One unfolding of a walk. */
  lemma WalkStep<T(!new)>(lt: Rel<T>, after: Rel<T>, table: set<T>, cursor: Option<T>, limit: nat)
    requires OrderOn(lt, table) && StrictOn(after, table) && limit >= 1
    requires cursor.Some? ==> cursor.value in table
    ensures var page := PageOf(lt, after, table, cursor, limit);
      && (page.next.None? ==> Walk(lt, after, table, cursor, limit) == page.items)
      && (page.next.Some? ==> page.next.value in table)
      && (page.next.Some? ==>
          Walk(lt, after, table, cursor, limit) == page.items + Walk(lt, after, table, page.next, limit))
  {
    if PageOf(lt, after, table, cursor, limit).next.Some? {
      NextShrinks(lt, after, table, cursor, limit);
    }
  }

  /** One page of the walk from row k of the sorted table. */
  lemma PageFrom<T(!new)>(lt: Rel<T>, after: Rel<T>, table: set<T>, sorted: seq<T>, k: nat, limit: nat)
    requires OrderOn(lt, table) && StrictOn(after, table) && Agree(lt, after, table)
    requires sorted == Sorted(lt, table) && k < |sorted| && limit >= 1
    ensures sorted[k] in table
    ensures var page := PageOf(lt, after, table, Some(sorted[k]), limit);
      && (page.next.None? <==> |sorted| - (k + 1) <= limit)
      && (page.next.None? ==> page.items == sorted[k + 1..])
      && (page.next.Some? ==> page.items == sorted[k + 1..][..limit] && page.next.value == sorted[k + limit])
  {
    RestOfSorted(lt, after, table, k);
    assert sorted[k] in sorted;
  }

  lemma {:induction false} WalkFrom<T(!new)>(lt: Rel<T>, after: Rel<T>, table: set<T>, sorted: seq<T>, k: nat,
      limit: nat)
    requires OrderOn(lt, table) && StrictOn(after, table) && Agree(lt, after, table)
    requires sorted == Sorted(lt, table) && k < |sorted| && limit >= 1
    ensures sorted[k] in table
    ensures Walk(lt, after, table, Some(sorted[k]), limit) == sorted[k + 1..]
    decreases |sorted| - k
  {
    hide *;
    PageFrom(lt, after, table, sorted, k, limit);
    WalkStep(lt, after, table, Some(sorted[k]), limit);
    if |sorted| - (k + 1) > limit {
      WalkFrom(lt, after, table, sorted, k + limit, limit);
      JoinPages(sorted, k + 1, limit, Walk(lt, after, table, Some(sorted[k]), limit));
    }
  }

  lemma FirstPage<T(!new)>(lt: Rel<T>, after: Rel<T>, table: set<T>, sorted: seq<T>, limit: nat)
    requires OrderOn(lt, table) && sorted == Sorted(lt, table) && limit >= 1
    ensures var page := PageOf(lt, after, table, None, limit);
      && (page.next.None? <==> |sorted| <= limit)
      && (page.next.None? ==> page.items == sorted)
      && (page.next.Some? ==> page.items == sorted[0..][..limit] && page.next.value == sorted[limit - 1])
  {
  }

  lemma AgreeWalks<T(!new)>(lt: Rel<T>, after: Rel<T>, table: set<T>, limit: nat)
    requires OrderOn(lt, table) && StrictOn(after, table) && Agree(lt, after, table) && limit >= 1
    ensures Walk(lt, after, table, None, limit) == Sorted(lt, table)
  {
    hide *;
    var sorted := Sorted(lt, table);
    FirstPage(lt, after, table, sorted, limit);
    WalkStep(lt, after, table, None, limit);
    if |sorted| > limit {
      WalkFrom(lt, after, table, sorted, limit - 1, limit);
      JoinPages(sorted, 0, limit, Walk(lt, after, table, None, limit));
    }
  }

  /** The predicate keeps the row that follows row k of the sorted table. */
  ghost predicate KeepsNext<T(!new)>(after: Rel<T>, sorted: seq<T>, k: nat)
    requires k + 1 < |sorted|
  {
    after(sorted[k], sorted[k + 1])
  }

  /** If the predicate keeps the successor of every row, then by transitivity it keeps all later rows. */
  lemma {:induction false} AdjacentSuffices<T(!new)>(after: Rel<T>, table: set<T>, sorted: seq<T>, i: nat, j: nat)
    requires StrictOn(after, table) && forall x | x in sorted :: x in table
    requires forall k {:trigger KeepsNext(after, sorted, k)} | 0 <= k < |sorted| - 1 :: KeepsNext(after, sorted, k)
    requires i < j < |sorted|
    ensures after(sorted[i], sorted[j])
  {
    assert KeepsNext(after, sorted, j - 1);
    if i < j - 1 {
      AdjacentSuffices(after, table, sorted, i, j - 1);
      assert Chain(after, sorted[i], sorted[j - 1], sorted[j]);
    }
  }

  lemma DisagreementIsAdjacent<T(!new)>(lt: Rel<T>, after: Rel<T>, table: set<T>, sorted: seq<T>) returns (k: nat)
    requires OrderOn(lt, table) && StrictOn(after, table) && !Agree(lt, after, table)
    requires sorted == Sorted(lt, table)
    ensures k + 1 < |sorted| && !KeepsNext(after, sorted, k)
  {
    var c, r :| c in table && r in table && after(c, r) != lt(c, r);
    assert c in sorted && r in sorted;
    var i :| 0 <= i < |sorted| && sorted[i] == c;
    var j :| 0 <= j < |sorted| && sorted[j] == r;
    assert lt(c, r) ==> i < j by {
      NeverBefore(lt, table, sorted, if i < j then i else j, if i < j then j else i);
    }
    assert Chain(after, c, r, c) && !after(c, c);
    if k': nat :| k' + 1 < |sorted| && !KeepsNext(after, sorted, k') {
      return k';
    }
    assert i < j ==> lt(sorted[i], sorted[j]);
    if i < j {
      AdjacentSuffices(after, table, sorted, i, j);
    } else if j < i {
      AdjacentSuffices(after, table, sorted, j, i);
    }
    assert false;
  }

  /** Every item of a walk that starts at a cursor is kept by the predicate of that cursor. */
  lemma {:induction false} WalkStaysAfter<T(!new)>(lt: Rel<T>, after: Rel<T>, table: set<T>, c: T, limit: nat)
    requires OrderOn(lt, table) && StrictOn(after, table) && limit >= 1 && c in table
    ensures forall x | x in Walk(lt, after, table, Some(c), limit) :: x in table && after(c, x)
    decreases |Rest(after, table, Some(c))|
  {
    var rest := Rest(after, table, Some(c));
    var rows := Sorted(lt, rest);
    var page := PageOf(lt, after, table, Some(c), limit);
    assert forall x | x in page.items :: x in rows;
    if page.next.Some? {
      NextShrinks(lt, after, table, Some(c), limit);
      var last := page.next.value;
      assert last in rows;
      WalkStaysAfter(lt, after, table, last, limit);
      forall x | x in Walk(lt, after, table, Some(last), limit) ensures after(c, x) {
        assert Chain(after, c, last, x);
      }
    }
  }

  lemma DisagreementLosesRows<T(!new)>(lt: Rel<T>, after: Rel<T>, table: set<T>)
    requires OrderOn(lt, table) && StrictOn(after, table) && !Agree(lt, after, table)
    ensures !WalkExact(lt, after, table)
  {
    var sorted := Sorted(lt, table);
    var k := DisagreementIsAdjacent(lt, after, table, sorted);
    LostRow(lt, after, table, sorted, k);
  }

  /** With pages of k + 1 rows, the row after the first page is not on any later page. */
  lemma LostRow<T(!new)>(lt: Rel<T>, after: Rel<T>, table: set<T>, sorted: seq<T>, k: nat)
    requires OrderOn(lt, table) && StrictOn(after, table) && sorted == Sorted(lt, table)
    requires k + 1 < |sorted| && !KeepsNext(after, sorted, k)
    ensures Walk(lt, after, table, None, k + 1) != sorted
  {
    hide StrictOn, TotalOn, OrderOn, Ascending, Sorted, Walk, PageOf;
    FirstPage(lt, after, table, sorted, k + 1);
    WalkStep(lt, after, table, None, k + 1);
    WalkStaysAfter(lt, after, table, sorted[k], k + 1);
    var rest := Walk(lt, after, table, Some(sorted[k]), k + 1);
    assert sorted[k + 1] !in rest;
    assert (sorted[0..][..k + 1] + rest)[k + 1..] == rest;
    assert sorted[k + 1..] != rest by {
      assert sorted[k + 1..][0] == sorted[k + 1];
    }
  }

  /**
   Exact condition for correct pagination, for every cursor predicate that is itself a strict
   order: for all page sizes the walk ends and its pages concatenate to the sorted table, if
   and only if the predicate agrees with the ORDER BY on the rows of the table.
   */
  lemma WalkExactIffAgree<T(!new)>(lt: Rel<T>, after: Rel<T>, table: set<T>)
    requires OrderOn(lt, table) && StrictOn(after, table)
    ensures WalkExact(lt, after, table) <==> Agree(lt, after, table)
  {
    if Agree(lt, after, table) {
      forall limit: nat | limit >= 1 ensures Walk(lt, after, table, None, limit) == Sorted(lt, table) {
        AgreeWalks(lt, after, table, limit);
      }
    } else {
      DisagreementLosesRows(lt, after, table);
    }
  }

  // ---- A table that changes while it is walked ----

  /** The cursor with which page i of a walk is requested. */
  function CursorOf<T(!new)>(pages: seq<Page<T>>, i: nat): Option<T>
    requires i <= |pages|
  {
    if i == 0 then None else pages[i - 1].next
  }

  /** Page i was read from tables[i] with the cursor of the page before. */
  ghost predicate PageRead<T(!new)>(lt: Rel<T>, after: Rel<T>, tables: seq<set<T>>, pages: seq<Page<T>>, limit: nat,
      i: nat)
    requires limit >= 1 && i < |tables| == |pages| && OrderOn(lt, tables[i])
  {
    pages[i] == PageOf(lt, after, tables[i], CursorOf(pages, i), limit)
  }

  ghost predicate TablesOk<T(!new)>(lt: Rel<T>, all: set<T>, tables: seq<set<T>>) {
    forall i | 0 <= i < |tables| :: tables[i] <= all && OrderOn(lt, tables[i])
  }

  /**
   Every page is read with the cursor of the one before; the walk follows every cursor it is offered
   and stops when there is none.
   */
  ghost predicate IsWalk<T(!new)>(lt: Rel<T>, after: Rel<T>, tables: seq<set<T>>, pages: seq<Page<T>>, limit: nat)
    requires limit >= 1 && forall i | 0 <= i < |tables| :: OrderOn(lt, tables[i])
  {
    && |pages| == |tables| >= 1
    && (forall i | 0 <= i < |pages| - 1 :: pages[i].next.Some?)
    && pages[|pages| - 1].next.None?
    && (forall i {:trigger PageRead(lt, after, tables, pages, limit, i)} | 0 <= i < |pages| ::
        PageRead(lt, after, tables, pages, limit, i))
  }

  function Concat<T(!new)>(pages: seq<Page<T>>, n: nat): seq<T>
    requires n <= |pages|
  {
    if n == 0 then [] else Concat(pages, n - 1) + pages[n - 1].items
  }

  /** The row is there, unchanged, when each of the first n pages is read. */
  ghost predicate Steady<T(!new)>(tables: seq<set<T>>, r: T, n: nat)
    requires n <= |tables|
  {
    forall i | 0 <= i < n :: r in tables[i]
  }

  /** The first n pages have shown the row, or the next page starts before it. */
  ghost predicate Reached<T(!new)>(lt: Rel<T>, pages: seq<Page<T>>, r: T, n: nat)
    requires 0 < n <= |pages|
  {
    r in Concat(pages, n) || (pages[n - 1].next.Some? && lt(pages[n - 1].next.value, r))
  }

  ghost predicate Distinct<T(!new)>(rows: seq<T>) {
    forall i, j | 0 <= i < j < |rows| :: rows[i] != rows[j]
  }

  lemma AscendingDistinct<T(!new)>(lt: Rel<T>, s: set<T>, rows: seq<T>)
    requires StrictOn(lt, s) && Ascending(lt, rows) && forall x | x in rows :: x in s
    ensures Distinct(rows)
  {
    forall i, j | 0 <= i < j < |rows| ensures rows[i] != rows[j] {
      assert rows[j] in rows && lt(rows[i], rows[j]);
    }
  }

  /** What one page shows: an ascending run of rows after the cursor, ending in the next cursor. */
  lemma PageFacts<T(!new)>(lt: Rel<T>, after: Rel<T>, table: set<T>, cursor: Option<T>, limit: nat)
    requires OrderOn(lt, table) && limit >= 1
    ensures var page := PageOf(lt, after, table, cursor, limit);
      && Ascending(lt, page.items)
      && (forall x | x in page.items :: x in Rest(after, table, cursor))
      && (forall x | x in Rest(after, table, cursor) :: x in page.items || (page.next.Some? && lt(page.next.value, x)))
      && (page.next.Some? ==>
          page.items != [] && page.next.value == page.items[|page.items| - 1] && page.next.value in table)
  {
    var rest := Rest(after, table, cursor);
    var rows := Sorted(lt, rest);
    var page := PageOf(lt, after, table, cursor, limit);
    forall x | x in rest ensures x in page.items || (page.next.Some? && lt(page.next.value, x)) {
      assert x in rows;
      var i :| 0 <= i < |rows| && rows[i] == x;
      if i < |page.items| {
        assert page.items[i] == x;
      } else {
        assert lt(rows[limit - 1], rows[i]);
      }
    }
    forall x | x in page.items ensures x in rest {
      assert x in rows;
    }
    if page.next.Some? {
      assert rows[limit - 1] in rows;
    }
  }

  /** c is the greatest row of the listing. */
  ghost predicate EndsAt<T(!new)>(lt: Rel<T>, rows: seq<T>, c: T) {
    c in rows && forall x | x in rows :: x == c || lt(x, c)
  }

  /** Appending an ascending page of rows after c to an ascending listing that ends at c. */
  lemma AppendPage<T(!new)>(lt: Rel<T>, all: set<T>, shown: seq<T>, c: T, items: seq<T>)
    requires StrictOn(lt, all) && Ascending(lt, shown) && Ascending(lt, items) && EndsAt(lt, shown, c)
    requires (forall x | x in shown :: x in all) && (forall y | y in items :: y in all && lt(c, y))
    ensures Ascending(lt, shown + items)
    ensures items != [] ==> EndsAt(lt, shown + items, items[|items| - 1])
  {
    var both := shown + items;
    forall i, j | 0 <= i < j < |both| ensures lt(both[i], both[j]) {
      if i < |shown| <= j {
        assert shown[i] in shown && items[j - |shown|] in items;
        assert Chain(lt, shown[i], c, items[j - |shown|]);
      } else if i >= |shown| {
        assert lt(items[i - |shown|], items[j - |shown|]);
      } else {
        assert lt(shown[i], shown[j]);
      }
    }
    if items != [] {
      forall x | x in both ensures x == items[|items| - 1] || lt(x, items[|items| - 1]) {
        var i :| 0 <= i < |both| && both[i] == x;
        assert i < |both| - 1 ==> lt(both[i], both[|both| - 1]);
      }
    }
  }

  lemma PageEnds<T(!new)>(lt: Rel<T>, items: seq<T>)
    requires Ascending(lt, items) && items != []
    ensures EndsAt(lt, items, items[|items| - 1])
  {
    forall x | x in items ensures x == items[|items| - 1] || lt(x, items[|items| - 1]) {
      var i :| 0 <= i < |items| && items[i] == x;
      assert i < |items| - 1 ==> lt(items[i], items[|items| - 1]);
    }
  }

  /** One page, seen from the rows that may ever be in the table. */
  lemma PageInOrder<T(!new)>(lt: Rel<T>, after: Rel<T>, all: set<T>, table: set<T>, cursor: Option<T>, limit: nat)
    requires OrderOn(lt, table) && Agree(lt, after, all) && table <= all && limit >= 1
    requires cursor.Some? ==> cursor.value in all
    ensures var page := PageOf(lt, after, table, cursor, limit);
      && Ascending(lt, page.items)
      && (forall y | y in page.items :: y in all && (cursor.Some? ==> lt(cursor.value, y)))
      && (page.next.Some? ==>
          page.items != [] && page.next.value == page.items[|page.items| - 1] && page.next.value in all)
  {
    PageFacts(lt, after, table, cursor, limit);
  }

  /** What the first n pages of a walk have shown is ascending and ends at the next cursor. */
  lemma {:induction false} WalkAscends<T(!new)>(lt: Rel<T>, after: Rel<T>, all: set<T>, tables: seq<set<T>>,
                                                pages: seq<Page<T>>, limit: nat, n: nat)
    requires limit >= 1 && StrictOn(lt, all) && Agree(lt, after, all)
    requires TablesOk(lt, all, tables)
    requires IsWalk(lt, after, tables, pages, limit) && n <= |pages|
    ensures Ascending(lt, Concat(pages, n)) && forall x | x in Concat(pages, n) :: x in all
    ensures n > 0 && pages[n - 1].next.Some? ==> EndsAt(lt, Concat(pages, n), pages[n - 1].next.value)
  {
    if n > 0 {
      hide StrictOn, TotalOn, OrderOn, Agree, Ascending, Sorted, Rest, PageOf;
      WalkAscends(lt, after, all, tables, pages, limit, n - 1);
      var cursor := CursorOf(pages, n - 1);
      var table := tables[n - 1];
      var page := pages[n - 1];
      assert table <= all && PageRead(lt, after, tables, pages, limit, n - 1);
      PageInOrder(lt, after, all, table, cursor, limit);
      var shown := Concat(pages, n - 1);
      if n == 1 {
        assert shown + page.items == page.items;
        if page.items != [] {
          PageEnds(lt, page.items);
        }
      } else {
        var c := cursor.value;
        assert c in all;
        AppendPage(lt, all, shown, c, page.items);
      }
    }
  }

  /** A row that was there at each of the first n pages has been shown, or is still to come. */
  lemma {:induction false} SteadyReached<T(!new)>(lt: Rel<T>, after: Rel<T>, all: set<T>, tables: seq<set<T>>,
                                                  pages: seq<Page<T>>, limit: nat, n: nat, r: T)
    requires limit >= 1 && Agree(lt, after, all)
    requires TablesOk(lt, all, tables)
    requires IsWalk(lt, after, tables, pages, limit) && 0 < n <= |pages|
    requires Steady(tables, r, n)
    ensures Reached(lt, pages, r, n)
  {
    var cursor := CursorOf(pages, n - 1);
    var table := tables[n - 1];
    assert r in table && table <= all && PageRead(lt, after, tables, pages, limit, n - 1);
    PageFacts(lt, after, table, cursor, limit);
    if n > 1 {
      SteadyReached(lt, after, all, tables, pages, limit, n - 1, r);
      var before := tables[n - 2];
      assert PageRead(lt, after, tables, pages, limit, n - 2);
      PageFacts(lt, after, before, CursorOf(pages, n - 2), limit);
      assert cursor.value in before && before <= all;
    }
  }

  /**
   Rows may be inserted, deleted or changed between the pages of a walk. The walk still shows
   no row twice and keeps the ORDER BY across pages.
   */
  lemma ChangingTableNoDuplicates<T(!new)>(lt: Rel<T>, after: Rel<T>, all: set<T>, tables: seq<set<T>>,
                                           pages: seq<Page<T>>, limit: nat)
    requires limit >= 1 && StrictOn(lt, all) && Agree(lt, after, all)
    requires TablesOk(lt, all, tables)
    requires IsWalk(lt, after, tables, pages, limit)
    ensures Ascending(lt, Concat(pages, |pages|)) && Distinct(Concat(pages, |pages|))
  {
    WalkAscends(lt, after, all, tables, pages, limit, |pages|);
    AscendingDistinct(lt, all, Concat(pages, |pages|));
  }

  /** ... and it shows every row that was there, unchanged, at every page. */
  lemma ChangingTableHidesNothing<T(!new)>(lt: Rel<T>, after: Rel<T>, all: set<T>, tables: seq<set<T>>,
                                           pages: seq<Page<T>>, limit: nat, r: T)
    requires limit >= 1 && Agree(lt, after, all)
    requires TablesOk(lt, all, tables)
    requires IsWalk(lt, after, tables, pages, limit)
    requires Steady(tables, r, |tables|)
    ensures r in Concat(pages, |pages|)
  {
    SteadyReached(lt, after, all, tables, pages, limit, |pages|, r);
  }

  /** The two pages on which two rows of a walk are shown, in order. */
  lemma {:induction false} FromPages<T(!new)>(pages: seq<Page<T>>, n: nat, p: nat, q: nat) returns (i: nat, j: nat)
    requires n <= |pages| && p < q < |Concat(pages, n)|
    ensures i <= j < n && Concat(pages, n)[p] in pages[i].items && Concat(pages, n)[q] in pages[j].items
  {
    var before := Concat(pages, n - 1);
    if q < |before| {
      i, j := FromPages(pages, n - 1, p, q);
    } else {
      j := n - 1;
      assert Concat(pages, n)[q] == pages[j].items[q - |before|];
      if p < |before| {
        i := FromPage(pages, n - 1, p);
      } else {
        i := j;
        assert Concat(pages, n)[p] == pages[i].items[p - |before|];
      }
    }
  }

  lemma {:induction false} FromPage<T(!new)>(pages: seq<Page<T>>, n: nat, p: nat) returns (i: nat)
    requires n <= |pages| && p < |Concat(pages, n)|
    ensures i < n && Concat(pages, n)[p] in pages[i].items
  {
    var before := Concat(pages, n - 1);
    if p < |before| {
      i := FromPage(pages, n - 1, p);
    } else {
      i := n - 1;
      assert Concat(pages, n)[p] == pages[i].items[p - |before|];
    }
  }

  /** A later version of a row does not come after an earlier one. */
  ghost predicate StaysBack<T(!new)>(lt: Rel<T>, same: Rel<T>, earlier: set<T>, later: set<T>) {
    forall x, y | x in earlier && y in later && same(x, y) :: !lt(x, y)
  }

  ghost predicate NoRepeat<T(!new)>(same: Rel<T>, rows: seq<T>) {
    forall p, q | 0 <= p < q < |rows| :: !same(rows[p], rows[q])
  }

  /**
   Rows have versions, and an update replaces one by another. If updates never move a row
   forward in the ORDER BY, a walk shows no two versions of one row.
   */
  lemma ChangingTableNoRepeats<T(!new)>(lt: Rel<T>, after: Rel<T>, all: set<T>, tables: seq<set<T>>,
                                        pages: seq<Page<T>>, limit: nat, same: Rel<T>)
    requires limit >= 1 && StrictOn(lt, all) && Agree(lt, after, all)
    requires TablesOk(lt, all, tables)
    requires IsWalk(lt, after, tables, pages, limit)
    requires forall i, j | 0 <= i <= j < |tables| :: StaysBack(lt, same, tables[i], tables[j])
    ensures NoRepeat(same, Concat(pages, |pages|))
  {
    hide StrictOn, TotalOn, Sorted, PageOf, Agree;
    WalkAscends(lt, after, all, tables, pages, limit, |pages|);
    var rows := Concat(pages, |pages|);
    forall p, q | 0 <= p < q < |rows| ensures !same(rows[p], rows[q]) {
      var i, j := FromPages(pages, |pages|, p, q);
      ShownIsThere(lt, after, tables, pages, limit, i, rows[p]);
      ShownIsThere(lt, after, tables, pages, limit, j, rows[q]);
      assert lt(rows[p], rows[q]);
      assert StaysBack(lt, same, tables[i], tables[j]);
    }
  }

  lemma ShownIsThere<T(!new)>(lt: Rel<T>, after: Rel<T>, tables: seq<set<T>>, pages: seq<Page<T>>, limit: nat,
      i: nat, x: T)
    requires limit >= 1 && forall k | 0 <= k < |tables| :: OrderOn(lt, tables[k])
    requires IsWalk(lt, after, tables, pages, limit) && i < |pages| && x in pages[i].items
    ensures x in tables[i]
  {
    assert PageRead(lt, after, tables, pages, limit, i);
    PageFacts(lt, after, tables[i], CursorOf(pages, i), limit);
  }

  lemma PageOfTwo<T(!new)>(lt: Rel<T>, after: Rel<T>, table: set<T>, cursor: Option<T>, x: T, y: T)
    requires OrderOn(lt, table) && Rest(after, table, cursor) == {x, y} && lt(x, y)
    ensures PageOf(lt, after, table, cursor, 1) == Page([x], Some(x))
  {
    assert x in Rest(after, table, cursor) && y in Rest(after, table, cursor);
    SortedUnique(lt, {x, y}, [x, y]);
  }

  lemma PageOfOne<T(!new)>(lt: Rel<T>, after: Rel<T>, table: set<T>, cursor: Option<T>, x: T)
    requires OrderOn(lt, table) && Rest(after, table, cursor) == {x}
    ensures PageOf(lt, after, table, cursor, 1) == Page([x], None)
  {
    assert x in Rest(after, table, cursor);
    SortedUnique(lt, {x}, [x]);
  }

  lemma ConcatThree<T(!new)>(pages: seq<Page<T>>)
    requires |pages| == 3
    ensures Concat(pages, 3) == pages[0].items + pages[1].items + pages[2].items
  {
    assert Concat(pages, 1) == pages[0].items;
    assert Concat(pages, 2) == pages[0].items + pages[1].items;
  }

  /**
   The converse: when a row x is updated to y behind the walk's back and y is ahead of the cursor,
   the walk shows both.
   */
  lemma MovedForwardRepeats<T(!new)>(lt: Rel<T>, after: Rel<T>, x: T, y: T, z: T)
    requires OrderOn(lt, {x, z}) && OrderOn(lt, {y, z}) && lt(x, y) && lt(x, z) && lt(y, z) && y != z
    requires after(x, y) && after(x, z) && after(y, z) && !after(y, y)
    ensures IsWalk(lt, after, [{x, z}, {y, z}, {y, z}], [Page([x], Some(x)), Page([y], Some(y)), Page([z], None)], 1)
    ensures Concat([Page([x], Some(x)), Page([y], Some(y)), Page([z], None)], 3) == [x, y, z]
  {
    hide StrictOn, TotalOn, OrderOn, PageOf, Sorted;
    var tables := [{x, z}, {y, z}, {y, z}];
    var pages := [Page([x], Some(x)), Page([y], Some(y)), Page([z], None)];
    PageOfTwo(lt, after, {x, z}, None, x, z);
    assert Rest(after, {y, z}, Some(x)) == {y, z};
    PageOfTwo(lt, after, {y, z}, Some(x), y, z);
    assert Rest(after, {y, z}, Some(y)) == {z};
    PageOfOne(lt, after, {y, z}, Some(y), z);
    assert PageRead(lt, after, tables, pages, 1, 0);
    assert PageRead(lt, after, tables, pages, 1, 1);
    assert PageRead(lt, after, tables, pages, 1, 2);
    ConcatThree(pages);
  }

  // ---- What a client sees: answers with encoded cursors ----

  datatype Response<T, C> = Response(items: seq<T>, nextCursor: Option<C>)

  function Respond<T, C>(page: Page<T>, encode: T -> C): Response<T, C> {
    Response(page.items, if page.next.Some? then Some(encode(page.next.value)) else None)
  }

  /** A handler, as a function of the cursor it is sent. */
  type Server<!T, !C> = Option<C> -> Response<T, C>

  function EncodeCursor<T, C>(cursor: Option<T>, encode: T -> C): Option<C> {
    if cursor.Some? then Some(encode(cursor.value)) else None
  }

  /** The handler answers the first page, and to the cursor of a row the page after it. */
  ghost predicate Serves<T(!new), C>(server: Server<T, C>, encode: T -> C,
                                     lt: Rel<T>, after: Rel<T>, table: set<T>, limit: nat)
    requires OrderOn(lt, table) && limit >= 1
  {
    forall cursor: Option<T> | cursor.None? || cursor.value in table ::
      server(EncodeCursor(cursor, encode)) == Respond(PageOf(lt, after, table, cursor, limit), encode)
  }

  /** The client follows every cursor it is given and stops when it is given none. */
  ghost predicate IsSession<T, C>(server: Server<T, C>, cursor: Option<C>, answers: seq<Response<T, C>>)
    decreases |answers|
  {
    && answers != [] && answers[0] == server(cursor)
    && if answers[0].nextCursor.None? then |answers| == 1
       else IsSession(server, answers[0].nextCursor, answers[1..])
  }

  function AllItems<T, C>(answers: seq<Response<T, C>>): seq<T> {
    if answers == [] then [] else answers[0].items + AllItems(answers[1..])
  }

  /** A session shows the items of the walk. */
  lemma {:induction false} SessionItems<T(!new), C>(server: Server<T, C>, encode: T -> C, lt: Rel<T>, after: Rel<T>,
      table: set<T>, limit: nat, cursor: Option<T>, answers: seq<Response<T, C>>)
    requires OrderOn(lt, table) && StrictOn(after, table) && limit >= 1
      && Serves(server, encode, lt, after, table, limit)
    requires (cursor.Some? ==> cursor.value in table) && IsSession(server, EncodeCursor(cursor, encode), answers)
    ensures AllItems(answers) == Walk(lt, after, table, cursor, limit)
    decreases |answers|
  {
    hide StrictOn, TotalOn, PageOf, Walk;
    var page := PageOf(lt, after, table, cursor, limit);
    assert answers[0] == Respond(page, encode);
    WalkStep(lt, after, table, cursor, limit);
    if page.next.Some? {
      assert EncodeCursor(page.next, encode) == answers[0].nextCursor;
      SessionItems(server, encode, lt, after, table, limit, page.next, answers[1..]);
    } else {
      assert answers[1..] == [];
    }
  }

  /** There is always a session: following cursors ends. */
  lemma {:induction false} SessionEnds<T(!new), C>(server: Server<T, C>, encode: T -> C, lt: Rel<T>, after: Rel<T>,
      table: set<T>, limit: nat, cursor: Option<T>)
    returns (answers: seq<Response<T, C>>)
    requires OrderOn(lt, table) && StrictOn(after, table) && limit >= 1
      && Serves(server, encode, lt, after, table, limit)
    requires cursor.Some? ==> cursor.value in table
    ensures IsSession(server, EncodeCursor(cursor, encode), answers)
    decreases |Rest(after, table, cursor)|
  {
    hide StrictOn, TotalOn, PageOf;
    var page := PageOf(lt, after, table, cursor, limit);
    var first := server(EncodeCursor(cursor, encode));
    assert first == Respond(page, encode);
    if page.next.Some? {
      NextShrinks(lt, after, table, cursor, limit);
      var rest := SessionEnds(server, encode, lt, after, table, limit, page.next);
      assert EncodeCursor(page.next, encode) == first.nextCursor;
      answers := [first] + rest;
      assert answers[1..] == rest;
    } else {
      answers := [first];
    }
  }

  /** Every session of the handler shows these rows. */
  ghost predicate SessionsShow<T(!new), C(!new)>(server: Server<T, C>, rows: seq<T>) {
    (exists answers :: IsSession(server, None, answers))
    && forall answers | IsSession(server, None, answers) :: AllItems(answers) == rows
  }

  /** A handler that serves pages shows exactly the walk, and following its cursors ends. */
  lemma SessionsAreWalks<T(!new), C(!new)>(server: Server<T, C>, encode: T -> C,
                                           lt: Rel<T>, after: Rel<T>, table: set<T>, limit: nat)
    requires OrderOn(lt, table) && StrictOn(after, table) && limit >= 1
      && Serves(server, encode, lt, after, table, limit)
    ensures SessionsShow(server, Walk(lt, after, table, None, limit))
  {
    hide StrictOn, TotalOn, PageOf, Walk, Serves, IsSession;
    var some := SessionEnds(server, encode, lt, after, table, limit, None);
    assert EncodeCursor(None, encode) == None;
    forall answers | IsSession(server, None, answers) ensures AllItems(answers) == Walk(lt, after, table, None, limit) {
      SessionItems(server, encode, lt, after, table, limit, None, answers);
    }
  }
}
