/**
 GET /journal: the query of repo/journal.py and the handler of api/journal.py. Text columns
 are represented by their rank in the collation. Columns that V10 declares NOT NULL are not
 null in a well-formed row; strategy_code may be null.
 */
module Journal {
  import opened Wrappers
  import opened Pagination
  import opened Sql

  const VALID_SORT_BY := {"created_time", "strategy_code", "status", "entry_type"}
  const VALID_SORT_DIR := {"asc", "desc"}

  datatype Filters = Filters(entryType: Value, status: Value, strategyCode: Value, search: Value)

  /** The JSON object inside a cursor; a caller can forge any field or leave it out. */
  datatype Cursor = Cursor(sb: Option<string>, sd: Option<string>, v: Value, t: Value, id: Value)

  datatype Error = BadEntryType | BadStatus | BadSortBy | BadSortDir | BadCursor

  // The statuses in collation order.
  const ACTIVE := 0
  const FALSIFIED := 1
  const PARKED := 2
  const STALE := 3

  // The entry type of review requests; the six types in collation order are 0 to 5.
  const IDEA_BACKLOG := 3

  predicate TypeOk(v: Value) {
    v.Some? ==> 0 <= v.value <= 5
  }

  predicate StatusOk(v: Value) {
    v.Some? ==> v.value in {ACTIVE, FALSIFIED, PARKED, STALE}
  }

  predicate WellFormed(r: Row) {
    Get(r, Id).Some? && Get(r, CreatedTime).Some? && Get(r, Status).Some? && Get(r, EntryType).Some?
  }

  ghost predicate TableOk(table: set<Row>) {
    UniqueIds(table) && forall r | r in table :: WellFormed(r)
  }

  // _SORT_COLS
  function SortColumn(sortBy: string): Column {
    if sortBy == "created_time" then CreatedTime
    else if sortBy == "strategy_code" then StrategyCode
    else if sortBy == "status" then Status
    else EntryType
  }

  // _NULLABLE
  predicate Nullable(col: Column) {
    col == StrategyCode
  }

  function Order(sortBy: string, desc: bool): seq<Term> {
    if sortBy == "created_time"
    then [Term(CreatedTime, desc, !desc), Term(Id, desc, !desc)]
    else [Term(SortColumn(sortBy), desc, true), Term(CreatedTime, true, false), Term(Id, true, false)]
  }

  /** The keyset conjunct and its arguments, when n arguments are already bound. */
  function Keyset(sortBy: string, desc: bool, v: Value, t: Value, id: Value, n: nat): (Cond, seq<Value>) {
    var op := if desc then Lt else Gt;
    var col := SortColumn(sortBy);
    if sortBy == "created_time" then (ComparePair(CreatedTime, Id, op, n + 1, n + 2), [v, id])
    else
      var tie := ComparePair(CreatedTime, Id, Lt, n + 1, n + 2);
      if v.None? then (And(IsNull(col), tie), [t, id])
      else
        var same := And(Compare(col, Eq, n + 3), tie);
        var cond :=
          if !Nullable(col) then Or(Compare(col, op, n + 3), same)
          else if !desc then Or(Or(Compare(col, op, n + 3), same), IsNull(col))
          else Or(Or(And(Compare(col, op, n + 3), IsNotNull(col)), same), IsNull(col));
        (cond, [t, id, v])
  }

  predicate Matches(f: Filters, r: Row) {
    && (f.entryType.Some? ==> Get(r, EntryType) == f.entryType)
    && (f.status.Some? ==> Get(r, Status) == f.status)
    && (f.strategyCode.Some? ==> Get(r, StrategyCode) == f.strategyCode)
    && (f.search.Some? ==> f.search.value in r.hits)
  }

  /** The keyset conjunct of a cursor is true on the row. */
  predicate KeysetKeeps(sortBy: string, desc: bool, v: Value, t: Value, id: Value, r: Row) {
    var keyset := Keyset(sortBy, desc, v, t, id, 0);
    Eval(keyset.0, r, keyset.1) == Yes
  }

  /** What the keyset evaluates to. */
  function KeysetValue(sortBy: string, desc: bool, v: Value, t: Value, id: Value, r: Row): Tri {
    var op := if desc then Lt else Gt;
    var col := SortColumn(sortBy);
    var x := Get(r, col);
    var tie := ComparePairs(Lt, Get(r, CreatedTime), Get(r, Id), t, id);
    if sortBy == "created_time" then ComparePairs(op, Get(r, CreatedTime), Get(r, Id), v, id)
    else if v.None? then TriAnd(FromBool(x.None?), tie)
    else
      var same := TriAnd(CompareValues(Eq, x, v), tie);
      if !Nullable(col) then TriOr(CompareValues(op, x, v), same)
      else if !desc then TriOr(TriOr(CompareValues(op, x, v), same), FromBool(x.None?))
      else TriOr(TriOr(TriAnd(CompareValues(op, x, v), FromBool(x.Some?)), same), FromBool(x.None?))
  }

  lemma KeysetEval(sortBy: string, desc: bool, v: Value, t: Value, id: Value, r: Row)
    ensures var keyset := Keyset(sortBy, desc, v, t, id, 0);
      Eval(keyset.0, r, keyset.1) == KeysetValue(sortBy, desc, v, t, id, r)
  {
    var all := Keyset(sortBy, desc, v, t, id, 0).1;
    var col := SortColumn(sortBy);
    if sortBy != "created_time" {
      var tie := ComparePair(CreatedTime, Id, Lt, 1, 2);
      assert Eval(tie, r, all) == ComparePairs(Lt, Get(r, CreatedTime), Get(r, Id), t, id);
      EvalAnd(IsNull(col), tie, r, all);
      if v.Some? {
        var cmp := Compare(col, if desc then Lt else Gt, 3);
        var same := And(Compare(col, Eq, 3), tie);
        var strict := And(cmp, IsNotNull(col));
        EvalAnd(Compare(col, Eq, 3), tie, r, all);
        EvalAnd(cmp, IsNotNull(col), r, all);
        EvalOr(cmp, same, r, all);
        EvalOr(strict, same, r, all);
        EvalOr(Or(cmp, same), IsNull(col), r, all);
        EvalOr(Or(strict, same), IsNull(col), r, all);
      }
    }
  }

  lemma KeysetShift(sortBy: string, desc: bool, v: Value, t: Value, id: Value, n: nat)
    ensures var (cond, more) := Keyset(sortBy, desc, v, t, id, 0);
      Keyset(sortBy, desc, v, t, id, n) == (Shift(cond, n), more) && Uses(cond, |more|)
  {
    hide Shift, Uses;
    var op, col := if desc then Lt else Gt, SortColumn(sortBy);
    var k := |Keyset(sortBy, desc, v, t, id, 0).1|;
    if sortBy == "created_time" {
      ShiftPair(CreatedTime, Id, op, 1, 2, n, k);
    } else {
      var tie := ComparePair(CreatedTime, Id, Lt, 1, 2);
      ShiftPair(CreatedTime, Id, Lt, 1, 2, n, k);
      if v.None? {
        ShiftLeaves(col, op, 1, n, k);
        ShiftBoth(IsNull(col), tie, n, k);
      } else {
        var cmp, eq := Compare(col, op, 3), Compare(col, Eq, 3);
        ShiftLeaves(col, op, 3, n, k);
        ShiftLeaves(col, Eq, 3, n, k);
        ShiftBoth(eq, tie, n, k);
        ShiftBoth(cmp, IsNotNull(col), n, k);
        ShiftBoth(cmp, And(eq, tie), n, k);
        ShiftBoth(And(cmp, IsNotNull(col)), And(eq, tie), n, k);
        ShiftBoth(Or(cmp, And(eq, tie)), IsNull(col), n, k);
        ShiftBoth(Or(And(cmp, IsNotNull(col)), And(eq, tie)), IsNull(col), n, k);
      }
    }
  }

  /** The keyset means the same on its own and after any other arguments. */
  lemma KeysetPlace(sortBy: string, desc: bool, v: Value, t: Value, id: Value, args: seq<Value>)
    ensures var keyset := Keyset(sortBy, desc, v, t, id, |args|);
      && Uses(keyset.0, |args + keyset.1|)
      && forall r :: Eval(keyset.0, r, args + keyset.1) == Yes <==> KeysetKeeps(sortBy, desc, v, t, id, r)
  {
    hide Keyset, Shift, Uses, Eval;
    var (cond, more) := Keyset(sortBy, desc, v, t, id, 0);
    KeysetShift(sortBy, desc, v, t, id, |args|);
    ShiftPlace(cond, args, more);
  }

  /** list_journal: builds the WHERE clause and its argument list step by step. */
  method ListJournal(f: Filters, sortBy: string, desc: bool, v: Value, t: Value, id: Value, limit: nat)
    returns (q: Query)
    ensures q.order == Order(sortBy, desc) && q.limit == limit
    ensures forall r :: Holds(q.conds, r, q.args) <==>
      Matches(f, r) && (id.Some? ==> KeysetKeeps(sortBy, desc, v, t, id, r))
  {
    hide Keyset, KeysetKeeps, Uses, AllUse, Holds;
    var conds: seq<Cond>, args: seq<Value> := [], [];
    EmptyConds();
    conds, args := AppendEqual(conds, args, EntryType, f.entryType);
    conds, args := AppendEqual(conds, args, Status, f.status);
    conds, args := AppendEqual(conds, args, StrategyCode, f.strategyCode);
    if f.search.Some? {
      conds, args := Append(conds, args, Search(|args| + 1), [f.search]);
    }
    if id.Some? {
      KeysetPlace(sortBy, desc, v, t, id, args);
      var keyset := Keyset(sortBy, desc, v, t, id, |args|);
      conds, args := Append(conds, args, keyset.0, keyset.1);
    }
    q := Query(conds, args, Order(sortBy, desc), limit);
  }

  // ---- The keyset means "strictly after" ----

  /** The cursor relation: r is kept by the keyset of the cursor that was made from row c. */
  function After(sortBy: string, desc: bool): Rel<Row> {
    (c: Row, r: Row) =>
      KeysetKeeps(sortBy, desc, Get(c, SortColumn(sortBy)), Get(c, CreatedTime), Get(c, Id), r)
  }

  lemma AfterValue(sortBy: string, desc: bool, c: Row, r: Row)
    ensures After(sortBy, desc)(c, r)
      <==> KeysetValue(sortBy, desc, Get(c, SortColumn(sortBy)), Get(c, CreatedTime), Get(c, Id), r) == Yes
  {
    hide KeysetValue, Eval, Uses;
    var v, t, id := Get(c, SortColumn(sortBy)), Get(c, CreatedTime), Get(c, Id);
    KeysetEval(sortBy, desc, v, t, id, r);
  }

  /**
   For every sort key, direction and null case, the WHERE clause built from the cursor of a
   row keeps exactly the rows that come strictly after it in the ORDER BY.
   */
  lemma KeysetExact(sortBy: string, desc: bool, c: Row, r: Row)
    requires WellFormed(c) && WellFormed(r)
    ensures After(sortBy, desc)(c, r) <==> ByOrder(Order(sortBy, desc))(c, r)
  {
    hide After, Keyset, OrderBefore;
    AfterValue(sortBy, desc, c, r);
    if sortBy == "created_time" {
      OrderOfTwo(Term(CreatedTime, desc, !desc), Term(Id, desc, !desc), c, r);
    } else {
      OrderOfThree(Term(SortColumn(sortBy), desc, true), Term(CreatedTime, true, false), Term(Id, true, false), c, r);
    }
  }

  // ---- The handler ----

  predicate SortOk(sortBy: string, sortDir: string) {
    sortBy in VALID_SORT_BY && sortDir in VALID_SORT_DIR
  }

  /** The next_cursor payload made from the last row of a page. */
  function MakeCursor(sortBy: string, sortDir: string, last: Row): Cursor {
    if sortBy == "created_time"
    then Cursor(Some(sortBy), Some(sortDir), Get(last, CreatedTime), None, Get(last, Id))
    else Cursor(Some(sortBy), Some(sortDir), Get(last, SortColumn(sortBy)), Get(last, CreatedTime), Get(last, Id))
  }

  function ToResponse(sortBy: string, sortDir: string, page: Page<Row>): Response<Row, Cursor> {
    Respond(page, row => MakeCursor(sortBy, sortDir, row))
  }

  function Filtered(f: Filters, table: set<Row>): set<Row> {
    set r | r in table && Matches(f, r)
  }

  /** The filtered rows that a cursor with these fields leaves, forged or not. */
  function Left(f: Filters, sortBy: string, desc: bool, v: Value, t: Value, id: Value, table: set<Row>): set<Row> {
    set r | r in Filtered(f, table) && (id.Some? ==> KeysetKeeps(sortBy, desc, v, t, id, r))
  }

  lemma TableOrder(f: Filters, sortBy: string, desc: bool, table: set<Row>)
    requires UniqueIds(table)
    ensures OrderOn(ByOrder(Order(sortBy, desc)), table) && OrderOn(ByOrder(Order(sortBy, desc)), Filtered(f, table))
  {
    OrderOk(Order(sortBy, desc), table);
    OrderOk(Order(sortBy, desc), Filtered(f, table));
  }

  function Default(o: Option<string>, s: string): string {
    if o.Some? then o.value else s
  }

  /** The sort a request asks for: its cursor decides, then its query string. */
  function SortOf(sortBy: string, sortDir: string, cursor: Option<Cursor>): (string, string) {
    if cursor.Some? then (Default(cursor.value.sb, "created_time"), Default(cursor.value.sd, "desc"))
    else (sortBy, sortDir)
  }

  /** GET /journal, the answer: sort what the filters and the cursor leave, and cut off one page. */
  ghost function Answer(table: set<Row>, f: Filters, sortBy: string, sortDir: string, cursor: Option<Cursor>,
      limit: nat): Response<Row, Cursor>
    requires UniqueIds(table) && limit >= 1
  {
    var (sb, sd) := SortOf(sortBy, sortDir, cursor);
    var desc := sd == "desc";
    TableOrder(f, sb, desc, table);
    match cursor
    case None => ToResponse(sb, sd, Cut(Sorted(ByOrder(Order(sb, desc)), Filtered(f, table)), limit))
    case Some(Cursor(_, _, v, t, id)) =>
      var t' := if sb == "created_time" then v else t;
      ToResponse(sb, sd, Cut(Sorted(ByOrder(Order(sb, desc)), Left(f, sb, desc, v, t', id, table)), limit))
  }

  /** The database call of the handler and the slicing after it. */
  method FetchPage(table: set<Row>, f: Filters, sortBy: string, sortDir: string, v: Value, t: Value, id: Value,
      limit: nat)
    returns (response: Response<Row, Cursor>)
    requires UniqueIds(table) && limit >= 1
    ensures var left := Left(f, sortBy, sortDir == "desc", v, t, id, table);
      && OrderOn(ByOrder(Order(sortBy, sortDir == "desc")), left)
      && response == ToResponse(sortBy, sortDir, Cut(Sorted(ByOrder(Order(sortBy, sortDir == "desc")), left), limit))
  {
    hide KeysetKeeps, Matches, Holds, StrictOn, TotalOn, Sorted, Ascending, Order, ByOrder, MakeCursor;
    TableOrder(f, sortBy, sortDir == "desc", table);
    var q := ListJournal(f, sortBy, sortDir == "desc", v, t, id, limit + 1);
    var rows := Fetch(q, table);
    var hasMore := |rows| > limit;
    var items := if hasMore then rows[..limit] else rows;
    var next: Option<Cursor> := None;
    if hasMore {
      next := Some(MakeCursor(sortBy, sortDir, items[|items| - 1]));
    }
    response := Response(items, next);
    assert Kept(q, table) == Left(f, sortBy, sortDir == "desc", v, t, id, table);
    KeptOrder(q, table);
    CutResult(Sorted(ByOrder(q.order), Kept(q, table)), rows, limit);
  }

  /** GET /journal, the handler. The cursor is Some(None) when the text that was sent does not decode. */
  method ListJournalPage(table: set<Row>, f: Filters, sortByParam: string, sortDirParam: string,
                         sent: Option<Option<Cursor>>, limit: nat)
    returns (r: Result<Response<Row, Cursor>, Error>)
    requires UniqueIds(table) && limit >= 1
    ensures var cursor := if sent.Some? then sent.value else None;
      var (sb, sd) := SortOf(sortByParam, sortDirParam, cursor);
      if !TypeOk(f.entryType) then r == Failure(BadEntryType)
      else if !StatusOk(f.status) then r == Failure(BadStatus)
      else if sortByParam !in VALID_SORT_BY then r == Failure(BadSortBy)
      else if sortDirParam !in VALID_SORT_DIR then r == Failure(BadSortDir)
      else if sent == Some(None) || !SortOk(sb, sd) then r == Failure(BadCursor)
      else r == Success(Answer(table, f, sortByParam, sortDirParam, cursor, limit))
    ensures r == Failure(BadEntryType) <==> f.entryType.Some? && !(0 <= f.entryType.value <= 5)
    ensures r == Failure(BadStatus) ==> f.status.Some? && !(0 <= f.status.value <= 3)
    ensures r.Success? && f.status.Some? ==> 0 <= f.status.value <= 3
    ensures r == Failure(BadSortBy) ==> !Named(sortByParam)
    ensures r == Failure(BadSortDir) ==> sortDirParam != "asc" && sortDirParam != "desc"
    ensures r == Failure(BadCursor) ==> sent.Some?
    ensures r.Success? && sent.Some? ==>
      && sent.value.Some? && Named(Default(sent.value.value.sb, "created_time"))
      && Default(sent.value.value.sd, "desc") in {"asc", "desc"}
    ensures r.Success? ==> Named(sortByParam) && (sortDirParam == "asc" || sortDirParam == "desc")
    ensures r.Success? && sent == None && TableOk(table) ==>
      InNamedOrder(r.value.items, sortByParam, sortDirParam == "desc")
  {
    hide Answer, InNamedOrder, TableOk, OrderOn, Sorted, ByOrder, Order, MakeCursor, UniqueIds, Matches;
    if f.entryType.Some? && !(0 <= f.entryType.value <= 5) {
      return Failure(BadEntryType);
    }
    if f.status.Some? && f.status.value !in {ACTIVE, FALSIFIED, PARKED, STALE} {
      return Failure(BadStatus);
    }
    if sortByParam !in VALID_SORT_BY {
      return Failure(BadSortBy);
    }
    if sortDirParam !in VALID_SORT_DIR {
      return Failure(BadSortDir);
    }
    var sortBy, sortDir := sortByParam, sortDirParam;
    var afterValue: Value, afterCreated: Value, afterId: Value := None, None, None;
    var cursor: Option<Cursor> := None;
    if sent.Some? {
      if sent.value.None? {
        return Failure(BadCursor);
      }
      cursor := sent.value;
      var decoded := cursor.value;
      sortBy, sortDir := Default(decoded.sb, "created_time"), Default(decoded.sd, "desc");
      if sortBy !in VALID_SORT_BY || sortDir !in VALID_SORT_DIR {
        return Failure(BadCursor);
      }
      afterId := decoded.id;
      afterValue := decoded.v;
      afterCreated := if sortBy == "created_time" then decoded.v else decoded.t;
    }
    var response := FetchPage(table, f, sortBy, sortDir, afterValue, afterCreated, afterId, limit);
    AnswerIs(table, f, sortByParam, sortDirParam, cursor, limit, afterValue, afterCreated, afterId);
    r := Success(response);
    if TableOk(table) {
      AnswerInOrder(table, f, sortByParam, sortDirParam, cursor, limit);
    }
  }

  lemma AnswerIs(table: set<Row>, f: Filters, sortBy: string, sortDir: string, cursor: Option<Cursor>, limit: nat,
                 v: Value, t: Value, id: Value)
    requires UniqueIds(table) && limit >= 1
    requires var (sb, sd) := SortOf(sortBy, sortDir, cursor);
      if cursor.None? then v == t == id == None
      else v == cursor.value.v && id == cursor.value.id && t == if sb == "created_time" then v else cursor.value.t
    ensures var (sb, sd) := SortOf(sortBy, sortDir, cursor);
      var left := Left(f, sb, sd == "desc", v, t, id, table);
      && OrderOn(ByOrder(Order(sb, sd == "desc")), left)
      && Answer(table, f, sortBy, sortDir, cursor, limit)
         == ToResponse(sb, sd, Cut(Sorted(ByOrder(Order(sb, sd == "desc")), left), limit))
  {
    var (sb, sd) := SortOf(sortBy, sortDir, cursor);
    TableOrder(f, sb, sd == "desc", table);
    if cursor.None? {
      assert Left(f, sb, sd == "desc", v, t, id, table) == Filtered(f, table);
    }
  }

  /** With a cursor made by an earlier page, the answer is the next page; the query string's sort is ignored. */
  lemma AnswerContinues(table: set<Row>, f: Filters, sb: string, sd: string, ignoredBy: string, ignoredDir: string,
                        c: Row, limit: nat)
    requires UniqueIds(table) && limit >= 1 && WellFormed(c)
    ensures OrderOn(ByOrder(Order(sb, sd == "desc")), Filtered(f, table))
    ensures Answer(table, f, ignoredBy, ignoredDir, Some(MakeCursor(sb, sd, c)), limit)
         == ToResponse(sb, sd, PageOf(ByOrder(Order(sb, sd == "desc")), After(sb, sd == "desc"),
                                      Filtered(f, table), Some(c), limit))
  {
    TableOrder(f, sb, sd == "desc", table);
    var desc := sd == "desc";
    assert Left(f, sb, desc, Get(c, SortColumn(sb)), Get(c, CreatedTime), Get(c, Id), table)
        == Rest(After(sb, desc), Filtered(f, table), Some(c));
  }

  /** Oldest or newest first, then by id in the same direction. */
  predicate ByTime(desc: bool, x: Row, y: Row) {
    || ColumnBefore(Get(x, CreatedTime), Get(y, CreatedTime), desc, true)
    || (Get(x, CreatedTime) == Get(y, CreatedTime) && ColumnBefore(Get(x, Id), Get(y, Id), desc, true))
  }

  /** The rows stand in the order that was asked for by name, on the cells of each pair. */
  ghost predicate InNamedOrder(rows: seq<Row>, sortBy: string, desc: bool) {
    && (sortBy == "created_time" ==> ShownBy(rows, (x: Row, y: Row) => ByTime(desc, x, y)))
    && (sortBy == "strategy_code" ==> ShownBy(rows, (x: Row, y: Row) => ByColumn(StrategyCode, desc, true, x, y)))
    && (sortBy == "status" ==> ShownBy(rows, (x: Row, y: Row) => ByColumn(Status, desc, true, x, y)))
    && (sortBy == "entry_type" ==> ShownBy(rows, (x: Row, y: Row) => ByColumn(EntryType, desc, true, x, y)))
  }

  /** The four names that are known. */
  predicate Named(sortBy: string) {
    sortBy == "created_time" || sortBy == "strategy_code" || sortBy == "status" || sortBy == "entry_type"
  }

  lemma OrderIsNamed(sortBy: string, desc: bool, x: Row, y: Row)
    requires WellFormed(x) && WellFormed(y) && ByOrder(Order(sortBy, desc))(x, y)
    ensures sortBy == "created_time" ==> ByTime(desc, x, y)
    ensures sortBy == "strategy_code" ==> ByColumn(StrategyCode, desc, true, x, y)
    ensures sortBy == "status" ==> ByColumn(Status, desc, true, x, y)
    ensures sortBy == "entry_type" ==> ByColumn(EntryType, desc, true, x, y)
  {
    hide OrderBefore;
    if sortBy == "created_time" {
      OrderOfTwo(Term(CreatedTime, desc, !desc), Term(Id, desc, !desc), x, y);
    } else {
      OrderOfThree(Term(SortColumn(sortBy), desc, true), Term(CreatedTime, true, false), Term(Id, true, false), x, y);
    }
  }

  /**
   What a reader sees, said without the query: the items of every answer are rows of the table
   that match the filters, at most a page of them, in the order asked for by name, with rows that
   have no strategy code last and ties newest first. A cursor's sort counts before the request's.
   */
  lemma AnswerInOrder(table: set<Row>, f: Filters, sortBy: string, sortDir: string, cursor: Option<Cursor>, limit: nat)
    requires TableOk(table) && limit >= 1
    ensures var items := Answer(table, f, sortBy, sortDir, cursor, limit).items;
      var (sb, sd) := SortOf(sortBy, sortDir, cursor);
      && |items| <= limit && InNamedOrder(items, sb, sd == "desc")
      && forall r | r in items :: r in table && Matches(f, r)
  {
    hide Answer, Left, Order, ByOrder, Sorted, StrictOn, TotalOn, WellFormed, InNamedOrder, MakeCursor, Matches;
    var (sb, sd) := SortOf(sortBy, sortDir, cursor);
    var desc := sd == "desc";
    var v, t, id := if cursor.Some? then cursor.value.v else None,
      if cursor.Some? then (if sb == "created_time" then cursor.value.v else cursor.value.t) else None,
      if cursor.Some? then cursor.value.id else None;
    AnswerIs(table, f, sortBy, sortDir, cursor, limit, v, t, id);
    var left := Left(f, sb, desc, v, t, id, table);
    LeftMatches(table, f, sb, desc, v, t, id);
    PageOfRows(ByOrder(Order(sb, desc)), left, limit);
    NamedByOrder(Answer(table, f, sortBy, sortDir, cursor, limit).items, sb, desc);
  }

  lemma LeftMatches(table: set<Row>, f: Filters, sb: string, desc: bool, v: Value, t: Value, id: Value)
    requires TableOk(table)
    ensures forall r | r in Left(f, sb, desc, v, t, id, table) :: r in table && Matches(f, r) && WellFormed(r)
  {
    hide Matches, WellFormed, KeysetKeeps;
  }

  lemma NamedByOrder(items: seq<Row>, sb: string, desc: bool)
    requires forall i | 0 <= i < |items| :: WellFormed(items[i])
    requires ShownBy(items, ByOrder(Order(sb, desc)))
    ensures InNamedOrder(items, sb, desc)
  {
    hide ByOrder, Order, WellFormed, ByColumn, ByTime;
    forall i, j | 0 <= i < j < |items|
      ensures sb == "created_time" ==> ByTime(desc, items[i], items[j])
      ensures sb == "strategy_code" ==> ByColumn(StrategyCode, desc, true, items[i], items[j])
      ensures sb == "status" ==> ByColumn(Status, desc, true, items[i], items[j])
      ensures sb == "entry_type" ==> ByColumn(EntryType, desc, true, items[i], items[j])
    {
      OrderIsNamed(sb, desc, items[i], items[j]);
    }
  }

  // ---- Walks ----

  lemma AfterAgrees(sortBy: string, desc: bool, rows: set<Row>)
    requires forall r | r in rows :: WellFormed(r)
    ensures StrictOn(ByOrder(Order(sortBy, desc)), rows) && StrictOn(After(sortBy, desc), rows)
    ensures Agree(ByOrder(Order(sortBy, desc)), After(sortBy, desc), rows)
  {
    var lt, after := ByOrder(Order(sortBy, desc)), After(sortBy, desc);
    OrderStrict(Order(sortBy, desc), rows);
    forall c, r | c in rows && r in rows ensures after(c, r) <==> lt(c, r) {
      KeysetExact(sortBy, desc, c, r);
    }
    forall x, y, z | x in rows && y in rows && z in rows ensures Chain(after, x, y, z) {
      assert Chain(lt, x, y, z);
    }
  }

  /**
   Journal pagination is exact: for every table, filters, sort key, direction and page size,
   following next_cursor ends and the concatenated pages are the filtered table sorted by the
   ORDER BY, each row once.
   */
  lemma JournalWalkExact(table: set<Row>, f: Filters, sortBy: string, desc: bool, limit: nat)
    requires TableOk(table) && limit >= 1
    ensures OrderOn(ByOrder(Order(sortBy, desc)), Filtered(f, table))
      && StrictOn(After(sortBy, desc), Filtered(f, table))
    ensures Walk(ByOrder(Order(sortBy, desc)), After(sortBy, desc), Filtered(f, table), None, limit)
         == Sorted(ByOrder(Order(sortBy, desc)), Filtered(f, table))
  {
    TableOrder(f, sortBy, desc, table);
    AfterAgrees(sortBy, desc, Filtered(f, table));
    AgreeWalks(ByOrder(Order(sortBy, desc)), After(sortBy, desc), Filtered(f, table), limit);
  }

  /**
   The same, of the handler's own answers: for every table, filters, sort and page size, sending
   each cursor back ends, and the items of the answers are the filtered table in order.
   */
  lemma JournalSessionExact(table: set<Row>, f: Filters, sortBy: string, sortDir: string, limit: nat)
    requires TableOk(table) && limit >= 1
    ensures OrderOn(ByOrder(Order(sortBy, sortDir == "desc")), Filtered(f, table))
    ensures SessionsShow((cursor: Option<Cursor>) => Answer(table, f, sortBy, sortDir, cursor, limit),
                         Sorted(ByOrder(Order(sortBy, sortDir == "desc")), Filtered(f, table)))
  {
    hide WellFormed, Filtered, ByOrder, After, Order, StrictOn, TotalOn, Sorted, PageOf, MakeCursor, SessionsShow,
        Answer, Walk;
    var desc := sortDir == "desc";
    var server := (cursor: Option<Cursor>) => Answer(table, f, sortBy, sortDir, cursor, limit);
    var encode := (row: Row) => MakeCursor(sortBy, sortDir, row);
    var lt, after, rows := ByOrder(Order(sortBy, desc)), After(sortBy, desc), Filtered(f, table);
    JournalWalkExact(table, f, sortBy, desc, limit);
    forall cursor: Option<Row> | cursor.None? || cursor.value in rows
      ensures server(EncodeCursor(cursor, encode)) == Respond(PageOf(lt, after, rows, cursor, limit), encode)
    {
      if cursor.Some? {
        FilteredOk(table, f, cursor.value);
        AnswerContinues(table, f, sortBy, sortDir, sortBy, sortDir, cursor.value, limit);
      } else {
        AnswerStarts(table, f, sortBy, sortDir, limit);
      }
    }
    SessionsAreWalks(server, encode, lt, after, rows, limit);
  }

  lemma FilteredOk(table: set<Row>, f: Filters, r: Row)
    requires TableOk(table) && r in Filtered(f, table)
    ensures WellFormed(r)
  {
  }

  lemma AnswerStarts(table: set<Row>, f: Filters, sb: string, sd: string, limit: nat)
    requires UniqueIds(table) && limit >= 1
    ensures OrderOn(ByOrder(Order(sb, sd == "desc")), Filtered(f, table))
    ensures Answer(table, f, sb, sd, None, limit)
         == ToResponse(sb, sd, PageOf(ByOrder(Order(sb, sd == "desc")), After(sb, sd == "desc"),
                                      Filtered(f, table), None, limit))
  {
    TableOrder(f, sb, sd == "desc", table);
  }

  /** The filtered tables that the pages of a walk are read from. */
  ghost function Shown(tables: seq<set<Row>>, f: Filters, sortBy: string, desc: bool): (shown: seq<set<Row>>)
    requires forall i | 0 <= i < |tables| :: TableOk(tables[i])
    ensures |shown| == |tables|
    ensures forall i | 0 <= i < |tables| ::
      shown[i] == Filtered(f, tables[i]) && OrderOn(ByOrder(Order(sortBy, desc)), shown[i])
  {
    if tables == [] then []
    else
      assert TableOk(tables[|tables| - 1]);
      TableOrder(f, sortBy, desc, tables[|tables| - 1]);
      Shown(tables[..|tables| - 1], f, sortBy, desc) + [Filtered(f, tables[|tables| - 1])]
  }

  lemma ShownOk(tables: seq<set<Row>>, f: Filters, sortBy: string, desc: bool) returns (all: set<Row>)
    requires forall i | 0 <= i < |tables| :: TableOk(tables[i])
    ensures TablesOk(ByOrder(Order(sortBy, desc)), all, Shown(tables, f, sortBy, desc))
    ensures StrictOn(ByOrder(Order(sortBy, desc)), all)
    ensures Agree(ByOrder(Order(sortBy, desc)), After(sortBy, desc), all)
  {
    var shown := Shown(tables, f, sortBy, desc);
    all := set i, r | 0 <= i < |shown| && r in shown[i] :: r;
    AfterAgrees(sortBy, desc, all);
  }

  /**
   When rows are inserted, deleted or changed between pages, the pages stay in ORDER BY order and
   no version of a row is shown twice. Two versions of one row may be: see NoRepeatIff.
   */
  lemma JournalWalkNoDuplicates(tables: seq<set<Row>>, f: Filters, sortBy: string, desc: bool, limit: nat,
      pages: seq<Page<Row>>)
    requires limit >= 1 && forall i | 0 <= i < |tables| :: TableOk(tables[i])
    requires IsWalk(ByOrder(Order(sortBy, desc)), After(sortBy, desc), Shown(tables, f, sortBy, desc), pages, limit)
    ensures Distinct(Concat(pages, |pages|)) && Ascending(ByOrder(Order(sortBy, desc)), Concat(pages, |pages|))
  {
    var all := ShownOk(tables, f, sortBy, desc);
    ChangingTableNoDuplicates(ByOrder(Order(sortBy, desc)), After(sortBy, desc), all, Shown(tables, f, sortBy, desc),
        pages, limit);
  }

  lemma SteadyShown(tables: seq<set<Row>>, f: Filters, sortBy: string, desc: bool, r: Row)
    requires forall i | 0 <= i < |tables| :: TableOk(tables[i]) && r in tables[i]
    requires Matches(f, r)
    ensures var shown := Shown(tables, f, sortBy, desc); Steady(shown, r, |shown|)
  {
    hide TableOk, Matches, OrderOn, ByOrder;
    var shown := Shown(tables, f, sortBy, desc);
    forall i | 0 <= i < |shown| ensures r in shown[i] {
      assert shown[i] == Filtered(f, tables[i]);
    }
  }

  /** And every matching row that is in the table, unchanged, at every page is shown. */
  lemma JournalWalkHidesNothing(tables: seq<set<Row>>, f: Filters, sortBy: string, desc: bool, limit: nat,
                                pages: seq<Page<Row>>, r: Row)
    requires limit >= 1 && forall i | 0 <= i < |tables| :: TableOk(tables[i])
    requires IsWalk(ByOrder(Order(sortBy, desc)), After(sortBy, desc), Shown(tables, f, sortBy, desc), pages, limit)
    requires Matches(f, r) && forall i | 0 <= i < |tables| :: r in tables[i]
    ensures r in Concat(pages, |pages|)
  {
    hide StrictOn, TotalOn, Agree, TablesOk, IsWalk, Sorted, ByOrder, After, Order, WellFormed;
    var all := ShownOk(tables, f, sortBy, desc);
    var shown := Shown(tables, f, sortBy, desc);
    SteadyShown(tables, f, sortBy, desc, r);
    ChangingTableHidesNothing(ByOrder(Order(sortBy, desc)), After(sortBy, desc), all, shown, pages, limit, r);
  }

  // ---- Which walks can show one journal entry twice ----

  /** The writes of research_journal: insert_journal, and the UPDATE that parks answered review requests. */
  datatype Write = InsertEntry(row: Row) | ParkEntries(ids: set<int>)

  function Park(r: Row): Row {
    r.(cells := r.cells[Status := Some(PARKED)])
  }

  /** Only ACTIVE entries of type IDEA_BACKLOG are parked. */
  function AfterPark(r: Row, ids: set<int>): Row {
    if Get(r, Status) == Some(ACTIVE) && Get(r, EntryType) == Some(IDEA_BACKLOG)
       && Get(r, Id).Some? && Get(r, Id).value in ids
    then Park(r) else r
  }

  predicate SameId(x: Row, y: Row) {
    Get(x, Id) == Get(y, Id)
  }

  /** An entry that violates NOT NULL or the primary key is refused. */
  function Written(table: set<Row>, w: Write): set<Row> {
    match w
    case InsertEntry(row) =>
      if WellFormed(row) && forall r | r in table :: !SameId(r, row) then table + {row} else table
    case ParkEntries(ids) => set r | r in table :: AfterPark(r, ids)
  }

  function TableAfter(table: set<Row>, writes: seq<Write>, n: nat): set<Row>
    requires n <= |writes|
  {
    if n == 0 then table else Written(TableAfter(table, writes, n - 1), writes[n - 1])
  }

  /** y is x, or x parked. */
  predicate Version(x: Row, y: Row) {
    y == x || (Get(x, Status) == Some(ACTIVE) && Get(x, EntryType) == Some(IDEA_BACKLOG) && y == Park(x))
  }

  lemma {:induction false} TableStaysOk(table: set<Row>, writes: seq<Write>, n: nat)
    requires TableOk(table) && n <= |writes|
    ensures TableOk(TableAfter(table, writes, n))
  {
    if n > 0 {
      TableStaysOk(table, writes, n - 1);
    }
  }

  lemma {:induction false} StaysPresent(table: set<Row>, writes: seq<Write>, i: nat, j: nat, x: Row) returns (y: Row)
    requires i <= j <= |writes| && x in TableAfter(table, writes, i)
    ensures y in TableAfter(table, writes, j) && SameId(x, y)
  {
    if i == j {
      y := x;
    } else {
      var before := StaysPresent(table, writes, i, j - 1, x);
      var w := writes[j - 1];
      y := if w.ParkEntries? then AfterPark(before, w.ids) else before;
    }
  }

  /** An entry changes at most once, from ACTIVE to PARKED. */
  lemma {:induction false} VersionsLater(table: set<Row>, writes: seq<Write>, i: nat, j: nat, x: Row, y: Row)
    requires TableOk(table) && i <= j <= |writes|
    requires x in TableAfter(table, writes, i) && y in TableAfter(table, writes, j) && SameId(x, y)
    ensures Version(x, y)
  {
    hide WellFormed;
    if i == j {
      TableStaysOk(table, writes, i);
    } else {
      var before := TableAfter(table, writes, j - 1);
      match writes[j - 1]
      case InsertEntry(row) =>
        var x' := StaysPresent(table, writes, i, j - 1, x);
        assert y in before;
        VersionsLater(table, writes, i, j - 1, x, y);
      case ParkEntries(ids) =>
        var y' :| y' in before && y == AfterPark(y', ids);
        VersionsLater(table, writes, i, j - 1, x, y');
    }
  }

  /** The entry is an open review request, and one of the writes i..j answers it. */
  ghost predicate Answered(writes: seq<Write>, i: nat, j: nat, x: Row)
    requires j <= |writes|
  {
    && Get(x, Status) == Some(0) && Get(x, EntryType) == Some(3)
    && exists k | i <= k < j :: writes[k].ParkEntries? && exists id | id in writes[k].ids :: Get(x, Id) == Some(id)
  }

  /** No entry leaves the journal. It reads as inserted until it is answered, then PARKED and otherwise the same. */
  lemma {:induction false} EntryOfHistory(table: set<Row>, writes: seq<Write>, i: nat, j: nat, x: Row)
    requires i <= j <= |writes|
    requires
      || x in TableAfter(table, writes, i)
      || (i < j && writes[i] == InsertEntry(x) && WellFormed(x)
          && forall r | r in TableAfter(table, writes, i) :: Get(r, Id) != Get(x, Id))
    ensures
      (if Answered(writes, i, j, x) then x.(cells := x.cells[Status := Some(2)]) else x) in TableAfter(table, writes, j)
  {
    hide WellFormed;
    if i < j {
      var m := j - 1;
      if i == m && x !in TableAfter(table, writes, i) {
        assert !Answered(writes, i, j, x);
      } else {
        EntryOfHistory(table, writes, i, m, x);
        AnsweredStep(writes, i, m, j, x);
        hide Answered;
        var y := if Answered(writes, i, m, x) then x.(cells := x.cells[Status := Some(2)]) else x;
        assert y in TableAfter(table, writes, m);
        if writes[m].ParkEntries? {
          assert AfterPark(y, writes[m].ids) in TableAfter(table, writes, j);
          ParkedCells(y, writes[m].ids);
          ParkedCells(x, writes[m].ids);
        }
      }
    }
  }

  lemma ParkedCells(r: Row, ids: set<int>)
    ensures Get(r, Status) == Some(2) ==> AfterPark(r, ids) == r
    ensures Get(r.(cells := r.cells[Status := Some(2)]), Status) == Some(2)
    ensures AfterPark(r, ids) ==
      if Get(r, Status) == Some(0) && Get(r, EntryType) == Some(3) && exists id | id in ids :: Get(r, Id) == Some(id)
      then r.(cells := r.cells[Status := Some(2)]) else r
  {
    if Get(r, Id).Some? {
      var id: int := Get(r, Id).value;
      assert Get(r, Id) == Some(id);
      if id in ids {
        assert exists other | other in ids :: Get(r, Id) == Some(other);
      }
    }
  }

  lemma AnsweredStep(writes: seq<Write>, i: nat, m: nat, j: nat, x: Row)
    requires i <= m && m + 1 == j <= |writes|
    ensures Answered(writes, i, j, x) <==>
      || Answered(writes, i, m, x)
      || (Get(x, Status) == Some(0) && Get(x, EntryType) == Some(3)
          && writes[m].ParkEntries? && exists id | id in writes[m].ids :: Get(x, Id) == Some(id))
  {
  }

  /**
   Listings that can show an entry before and after it is parked: ascending by status, with backlog
   entries of any status.
   */
  predicate CanRepeat(f: Filters, sortBy: string, desc: bool) {
    sortBy == "status" && !desc && f.status.None? && (f.entryType.None? || f.entryType == Some(IDEA_BACKLOG))
  }

  /** In all other listings parking moves no entry forward that matches before and after. */
  lemma VersionStaysBack(f: Filters, sortBy: string, desc: bool, x: Row, y: Row)
    requires Version(x, y) && Matches(f, x) && Matches(f, y) && !CanRepeat(f, sortBy, desc)
    ensures !ByOrder(Order(sortBy, desc))(x, y)
  {
    hide OrderBefore;
    if y == x {
      OrderChain(Order(sortBy, desc), x, x, x);
    } else if sortBy == "created_time" {
      OrderOfTwo(Term(CreatedTime, desc, !desc), Term(Id, desc, !desc), x, y);
    } else {
      OrderOfThree(Term(SortColumn(sortBy), desc, true), Term(CreatedTime, true, false), Term(Id, true, false), x, y);
    }
  }

  function TablesAt(table: set<Row>, writes: seq<Write>, at: seq<nat>): (tables: seq<set<Row>>)
    requires forall i | 0 <= i < |at| :: at[i] <= |writes|
    ensures |tables| == |at| && forall i | 0 <= i < |at| :: tables[i] == TableAfter(table, writes, at[i])
  {
    seq(|at|, i requires 0 <= i < |at| => TableAfter(table, writes, at[i]))
  }

  /** The pages are a walk in which page i was read after at[i] of the writes. */
  ghost predicate WalkDuring(table: set<Row>, writes: seq<Write>, at: seq<nat>, f: Filters, sortBy: string, desc: bool,
                             limit: nat, pages: seq<Page<Row>>) {
    && limit >= 1 && TableOk(table)
    && (forall i | 0 <= i < |at| :: at[i] <= |writes|)
    && (forall i, j | 0 <= i <= j < |at| :: at[i] <= at[j])
    && (forall i | 0 <= i < |at| :: TableOk(TablesAt(table, writes, at)[i]))
    && IsWalk(ByOrder(Order(sortBy, desc)), After(sortBy, desc), Shown(TablesAt(table, writes, at), f, sortBy, desc),
      pages, limit)
  }

  lemma WalkDuringNoRepeat(table: set<Row>, writes: seq<Write>, at: seq<nat>, f: Filters, sortBy: string, desc: bool,
                           limit: nat, pages: seq<Page<Row>>)
    requires WalkDuring(table, writes, at, f, sortBy, desc, limit, pages) && !CanRepeat(f, sortBy, desc)
    ensures NoRepeat(SameId, Concat(pages, |pages|))
  {
    hide ByOrder, After, Order, StrictOn, TotalOn, Agree, IsWalk, TablesOk, Version, WellFormed, TableAfter,
        CanRepeat, Matches;
    var lt := ByOrder(Order(sortBy, desc));
    var tables := TablesAt(table, writes, at);
    var all := ShownOk(tables, f, sortBy, desc);
    var shown := Shown(tables, f, sortBy, desc);
    forall i, j | 0 <= i <= j < |shown| ensures StaysBack(lt, SameId, shown[i], shown[j]) {
      forall x, y | x in shown[i] && y in shown[j] && SameId(x, y) ensures !lt(x, y) {
        VersionsLater(table, writes, at[i], at[j], x, y);
        VersionStaysBack(f, sortBy, desc, x, y);
      }
    }
    ChangingTableNoRepeats(lt, After(sortBy, desc), all, shown, pages, limit, SameId);
  }

  /** A backlog entry that matches the filters. */
  function Entry(f: Filters, id: int, status: int): Row {
    Row(map[Id := Some(id), CreatedTime := Some(1), Status := Some(status), EntryType := Some(IDEA_BACKLOG),
            StrategyCode := f.strategyCode],
        if f.search.Some? then {f.search.value} else {})
  }

  /**
   Sorted by status, ascending, one entry a page, with any filters that leave backlog entries of
   all statuses. Entry 1 is shown ACTIVE, is parked before the second page is read, and comes again.
   */
  lemma ParkedEntryRepeats(f: Filters)
    requires CanRepeat(f, "status", false)
    ensures var x, y, z := Entry(f, 1, ACTIVE), Entry(f, 1, PARKED), Entry(f, 2, STALE);
      var pages := [Page([x], Some(x)), Page([y], Some(y)), Page([z], None)];
      && WalkDuring({x, z}, [ParkEntries({1})], [0, 1, 1], f, "status", false, 1, pages)
      && Concat(pages, |pages|) == [x, y, z] && SameId(x, y)
  {
    hide ByOrder, After, Order, StrictOn, TotalOn, IsWalk, Entry, TableAfter, WellFormed, AfterPark, Matches;
    var x, y, z := Entry(f, 1, ACTIVE), Entry(f, 1, PARKED), Entry(f, 2, STALE);
    var writes, at := [ParkEntries({1})], [0, 1, 1];
    ParkedTables(f, x, y, z);
    var tables := TablesAt({x, z}, writes, at);
    assert tables == [{x, z}, {y, z}, {y, z}];
    ParkedWalk(f, x, y, z, tables);
  }

  lemma EntryCells(f: Filters, id: int, status: int)
    requires CanRepeat(f, "status", false)
    ensures var r := Entry(f, id, status);
      && WellFormed(r) && Get(r, Id) == Some(id) && Get(r, Status) == Some(status)
      && Get(r, EntryType) == Some(IDEA_BACKLOG) && Matches(f, r)
    ensures Park(Entry(f, id, status)) == Entry(f, id, PARKED)
  {
  }

  lemma ParkedTables(f: Filters, x: Row, y: Row, z: Row)
    requires CanRepeat(f, "status", false)
    requires x == Entry(f, 1, ACTIVE) && y == Entry(f, 1, PARKED) && z == Entry(f, 2, STALE)
    ensures TableAfter({x, z}, [ParkEntries({1})], 0) == {x, z} && TableAfter({x, z}, [ParkEntries({1})], 1) == {y, z}
    ensures TableOk({x, z}) && TableOk({y, z}) && SameId(x, y)
    ensures WellFormed(x) && WellFormed(y) && WellFormed(z)
    ensures Matches(f, x) && Matches(f, y) && Matches(f, z)
    ensures Get(x, Status) == Some(ACTIVE) && Get(y, Status) == Some(PARKED) && Get(z, Status) == Some(STALE)
  {
    hide WellFormed, Entry, Park, Get, Matches;
    EntryCells(f, 1, ACTIVE);
    EntryCells(f, 1, PARKED);
    EntryCells(f, 2, STALE);
    var writes := [ParkEntries({1})];
    assert TableAfter({x, z}, writes, 0) == {x, z};
    assert AfterPark(x, {1}) == y && AfterPark(z, {1}) == z;
    assert Written({x, z}, ParkEntries({1})) == {y, z};
  }

  lemma ParkedWalk(f: Filters, x: Row, y: Row, z: Row, tables: seq<set<Row>>)
    requires TableOk({x, z}) && TableOk({y, z}) && tables == [{x, z}, {y, z}, {y, z}]
    requires WellFormed(x) && WellFormed(y) && WellFormed(z)
    requires Matches(f, x) && Matches(f, y) && Matches(f, z)
    requires Get(x, Status) == Some(ACTIVE) && Get(y, Status) == Some(PARKED) && Get(z, Status) == Some(STALE)
    ensures forall i | 0 <= i < |tables| :: TableOk(tables[i])
    ensures var pages := [Page([x], Some(x)), Page([y], Some(y)), Page([z], None)];
      && IsWalk(ByOrder(Order("status", false)), After("status", false), Shown(tables, f, "status", false), pages, 1)
      && Concat(pages, |pages|) == [x, y, z]
  {
    hide ByOrder, After, Order, OrderOn, IsWalk, TableOk, WellFormed, Filtered, Get, Concat, Matches;
    TableOkOrder({x, z});
    TableOkOrder({y, z});
    StatusOrder(x, y);
    StatusOrder(x, z);
    StatusOrder(y, z);
    StatusOrder(y, y);
    AllMatch(f, x, z);
    AllMatch(f, y, z);
    var shown := Shown(tables, f, "status", false);
    assert shown == tables;
    MovedForwardRepeats(ByOrder(Order("status", false)), After("status", false), x, y, z);
  }

  lemma AllMatch(f: Filters, x: Row, y: Row)
    requires Matches(f, x) && Matches(f, y)
    ensures Filtered(f, {x, y}) == {x, y}
  {
  }

  lemma TableOkOrder(table: set<Row>)
    requires TableOk(table)
    ensures OrderOn(ByOrder(Order("status", false)), table)
  {
    OrderOk(Order("status", false), table);
  }

  lemma StatusOrder(x: Row, y: Row)
    requires WellFormed(x) && WellFormed(y)
    ensures var lt, after := ByOrder(Order("status", false)), After("status", false);
      && (Get(x, Status).value < Get(y, Status).value ==> lt(x, y) && after(x, y))
      && (x == y ==> !after(x, y))
  {
    KeysetExact("status", false, x, y);
    OrderOfThree(Term(Status, false, true), Term(CreatedTime, true, false), Term(Id, true, false), x, y);
  }

  /**
   Which listings can repeat an entry, over every history of writes and every walk during it:
   only the ascending one by status, and it only if no status is filtered on and the entry type
   is not filtered to another one. In all others no journal_id is ever shown twice.
   */
  lemma NoRepeatIff(f: Filters, sortBy: string, desc: bool)
    ensures (forall table, writes, at, limit, pages | WalkDuring(table, writes, at, f, sortBy, desc, limit, pages) ::
               NoRepeat(SameId, Concat(pages, |pages|)))
       <==> !CanRepeat(f, sortBy, desc)
  {
    if !CanRepeat(f, sortBy, desc) {
      forall table, writes, at, limit, pages | WalkDuring(table, writes, at, f, sortBy, desc, limit, pages)
        ensures NoRepeat(SameId, Concat(pages, |pages|))
      {
        WalkDuringNoRepeat(table, writes, at, f, sortBy, desc, limit, pages);
      }
    } else {
      hide WalkDuring, NoRepeat;
      var table, pages := RepeatingWalk(f);
      assert WalkDuring(table, [ParkEntries({1})], [0, 1, 1], f, sortBy, desc, 1, pages);
    }
  }

  lemma RepeatingWalk(f: Filters) returns (table: set<Row>, pages: seq<Page<Row>>)
    requires CanRepeat(f, "status", false)
    ensures WalkDuring(table, [ParkEntries({1})], [0, 1, 1], f, "status", false, 1, pages)
    ensures !NoRepeat(SameId, Concat(pages, |pages|))
  {
    hide WalkDuring, CanRepeat, Entry;
    ParkedEntryRepeats(f);
    var x, y, z := Entry(f, 1, ACTIVE), Entry(f, 1, PARKED), Entry(f, 2, STALE);
    table, pages := {x, z}, [Page([x], Some(x)), Page([y], Some(y)), Page([z], None)];
    var shown := Concat(pages, |pages|);
    assert SameId(shown[0], shown[1]);
  }
}
