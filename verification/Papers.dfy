/**
 GET /papers: the query of repo/papers.py and the handler of api/papers.py. A row is a paper
 joined with its queue row; StrategyKind holds the COALESCE(UPPER(...), 'TRADING') value.
 Metric columns may be null; paper_id, created_time and updated_time are not.
 */
module Papers {
  import opened Wrappers
  import opened Pagination
  import opened Sql

  datatype Filters = Filters(status: Value, strategyCode: Value, strategyKind: Value, instrument: Value,
      interval: Value)

  /** The JSON object inside a cursor: "t", "id" and, for metric sorts, "sv". */
  datatype Cursor = Cursor(t: Value, id: Value, hasSv: bool, sv: Value)

  datatype Error = BadStatus | BadKind | BadSortBy | BadSortDir | BadCursor

  // The paper statuses and the strategy kinds, as values.
  const FINALIZED := 0
  const WORKING_PAPER := 1
  const HEDGING := 0
  const TRADING := 1

  // str.upper and str.lower, on the characters that matter for the two comparisons below
  function UpperChar(c: char): char {
    if 'a' <= c <= 'z' then ('A' as int + (c as int - 'a' as int)) as char else if c == '\U{131}' then 'I' else c
  }

  function LowerChar(c: char): char {
    if 'A' <= c <= 'Z' then ('a' as int + (c as int - 'A' as int)) as char else c
  }

  function Upper(s: string): string {
    seq(|s|, i requires 0 <= i < |s| => UpperChar(s[i]))
  }

  function Lower(s: string): string {
    seq(|s|, i requires 0 <= i < |s| => LowerChar(s[i]))
  }

  /** The filter value of a strategy_kind parameter; Failure when it names no kind. */
  function KindOf(kind: Option<string>): Result<Value, Error> {
    if kind.None? then Success(None)
    else if Upper(kind.value) == "HEDGING" then Success(Some(HEDGING))
    else if Upper(kind.value) == "TRADING" then Success(Some(TRADING))
    else Failure(BadKind)
  }

  predicate SortByOk(s: string) {
    IsTimestamp(s) || s == "annualized_return_pct" || s == "profit_factor" || s == "win_rate" || s == "n_trades"
    || s == "sharpe_ratio"
  }

  // _TIMESTAMP_SORTS
  predicate IsTimestamp(s: string) {
    s == "created_time" || s == "updated_time"
  }

  // _SORT_COLUMN_MAP
  function SortColumn(s: string): Column {
    if s == "annualized_return_pct" then AnnualizedReturnPct
    else if s == "profit_factor" then ProfitFactor
    else if s == "win_rate" then WinRate
    else if s == "n_trades" then NTrades
    else if s == "sharpe_ratio" then SharpeRatio
    else if s == "updated_time" then UpdatedTime
    else CreatedTime
  }

  predicate WellFormed(r: Row) {
    Get(r, Id).Some? && Get(r, CreatedTime).Some? && Get(r, UpdatedTime).Some?
  }

  ghost predicate TableOk(table: set<Row>) {
    UniqueIds(table) && forall r | r in table :: WellFormed(r)
  }

  /** ORDER BY sort_col DIR NULLS LAST/FIRST, created_time DESC, paper_id DESC */
  function Order(sortBy: string, desc: bool): seq<Term> {
    [Term(SortColumn(sortBy), desc, desc), Term(CreatedTime, true, false), Term(Id, true, false)]
  }

  predicate Matches(f: Filters, r: Row) {
    && (f.status.Some? ==> Get(r, Status) == f.status)
    && (f.strategyCode.Some? ==> Get(r, StrategyCode) == f.strategyCode)
    && (f.strategyKind.Some? ==> Get(r, StrategyKind) == f.strategyKind)
    && (f.instrument.Some? ==> Get(r, Instrument) == f.instrument)
    && (f.interval.Some? ==> Get(r, IntervalName) == f.interval)
  }

  /**
   The keyset conjunct and its arguments after n bound arguments; no conjunct when the cursor does
   not fit the sort.
   */
  function Keyset(sortBy: string, desc: bool, c: Cursor, n: nat): Option<(Cond, seq<Value>)> {
    var op := if desc then Lt else Gt;
    var col := SortColumn(sortBy);
    var tie := ComparePair(CreatedTime, Id, op, n + 1, n + 2);
    if c.t.None? || c.id.None? then None
    else if IsTimestamp(sortBy) then Some((ComparePair(col, Id, op, n + 1, n + 2), [c.t, c.id]))
    else if !c.hasSv then None
    else if c.sv.None? then
      if desc then Some((And(IsNull(col), tie), [c.t, c.id]))
      else Some((Or(IsNotNull(col), And(IsNull(col), tie)), [c.t, c.id]))
    else
      var beyond := Or(Compare(col, op, n + 3), And(NotDistinct(col, n + 3), tie));
      Some((if desc then Or(beyond, IsNull(col)) else beyond, [c.t, c.id, c.sv]))
  }

  predicate KeysetKeeps(sortBy: string, desc: bool, c: Cursor, r: Row) {
    var keyset := Keyset(sortBy, desc, c, 0);
    keyset.Some? ==> Eval(keyset.value.0, r, keyset.value.1) == Yes
  }

  /** What the keyset evaluates to. */
  function KeysetValue(sortBy: string, desc: bool, c: Cursor, r: Row): Tri {
    var op := if desc then Lt else Gt;
    var x := Get(r, SortColumn(sortBy));
    var tie := ComparePairs(op, Get(r, CreatedTime), Get(r, Id), c.t, c.id);
    if IsTimestamp(sortBy) then ComparePairs(op, x, Get(r, Id), c.t, c.id)
    else if c.sv.None? then
      if desc then TriAnd(FromBool(x.None?), tie)
      else TriOr(FromBool(x.Some?), TriAnd(FromBool(x.None?), tie))
    else
      var beyond := TriOr(CompareValues(op, x, c.sv), TriAnd(FromBool(x == c.sv), tie));
      if desc then TriOr(beyond, FromBool(x.None?)) else beyond
  }

  lemma KeysetEval(sortBy: string, desc: bool, c: Cursor, r: Row)
    requires Keyset(sortBy, desc, c, 0).Some?
    ensures var (cond, args) := Keyset(sortBy, desc, c, 0).value;
      Eval(cond, r, args) == KeysetValue(sortBy, desc, c, r)
  {
    var (cond, all) := Keyset(sortBy, desc, c, 0).value;
    var op := if desc then Lt else Gt;
    var col := SortColumn(sortBy);
    if !IsTimestamp(sortBy) {
      var tie := ComparePair(CreatedTime, Id, op, 1, 2);
      assert Eval(tie, r, all) == ComparePairs(op, Get(r, CreatedTime), Get(r, Id), c.t, c.id);
      EvalAnd(IsNull(col), tie, r, all);
      if c.sv.None? {
        EvalOr(IsNotNull(col), And(IsNull(col), tie), r, all);
      } else {
        var cmp, same := Compare(col, op, 3), And(NotDistinct(col, 3), tie);
        EvalAnd(NotDistinct(col, 3), tie, r, all);
        EvalOr(cmp, same, r, all);
        EvalOr(Or(cmp, same), IsNull(col), r, all);
      }
    }
  }

  lemma KeysetShift(sortBy: string, desc: bool, c: Cursor, n: nat)
    requires Keyset(sortBy, desc, c, n).Some?
    ensures Keyset(sortBy, desc, c, 0).Some?
    ensures var (cond, args) := Keyset(sortBy, desc, c, 0).value;
      Keyset(sortBy, desc, c, n).value == (Shift(cond, n), args) && Uses(cond, |args|)
  {
    hide Shift, Uses;
    var op, col := if desc then Lt else Gt, SortColumn(sortBy);
    var k := |Keyset(sortBy, desc, c, 0).value.1|;
    var tie := ComparePair(CreatedTime, Id, op, 1, 2);
    ShiftPair(CreatedTime, Id, op, 1, 2, n, k);
    ShiftPair(col, Id, op, 1, 2, n, k);
    ShiftLeaves(col, op, k, n, k);
    ShiftBoth(IsNull(col), tie, n, k);
    ShiftBoth(IsNotNull(col), And(IsNull(col), tie), n, k);
    if k == 3 {
      var same := And(NotDistinct(col, 3), tie);
      ShiftBoth(NotDistinct(col, 3), tie, n, k);
      ShiftBoth(Compare(col, op, 3), same, n, k);
      ShiftBoth(Or(Compare(col, op, 3), same), IsNull(col), n, k);
    }
  }

  /** The keyset means the same on its own and after any other arguments. */
  lemma KeysetPlace(sortBy: string, desc: bool, c: Cursor, args: seq<Value>)
    requires Keyset(sortBy, desc, c, |args|).Some?
    ensures var (cond, more) := Keyset(sortBy, desc, c, |args|).value;
      && Uses(cond, |args + more|)
      && forall r :: Eval(cond, r, args + more) == Yes <==> KeysetKeeps(sortBy, desc, c, r)
  {
    hide Keyset, Shift, Uses, Eval;
    KeysetShift(sortBy, desc, c, |args|);
    var (cond, more) := Keyset(sortBy, desc, c, 0).value;
    ShiftPlace(cond, args, more);
  }

  /** list_papers: builds the WHERE clause and its argument list step by step. */
  method ListPapers(f: Filters, sortBy: string, desc: bool, cursor: Option<Cursor>, limit: nat) returns (q: Query)
    ensures q.order == Order(sortBy, desc) && q.limit == limit
    ensures forall r :: Holds(q.conds, r, q.args) <==>
      Matches(f, r) && (cursor.Some? ==> KeysetKeeps(sortBy, desc, cursor.value, r))
  {
    hide KeysetKeeps, Uses, AllUse, Holds;
    var conds: seq<Cond>, args: seq<Value> := [], [];
    EmptyConds();
    conds, args := AppendEqual(conds, args, Status, f.status);
    conds, args := AppendEqual(conds, args, StrategyCode, f.strategyCode);
    conds, args := AppendEqual(conds, args, StrategyKind, f.strategyKind);
    conds, args := AppendEqual(conds, args, Instrument, f.instrument);
    conds, args := AppendEqual(conds, args, IntervalName, f.interval);
    if cursor.Some? {
      conds, args := AppendKeyset(conds, args, sortBy, desc, cursor.value);
    }
    q := Query(conds, args, Order(sortBy, desc), limit);
  }

  method AppendKeyset(conds: seq<Cond>, args: seq<Value>, sortBy: string, desc: bool, c: Cursor)
    returns (conds': seq<Cond>, args': seq<Value>)
    requires AllUse(conds, |args|)
    ensures forall r :: Holds(conds', r, args') <==> Holds(conds, r, args) && KeysetKeeps(sortBy, desc, c, r)
  {
    hide Uses, AllUse, Holds, Eval;
    conds', args' := conds, args;
    var keyset := Keyset(sortBy, desc, c, |args|);
    if keyset.Some? {
      KeysetPlace(sortBy, desc, c, args);
      conds', args' := Append(conds, args, keyset.value.0, keyset.value.1);
    }
  }

  // ---- What the keyset orders by ----

  /** The next_cursor payload made from the last row of a page. */
  function MakeCursor(sortBy: string, last: Row): Cursor {
    if IsTimestamp(sortBy) then
      var ts := Get(last, SortColumn(sortBy));
      Cursor(if ts.Some? then ts else Get(last, CreatedTime), Get(last, Id), false, None)
    else Cursor(Get(last, CreatedTime), Get(last, Id), true, Get(last, SortColumn(sortBy)))
  }

  function After(sortBy: string, desc: bool): Rel<Row> {
    (c: Row, r: Row) => KeysetKeeps(sortBy, desc, MakeCursor(sortBy, c), r)
  }

  /** How the keyset breaks ties of the sort column; the ORDER BY always uses created_time DESC, paper_id DESC. */
  function KeysetTies(sortBy: string, desc: bool): seq<Term> {
    if IsTimestamp(sortBy) then [Term(Id, desc, false)]
    else [Term(CreatedTime, desc, false), Term(Id, desc, false)]
  }

  const ORDER_TIES := [Term(CreatedTime, true, false), Term(Id, true, false)]

  /** paper_id in the direction of the sort ranks x before y. */
  predicate IdFirst(desc: bool, x: Row, y: Row)
    requires WellFormed(x) && WellFormed(y)
  {
    if desc then Get(x, Id).value > Get(y, Id).value else Get(x, Id).value < Get(y, Id).value
  }

  lemma KeysetTiesMeaning(sortBy: string, desc: bool, c: Row, r: Row)
    requires WellFormed(c) && WellFormed(r)
    ensures OrderBefore(KeysetTies(sortBy, desc), c, r) <==>
      var op := if desc then Lt else Gt;
      if IsTimestamp(sortBy) then IdFirst(desc, c, r)
      else ComparePairs(op, Get(r, CreatedTime), Get(r, Id), Get(c, CreatedTime), Get(c, Id)) == Yes
  {
    if IsTimestamp(sortBy) {
      assert OrderBefore([], c, r) == false;
      assert [Term(Id, desc, false)][1..] == [];
    } else {
      OrderOfTwo(Term(CreatedTime, desc, false), Term(Id, desc, false), c, r);
    }
  }

  lemma AfterValue(sortBy: string, desc: bool, c: Row, r: Row)
    requires WellFormed(c)
    ensures After(sortBy, desc)(c, r) <==> KeysetValue(sortBy, desc, MakeCursor(sortBy, c), r) == Yes
  {
    hide KeysetValue, Eval, Uses;
    var cursor := MakeCursor(sortBy, c);
    KeysetEval(sortBy, desc, cursor, r);
  }

  /**
   For every sort key, direction and null case, the keyset of the cursor of a row keeps the
   rows whose sort value comes later and, among equal ones, those later in its own tie order.
   */
  lemma KeysetOrders(sortBy: string, desc: bool, c: Row, r: Row)
    requires WellFormed(c) && WellFormed(r)
    ensures var col := SortColumn(sortBy);
      After(sortBy, desc)(c, r) <==>
        || TermBefore(Term(col, desc, desc), Get(c, col), Get(r, col))
        || (Get(c, col) == Get(r, col) && OrderBefore(KeysetTies(sortBy, desc), c, r))
  {
    hide After, Keyset, OrderBefore, KeysetTies;
    AfterValue(sortBy, desc, c, r);
    KeysetTiesMeaning(sortBy, desc, c, r);
  }

  lemma OrderSplit(sortBy: string, desc: bool, c: Row, r: Row)
    ensures var col := SortColumn(sortBy);
      ByOrder(Order(sortBy, desc))(c, r) <==>
        || TermBefore(Term(col, desc, desc), Get(c, col), Get(r, col))
        || (Get(c, col) == Get(r, col) && OrderBefore(ORDER_TIES, c, r))
  {
    assert Order(sortBy, desc)[1..] == ORDER_TIES;
  }

  lemma AfterStrict(sortBy: string, desc: bool, rows: set<Row>)
    requires forall r | r in rows :: WellFormed(r)
    ensures StrictOn(After(sortBy, desc), rows)
  {
    var after := After(sortBy, desc);
    forall x, y, z | x in rows && y in rows && z in rows ensures Chain(after, x, y, z) && !after(x, x) {
      KeysetOrders(sortBy, desc, x, y);
      KeysetOrders(sortBy, desc, y, z);
      KeysetOrders(sortBy, desc, x, z);
      KeysetOrders(sortBy, desc, x, x);
      OrderChain(KeysetTies(sortBy, desc), x, y, z);
    }
  }

  // ---- When the walk is exact ----

  predicate Tied(sortBy: string, x: Row, y: Row) {
    Get(x, SortColumn(sortBy)) == Get(y, SortColumn(sortBy))
  }

  /** created_time DESC, paper_id DESC ranks x before y. */
  predicate NewerFirst(x: Row, y: Row)
    requires WellFormed(x) && WellFormed(y)
  {
    || Get(x, CreatedTime).value > Get(y, CreatedTime).value
    || (Get(x, CreatedTime) == Get(y, CreatedTime) && Get(x, Id).value > Get(y, Id).value)
  }

  /**
   The condition on the table. Descending metric and created_time sorts need none. Ascending
   ones need distinct sort values (so at most one NULL). For updated_time, papers updated at
   the same instant must be ranked alike by (created_time, paper_id) and by paper_id.
   */
  ghost predicate ExactWhen(sortBy: string, desc: bool, table: set<Row>)
    requires forall r | r in table :: WellFormed(r)
  {
    forall x, y | x in table && y in table && x != y && Tied(sortBy, x, y) ::
      if sortBy == "updated_time" then
        NewerFirst(x, y) <==> IdFirst(desc, x, y)
      else desc
  }

  lemma TiesAgree(sortBy: string, desc: bool, table: set<Row>, x: Row, y: Row)
    requires TableOk(table) && x in table && y in table && x != y && Tied(sortBy, x, y)
    ensures (OrderBefore(KeysetTies(sortBy, desc), x, y) <==> OrderBefore(ORDER_TIES, x, y)) <==>
      if sortBy == "updated_time" then
        NewerFirst(x, y) <==> IdFirst(desc, x, y)
      else desc
  {
    assert Get(x, Id) != Get(y, Id);
    KeysetTiesMeaning(sortBy, desc, x, y);
    OrderOfTwo(Term(CreatedTime, true, false), Term(Id, true, false), x, y);
    assert OrderBefore(ORDER_TIES, x, y) == NewerFirst(x, y);
  }

  lemma AgreeIffExactWhen(sortBy: string, desc: bool, table: set<Row>)
    requires TableOk(table)
    ensures Agree(ByOrder(Order(sortBy, desc)), After(sortBy, desc), table) <==> ExactWhen(sortBy, desc, table)
  {
    var lt, after := ByOrder(Order(sortBy, desc)), After(sortBy, desc);
    forall x, y | x in table && y in table
      ensures (after(x, y) <==> lt(x, y)) <==>
        (x != y && Tied(sortBy, x, y) ==>
          (OrderBefore(KeysetTies(sortBy, desc), x, y) <==> OrderBefore(ORDER_TIES, x, y)))
    {
      KeysetOrders(sortBy, desc, x, y);
      OrderSplit(sortBy, desc, x, y);
      OrderChain(KeysetTies(sortBy, desc), x, x, x);
      OrderChain(ORDER_TIES, x, x, x);
    }
    forall x, y | x in table && y in table && x != y && Tied(sortBy, x, y)
      ensures (after(x, y) <==> lt(x, y)) <==>
        if sortBy == "updated_time" then
          NewerFirst(x, y) <==> IdFirst(desc, x, y)
        else desc
    {
      TiesAgree(sortBy, desc, table, x, y);
    }
  }

  /**
   Papers pagination, all sort keys and both directions: for every page size the walk
   concatenates to the sorted table, if and only if the condition on ties holds.
   */
  lemma PapersWalkExactIff(table: set<Row>, sortBy: string, desc: bool)
    requires TableOk(table)
    ensures OrderOn(ByOrder(Order(sortBy, desc)), table) && StrictOn(After(sortBy, desc), table)
    ensures WalkExact(ByOrder(Order(sortBy, desc)), After(sortBy, desc), table) <==> ExactWhen(sortBy, desc, table)
  {
    hide ByOrder, After, Order, StrictOn, TotalOn, WalkExact, Agree, ExactWhen;
    OrderIsTotal(sortBy, desc, table);
    AfterStrict(sortBy, desc, table);
    WalkExactIffAgree(ByOrder(Order(sortBy, desc)), After(sortBy, desc), table);
    AgreeIffExactWhen(sortBy, desc, table);
  }

  lemma OrderIsTotal(sortBy: string, desc: bool, table: set<Row>)
    requires UniqueIds(table)
    ensures OrderOn(ByOrder(Order(sortBy, desc)), table)
  {
    OrderOk(Order(sortBy, desc), table);
  }

  /** The default and every descending metric listing is exact on every table. */
  lemma PapersDescendingExact(table: set<Row>, sortBy: string)
    requires TableOk(table) && sortBy != "updated_time"
    ensures OrderOn(ByOrder(Order(sortBy, true)), table) && StrictOn(After(sortBy, true), table)
    ensures WalkExact(ByOrder(Order(sortBy, true)), After(sortBy, true), table)
  {
    PapersWalkExactIff(table, sortBy, true);
  }

  /** Two papers with the same profit factor, ascending: some page size misplaces or loses one of them. */
  lemma PapersAscendingFails(a: Row, b: Row)
    requires WellFormed(a) && WellFormed(b) && Get(a, Id) != Get(b, Id) && Get(a, ProfitFactor) == Get(b, ProfitFactor)
    ensures TableOk({a, b}) && OrderOn(ByOrder(Order("profit_factor", false)), {a, b})
    ensures StrictOn(After("profit_factor", false), {a, b})
    ensures !WalkExact(ByOrder(Order("profit_factor", false)), After("profit_factor", false), {a, b})
  {
    hide ByOrder, After, Order, StrictOn, TotalOn, WalkExact;
    PapersWalkExactIff({a, b}, "profit_factor", false);
    assert Tied("profit_factor", a, b);
  }

  // ---- The handler ----

  function ToResponse(sortBy: string, page: Page<Row>): Response<Row, Cursor> {
    Respond(page, row => MakeCursor(sortBy, row))
  }

  /** The rows that the filters and the cursor leave. */
  function Left(f: Filters, sortBy: string, desc: bool, cursor: Option<Cursor>, table: set<Row>): set<Row> {
    set r | r in table && Matches(f, r) && (cursor.Some? ==> KeysetKeeps(sortBy, desc, cursor.value, r))
  }

  /** Readers who are not admins only ever see finalized papers, whatever status they ask for. */
  function Visible(f: Filters, kind: Value, isAdmin: bool): Filters {
    f.(strategyKind := kind, status := if isAdmin then f.status else Some(FINALIZED))
  }

  lemma LeftOrder(f: Filters, sortBy: string, desc: bool, cursor: Option<Cursor>, table: set<Row>)
    requires UniqueIds(table)
    ensures OrderOn(ByOrder(Order(sortBy, desc)), Left(f, sortBy, desc, cursor, table))
  {
    OrderIsTotal(sortBy, desc, Left(f, sortBy, desc, cursor, table));
  }

  /** GET /papers, the answer: sort what the filters and the cursor leave, and cut off one page. */
  ghost function Answer(table: set<Row>, f: Filters, sortBy: string, desc: bool, cursor: Option<Cursor>,
      limit: nat): Response<Row, Cursor>
    requires UniqueIds(table) && limit >= 1
  {
    LeftOrder(f, sortBy, desc, cursor, table);
    ToResponse(sortBy, Cut(Sorted(ByOrder(Order(sortBy, desc)), Left(f, sortBy, desc, cursor, table)), limit))
  }

  /**
   The rows stand in the order that was asked for by name, on the cells of each pair: papers
   without a value last when descending and first when ascending, ties newest first.
   */
  ghost predicate InNamedOrder(rows: seq<Row>, sortBy: string, desc: bool) {
    && (sortBy == "created_time" ==> ShownBy(rows, (x: Row, y: Row) => ByColumn(CreatedTime, desc, desc, x, y)))
    && (sortBy == "updated_time" ==> ShownBy(rows, (x: Row, y: Row) => ByColumn(UpdatedTime, desc, desc, x, y)))
    && (sortBy == "annualized_return_pct" ==>
        ShownBy(rows, (x: Row, y: Row) => ByColumn(AnnualizedReturnPct, desc, desc, x, y)))
    && (sortBy == "profit_factor" ==> ShownBy(rows, (x: Row, y: Row) => ByColumn(ProfitFactor, desc, desc, x, y)))
    && (sortBy == "win_rate" ==> ShownBy(rows, (x: Row, y: Row) => ByColumn(WinRate, desc, desc, x, y)))
    && (sortBy == "n_trades" ==> ShownBy(rows, (x: Row, y: Row) => ByColumn(NTrades, desc, desc, x, y)))
    && (sortBy == "sharpe_ratio" ==> ShownBy(rows, (x: Row, y: Row) => ByColumn(SharpeRatio, desc, desc, x, y)))
  }

  /** The seven names that are known. */
  predicate Named(s: string) {
    s == "created_time" || s == "updated_time" || s == "annualized_return_pct" || s == "profit_factor"
    || s == "win_rate" || s == "n_trades" || s == "sharpe_ratio"
  }

  lemma OrderIsNamed(rows: seq<Row>, sortBy: string, desc: bool)
    requires forall i | 0 <= i < |rows| :: WellFormed(rows[i])
    requires ShownBy(rows, ByOrder(Order(sortBy, desc)))
    ensures InNamedOrder(rows, sortBy, desc)
  {
    hide OrderBefore, ByColumn;
    forall i, j | 0 <= i < j < |rows| ensures ByColumn(SortColumn(sortBy), desc, desc, rows[i], rows[j]) {
      OrderIsByColumn(SortColumn(sortBy), desc, rows[i], rows[j]);
    }
  }

  lemma OrderIsByColumn(col: Column, desc: bool, x: Row, y: Row)
    requires OrderBefore([Term(col, desc, desc), Term(CreatedTime, true, false), Term(Id, true, false)], x, y)
    requires WellFormed(x) && WellFormed(y)
    ensures ByColumn(col, desc, desc, x, y)
  {
    hide OrderBefore;
    OrderOfThree(Term(col, desc, desc), Term(CreatedTime, true, false), Term(Id, true, false), x, y);
  }

  /** What a reader sees, said without the query: rows that match the filters, at most a page, in the order named. */
  lemma AnswerInOrder(table: set<Row>, f: Filters, sortBy: string, desc: bool, cursor: Option<Cursor>, limit: nat)
    requires TableOk(table) && limit >= 1
    ensures var items := Answer(table, f, sortBy, desc, cursor, limit).items;
      && |items| <= limit && InNamedOrder(items, sortBy, desc)
      && forall r | r in items :: r in table && Matches(f, r)
  {
    hide Left, ByOrder, Order, Sorted, StrictOn, TotalOn, InNamedOrder, MakeCursor, WellFormed, Matches;
    LeftOrder(f, sortBy, desc, cursor, table);
    var left := Left(f, sortBy, desc, cursor, table);
    PageOfRows(ByOrder(Order(sortBy, desc)), left, limit);
    LeftMatches(table, f, sortBy, desc, cursor);
    OrderIsNamed(Answer(table, f, sortBy, desc, cursor, limit).items, sortBy, desc);
  }

  lemma LeftMatches(table: set<Row>, f: Filters, sortBy: string, desc: bool, cursor: Option<Cursor>)
    requires TableOk(table)
    ensures forall r | r in Left(f, sortBy, desc, cursor, table) :: r in table && Matches(f, r) && WellFormed(r)
  {
    hide Matches, WellFormed, KeysetKeeps;
  }

  /** A cursor without a time or an id, or without a value for a metric sort, is ignored: the first page comes again. */
  lemma MisfitCursor(table: set<Row>, f: Filters, sortBy: string, desc: bool, c: Cursor, limit: nat)
    requires UniqueIds(table) && limit >= 1
    requires c.t == None || c.id == None || (!c.hasSv && sortBy != "created_time" && sortBy != "updated_time")
    ensures Answer(table, f, sortBy, desc, Some(c), limit) == Answer(table, f, sortBy, desc, None, limit)
  {
    hide Eval, Matches, ByOrder, Sorted, Order, StrictOn, TotalOn;
    assert Left(f, sortBy, desc, Some(c), table) == Left(f, sortBy, desc, None, table);
    LeftOrder(f, sortBy, desc, Some(c), table);
    LeftOrder(f, sortBy, desc, None, table);
  }

  /** s is the word in some mixture of cases. */
  predicate IsWord(s: string, upper: string, lower: string)
    requires |upper| == |lower|
  {
    && |s| == |upper|
    && forall i | 0 <= i < |s| :: s[i] == upper[i] || s[i] == lower[i] || (upper[i] == 'I' && s[i] == '\U{131}')
  }

  /** Exactly the two kinds are known, in any case, and with a dotless i, whose upper case is I as well. */
  lemma KindWords(s: string)
    ensures KindOf(None) == Success(None)
    ensures KindOf(Some(s)) ==
      if IsWord(s, "HEDGING", "hedging") then Success(Some(0))
      else if IsWord(s, "TRADING", "trading") then Success(Some(1))
      else Failure(BadKind)
  {
    UpperWord(s, "HEDGING", "hedging");
    UpperWord(s, "TRADING", "trading");
  }

  lemma UpperWord(s: string, upper: string, lower: string)
    requires |upper| == |lower|
    requires forall i | 0 <= i < |upper| ::
      'A' <= upper[i] <= 'Z' && lower[i] as int == upper[i] as int + ('a' as int - 'A' as int)
    ensures Upper(s) == upper <==> IsWord(s, upper, lower)
  {
    if IsWord(s, upper, lower) {
      forall i | 0 <= i < |s| ensures Upper(s)[i] == upper[i] {
      }
    } else if |s| == |upper| {
      var i :| 0 <= i < |s| && s[i] != upper[i] && s[i] != lower[i] && !(upper[i] == 'I' && s[i] == '\U{131}');
      assert Upper(s)[i] != upper[i];
    }
  }

  /** The two directions are known in any case. */
  lemma DirWords(s: string, word: string)
    requires word == "asc" || word == "desc"
    ensures Lower(s) == word <==> IsWord(s, if word == "asc" then "ASC" else "DESC", word)
  {
    var upper := if word == "asc" then "ASC" else "DESC";
    if IsWord(s, upper, word) {
      forall i | 0 <= i < |s| ensures Lower(s)[i] == word[i] {
      }
    } else if |s| == |word| {
      var i :| 0 <= i < |s| && s[i] != upper[i] && s[i] != word[i] && !(upper[i] == 'I' && s[i] == '\U{131}');
      assert Lower(s)[i] != word[i];
    }
  }

  /** GET /papers. The cursor is Some(None) when the text that was sent does not decode. */
  method ListPapersPage(table: set<Row>, f: Filters, kind: Option<string>, sortBy: string, sortDir: string,
                        sent: Option<Option<Cursor>>, limit: nat, isAdmin: bool)
    returns (r: Result<Response<Row, Cursor>, Error>)
    requires UniqueIds(table) && limit >= 1
    ensures
      if f.status.Some? && f.status.value !in {FINALIZED, WORKING_PAPER} then r == Failure(BadStatus)
      else if KindOf(kind).Failure? then r == Failure(BadKind)
      else if !SortByOk(sortBy) then r == Failure(BadSortBy)
      else if Lower(sortDir) != "asc" && Lower(sortDir) != "desc" then r == Failure(BadSortDir)
      else if sent == Some(None) then r == Failure(BadCursor)
      else r == Success(Answer(table, Visible(f, KindOf(kind).value, isAdmin), sortBy, Lower(sortDir) == "desc",
                               if sent.Some? then sent.value else None, limit))
    ensures r == Failure(BadStatus) <==> f.status.Some? && f.status.value !in {0, 1}
    ensures r.Success? && !isAdmin ==> forall p | p in r.value.items :: p in table && Get(p, Status) == Some(0)
    ensures r == Failure(BadSortBy) ==> !Named(sortBy)
    ensures r.Success? ==> Named(sortBy)
    ensures r.Success? && TableOk(table) ==> InNamedOrder(r.value.items, sortBy, Lower(sortDir) == "desc")
  {
    hide Answer, InNamedOrder, TableOk, OrderOn, Sorted, ByOrder, Order;
    if f.status.Some? && f.status.value !in {FINALIZED, WORKING_PAPER} {
      return Failure(BadStatus);
    }
    var strategyKind := KindOf(kind);
    if strategyKind.Failure? {
      return Failure(BadKind);
    }
    var filters := f.(strategyKind := strategyKind.value);
    if !isAdmin {
      filters := filters.(status := Some(FINALIZED));
    }
    if !SortByOk(sortBy) {
      return Failure(BadSortBy);
    }
    var direction := Lower(sortDir);
    if direction != "asc" && direction != "desc" {
      return Failure(BadSortDir);
    }
    var cursor: Option<Cursor> := None;
    if sent.Some? {
      if sent.value.None? {
        return Failure(BadCursor);
      }
      cursor := sent.value;
    }
    var response := FetchPage(table, filters, sortBy, direction != "asc", cursor, limit);
    r := Success(response);
    if TableOk(table) {
      AnswerInOrder(table, filters, sortBy, direction == "desc", cursor, limit);
    }
  }

  method FetchPage(table: set<Row>, f: Filters, sortBy: string, desc: bool, cursor: Option<Cursor>, limit: nat)
    returns (response: Response<Row, Cursor>)
    requires UniqueIds(table) && limit >= 1
    ensures response == Answer(table, f, sortBy, desc, cursor, limit)
    ensures forall p | p in response.items :: p in table && Matches(f, p)
  {
    hide KeysetKeeps, Matches, Holds, StrictOn, TotalOn, Sorted, Ascending, Order, ByOrder, MakeCursor;
    OrderIsTotal(sortBy, desc, table);
    var q := ListPapers(f, sortBy, desc, cursor, limit + 1);
    var rows := Fetch(q, table);
    var hasMore := |rows| > limit;
    var items := if hasMore then rows[..limit] else rows;
    var next: Option<Cursor> := None;
    if hasMore {
      next := Some(MakeCursor(sortBy, items[|items| - 1]));
    }
    response := Response(items, next);
    assert Kept(q, table) == Left(f, sortBy, desc, cursor, table);
    KeptOrder(q, table);
    CutResult(Sorted(ByOrder(q.order), Kept(q, table)), rows, limit);
    assert forall p | p in items :: p in Sorted(ByOrder(q.order), Kept(q, table));
  }

  /** With the cursor of an earlier page the handler answers the next page of the walk over the filtered table. */
  lemma PageContinues(table: set<Row>, f: Filters, sortBy: string, desc: bool, c: Option<Row>, limit: nat)
    requires UniqueIds(table) && limit >= 1
    ensures var lt, all := ByOrder(Order(sortBy, desc)), Left(f, sortBy, desc, None, table);
      && OrderOn(lt, all)
      && Answer(table, f, sortBy, desc, EncodeCursor(c, row => MakeCursor(sortBy, row)), limit)
         == ToResponse(sortBy, PageOf(lt, After(sortBy, desc), all, c, limit))
  {
    hide KeysetKeeps, Matches, Order, ByOrder, MakeCursor, StrictOn, TotalOn, Sorted;
    LeftOrder(f, sortBy, desc, None, table);
    if c.Some? {
      LeftIsRest(f, sortBy, desc, c.value, table);
    }
  }

  lemma LeftIsRest(f: Filters, sortBy: string, desc: bool, c: Row, table: set<Row>)
    ensures Left(f, sortBy, desc, Some(MakeCursor(sortBy, c)), table)
         == Rest(After(sortBy, desc), Left(f, sortBy, desc, None, table), Some(c))
  {
  }

  lemma LeftOk(table: set<Row>, f: Filters, sortBy: string, desc: bool)
    requires TableOk(table)
    ensures TableOk(Left(f, sortBy, desc, None, table))
  {
  }

  /** The handler as a function of the cursor. */
  ghost function Handler(table: set<Row>, f: Filters, sortBy: string, desc: bool, limit: nat): Server<Row, Cursor>
    requires UniqueIds(table) && limit >= 1
  {
    (cursor: Option<Cursor>) => Answer(table, f, sortBy, desc, cursor, limit)
  }

  /** What a client sees when it sends every cursor back: the walk over the filtered table, and the cursors end. */
  lemma SessionIsWalk(table: set<Row>, f: Filters, sortBy: string, desc: bool, limit: nat)
    requires TableOk(table) && limit >= 1
    ensures var all := Left(f, sortBy, desc, None, table);
      && OrderOn(ByOrder(Order(sortBy, desc)), all) && StrictOn(After(sortBy, desc), all)
      && SessionsShow(Handler(table, f, sortBy, desc, limit),
                      Walk(ByOrder(Order(sortBy, desc)), After(sortBy, desc), all, None, limit))
  {
    hide Left, ByOrder, After, Order, OrderOn, StrictOn, Sorted, PageOf, MakeCursor, SessionsShow, Answer, Walk;
    var server := Handler(table, f, sortBy, desc, limit);
    var encode := (row: Row) => MakeCursor(sortBy, row);
    var lt, after, rows := ByOrder(Order(sortBy, desc)), After(sortBy, desc), Left(f, sortBy, desc, None, table);
    LeftOk(table, f, sortBy, desc);
    OrderIsTotal(sortBy, desc, rows);
    AfterStrict(sortBy, desc, rows);
    forall cursor: Option<Row> | cursor.None? || cursor.value in rows
      ensures server(EncodeCursor(cursor, encode)) == Respond(PageOf(lt, after, rows, cursor, limit), encode)
    {
      PageContinues(table, f, sortBy, desc, cursor, limit);
    }
    SessionsAreWalks(server, encode, lt, after, rows, limit);
  }

  /** The handler's answers, followed cursor by cursor, are the sorted listing. */
  ghost predicate SessionExact(table: set<Row>, f: Filters, sortBy: string, desc: bool, limit: nat)
    requires UniqueIds(table) && limit >= 1
  {
    LeftOrder(f, sortBy, desc, None, table);
    SessionsShow(Handler(table, f, sortBy, desc, limit),
                 Sorted(ByOrder(Order(sortBy, desc)), Left(f, sortBy, desc, None, table)))
  }

  /** PapersWalkExactIff, said of the handler's own answers. */
  lemma PapersSessionExactIff(table: set<Row>, f: Filters, sortBy: string, desc: bool)
    requires TableOk(table)
    ensures TableOk(Left(f, sortBy, desc, None, table))
    ensures (forall limit: nat | limit >= 1 :: SessionExact(table, f, sortBy, desc, limit))
      <==> ExactWhen(sortBy, desc, Left(f, sortBy, desc, None, table))
  {
    hide Left, ByOrder, After, Order, OrderOn, StrictOn, Sorted, ExactWhen, SessionExact, Walk, WellFormed;
    var lt, after, rows := ByOrder(Order(sortBy, desc)), After(sortBy, desc), Left(f, sortBy, desc, None, table);
    LeftOk(table, f, sortBy, desc);
    PapersWalkExactIff(rows, sortBy, desc);
    forall limit: nat | limit >= 1
      ensures SessionExact(table, f, sortBy, desc, limit) <==> Walk(lt, after, rows, None, limit) == Sorted(lt, rows)
    {
      SessionExactLimit(table, f, sortBy, desc, limit);
    }
  }

  lemma SessionExactLimit(table: set<Row>, f: Filters, sortBy: string, desc: bool, limit: nat)
    requires TableOk(table) && limit >= 1
    ensures var lt, after := ByOrder(Order(sortBy, desc)), After(sortBy, desc);
      var rows := Left(f, sortBy, desc, None, table);
      && OrderOn(lt, rows) && StrictOn(after, rows)
      && (SessionExact(table, f, sortBy, desc, limit) <==> Walk(lt, after, rows, None, limit) == Sorted(lt, rows))
  {
    hide Left, ByOrder, After, Order, OrderOn, StrictOn, Sorted, SessionsShow, Handler, Walk, WellFormed;
    SessionIsWalk(table, f, sortBy, desc, limit);
    var lt, after, rows := ByOrder(Order(sortBy, desc)), After(sortBy, desc), Left(f, sortBy, desc, None, table);
    ShowsOne(Handler(table, f, sortBy, desc, limit), Walk(lt, after, rows, None, limit), Sorted(lt, rows));
  }

  lemma ShowsOne(server: Server<Row, Cursor>, a: seq<Row>, b: seq<Row>)
    requires SessionsShow(server, a)
    ensures SessionsShow(server, b) <==> a == b
  {
    hide IsSession;
    var answers :| IsSession(server, None, answers);
  }
}
