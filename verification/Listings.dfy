/**
 GET /queue (oldest first) and GET /iterations (newest first): the queries of repo/queue.py
 and repo/iterations.py. Their cursor is the pair (created_time, id) of the last row.
 */
module Listings {
  import opened Wrappers
  import opened Pagination
  import opened Sql

  datatype Cursor = Cursor(t: Value, id: Value)

  predicate WellFormed(r: Row) {
    Get(r, Id).Some? && Get(r, CreatedTime).Some?
  }

  ghost predicate TableOk(table: set<Row>) {
    UniqueIds(table) && forall r | r in table :: WellFormed(r)
  }

  function Order(newestFirst: bool): seq<Term> {
    [Term(CreatedTime, newestFirst, !newestFirst), Term(Id, newestFirst, !newestFirst)]
  }

  predicate KeysetKeeps(newestFirst: bool, c: Cursor, r: Row) {
    c.t.Some? && c.id.Some? ==>
      ComparePairs(if newestFirst then Lt else Gt, Get(r, CreatedTime), Get(r, Id), c.t, c.id) == Yes
  }

  function After(newestFirst: bool): Rel<Row> {
    (c: Row, r: Row) => KeysetKeeps(newestFirst, Cursor(Get(c, CreatedTime), Get(c, Id)), r)
  }

  method AppendKeyset(conds: seq<Cond>, args: seq<Value>, newestFirst: bool, c: Cursor)
    returns (conds': seq<Cond>, args': seq<Value>)
    requires AllUse(conds, |args|)
    ensures forall r :: Holds(conds', r, args') <==> Holds(conds, r, args) && KeysetKeeps(newestFirst, c, r)
  {
    conds', args' := conds, args;
    if c.t.Some? && c.id.Some? {
      var op := if newestFirst then Lt else Gt;
      conds', args' := Append(conds, args, ComparePair(CreatedTime, Id, op, |args| + 1, |args| + 2), [c.t, c.id]);
    }
  }

  /** The filters of either listing: column and value, None when the parameter is missing. */
  type Filters = seq<(Column, Value)>

  predicate Matches(f: Filters, r: Row) {
    forall i | 0 <= i < |f| :: f[i].1.Some? ==> Get(r, f[i].0) == f[i].1
  }

  lemma MatchesThree(a: (Column, Value), b: (Column, Value), c: (Column, Value), r: Row)
    ensures Matches([a, b, c], r) <==>
      (a.1.Some? ==> Get(r, a.0) == a.1) && (b.1.Some? ==> Get(r, b.0) == b.1) && (c.1.Some? ==> Get(r, c.0) == c.1)
    ensures Matches([a, b], r) <==> (a.1.Some? ==> Get(r, a.0) == a.1) && (b.1.Some? ==> Get(r, b.0) == b.1)
  {
    var two, three := [a, b], [a, b, c];
    assert two[0] == a && two[1] == b && three[0] == a && three[1] == b && three[2] == c;
  }

  function QueueFilters(status: Value, strategyCode: Value, finalVerdict: Value): Filters {
    [(Status, status), (StrategyCode, strategyCode), (FinalVerdict, finalVerdict)]
  }

  function IterationFilters(strategyCode: Value, verdict: Value): Filters {
    [(StrategyCode, strategyCode), (Verdict, verdict)]
  }

  /** list_queue */
  method ListQueue(status: Value, strategyCode: Value, finalVerdict: Value, c: Cursor, limit: nat) returns (q: Query)
    ensures q.order == Order(false) && q.limit == limit
    ensures forall r :: Holds(q.conds, r, q.args) <==>
      Matches(QueueFilters(status, strategyCode, finalVerdict), r) && KeysetKeeps(false, c, r)
  {
    hide Holds, AllUse, KeysetKeeps, Matches;
    var conds: seq<Cond>, args: seq<Value> := [], [];
    EmptyConds();
    conds, args := AppendEqual(conds, args, Status, status);
    conds, args := AppendEqual(conds, args, StrategyCode, strategyCode);
    conds, args := AppendEqual(conds, args, FinalVerdict, finalVerdict);
    conds, args := AppendKeyset(conds, args, false, c);
    q := Query(conds, args, Order(false), limit);
    forall r ensures Holds(conds, r, args) <==>
      Matches(QueueFilters(status, strategyCode, finalVerdict), r) && KeysetKeeps(false, c, r)
    {
      MatchesThree((Status, status), (StrategyCode, strategyCode), (FinalVerdict, finalVerdict), r);
    }
  }

  /** list_iterations */
  method ListIterations(strategyCode: Value, verdict: Value, c: Cursor, limit: nat) returns (q: Query)
    ensures q.order == Order(true) && q.limit == limit
    ensures forall r :: Holds(q.conds, r, q.args) <==>
      Matches(IterationFilters(strategyCode, verdict), r) && KeysetKeeps(true, c, r)
  {
    hide Holds, AllUse, KeysetKeeps, Matches;
    var conds: seq<Cond>, args: seq<Value> := [], [];
    EmptyConds();
    conds, args := AppendEqual(conds, args, StrategyCode, strategyCode);
    conds, args := AppendEqual(conds, args, Verdict, verdict);
    conds, args := AppendKeyset(conds, args, true, c);
    q := Query(conds, args, Order(true), limit);
    forall r
      ensures Holds(conds, r, args) <==> Matches(IterationFilters(strategyCode, verdict), r) && KeysetKeeps(true, c, r)
    {
      MatchesThree((StrategyCode, strategyCode), (Verdict, verdict), (Verdict, None), r);
    }
  }

  lemma KeysetExact(newestFirst: bool, c: Row, r: Row)
    requires WellFormed(c) && WellFormed(r)
    ensures After(newestFirst)(c, r) <==> ByOrder(Order(newestFirst))(c, r)
  {
    OrderOfTwo(Term(CreatedTime, newestFirst, !newestFirst), Term(Id, newestFirst, !newestFirst), c, r);
  }

  /** Both listings page through every filtered table exactly, whatever the page size. */
  lemma ListingWalkExact(table: set<Row>, newestFirst: bool)
    requires TableOk(table)
    ensures OrderOn(ByOrder(Order(newestFirst)), table) && StrictOn(After(newestFirst), table)
    ensures WalkExact(ByOrder(Order(newestFirst)), After(newestFirst), table)
  {
    var lt, after := ByOrder(Order(newestFirst)), After(newestFirst);
    OrderOk(Order(newestFirst), table);
    forall c, r | c in table && r in table ensures after(c, r) <==> lt(c, r) {
      KeysetExact(newestFirst, c, r);
    }
    forall x, y, z | x in table && y in table && z in table ensures Chain(after, x, y, z) {
      assert Chain(lt, x, y, z);
    }
    WalkExactIffAgree(lt, after, table);
  }

  // ---- The handlers ----

  datatype Error = BadStatusFilter | BadVerdictFilter | BadCursor

  // The five queue statuses are the values 0 to 4, the four verdicts 0 to 3.
  predicate StatusOk(v: Value) {
    v.Some? ==> 0 <= v.value <= 4
  }

  predicate VerdictOk(v: Value) {
    v.Some? ==> 0 <= v.value <= 3
  }

  function MakeCursor(r: Row): Cursor {
    Cursor(Get(r, CreatedTime), Get(r, Id))
  }

  const NO_CURSOR := Cursor(None, None)

  /** The rows that the filters and the cursor leave. */
  function Left(f: Filters, newestFirst: bool, cursor: Option<Cursor>, table: set<Row>): set<Row> {
    set r | r in table && Matches(f, r) && (cursor.Some? ==> KeysetKeeps(newestFirst, cursor.value, r))
  }

  lemma LeftOrder(f: Filters, newestFirst: bool, cursor: Option<Cursor>, table: set<Row>)
    requires UniqueIds(table)
    ensures OrderOn(ByOrder(Order(newestFirst)), Left(f, newestFirst, cursor, table))
  {
    OrderOk(Order(newestFirst), Left(f, newestFirst, cursor, table));
  }

  /** The answer to a request: sort what the filters and the cursor leave, and cut off one page. */
  ghost function Answer(table: set<Row>, f: Filters, newestFirst: bool, cursor: Option<Cursor>,
      limit: nat): Response<Row, Cursor>
    requires UniqueIds(table) && limit >= 1
  {
    LeftOrder(f, newestFirst, cursor, table);
    Respond(Cut(Sorted(ByOrder(Order(newestFirst)), Left(f, newestFirst, cursor, table)), limit), MakeCursor)
  }

  /** The over-fetch by one, the slice and the next cursor that both handlers share. */
  method CutPage(table: set<Row>, q: Query, f: Filters, newestFirst: bool, cursor: Option<Cursor>, limit: nat)
    returns (response: Response<Row, Cursor>)
    requires UniqueIds(table) && limit >= 1 && q.order == Order(newestFirst) && q.limit == limit + 1
    requires Kept(q, table) == Left(f, newestFirst, cursor, table)
    ensures response == Answer(table, f, newestFirst, cursor, limit)
  {
    hide StrictOn, TotalOn, Sorted, Ascending, Order, ByOrder, Kept, Left;
    TableOrder(newestFirst, table);
    var rows := Fetch(q, table);
    var hasMore := |rows| > limit;
    var items := if hasMore then rows[..limit] else rows;
    var next: Option<Cursor> := None;
    if hasMore {
      next := Some(MakeCursor(items[|items| - 1]));
    }
    response := Response(items, next);
    KeptOrder(q, table);
    CutResult(Sorted(ByOrder(q.order), Kept(q, table)), rows, limit);
  }

  lemma TableOrder(newestFirst: bool, table: set<Row>)
    requires UniqueIds(table)
    ensures OrderOn(ByOrder(Order(newestFirst)), table)
  {
    OrderOk(Order(newestFirst), table);
  }

  lemma KeptIsLeft(table: set<Row>, q: Query, f: Filters, newestFirst: bool, c: Cursor, cursor: Option<Cursor>)
    requires c == if cursor.Some? then cursor.value else NO_CURSOR
    requires forall r :: Holds(q.conds, r, q.args) <==> Matches(f, r) && KeysetKeeps(newestFirst, c, r)
    ensures Kept(q, table) == Left(f, newestFirst, cursor, table)
  {
    hide Holds, Matches;
  }

  /** GET /queue. The cursor is Some(None) when the text that was sent does not decode. */
  method QueuePage(table: set<Row>, status: Value, strategyCode: Value, finalVerdict: Value,
      sent: Option<Option<Cursor>>, limit: nat)
    returns (r: Result<Response<Row, Cursor>, Error>)
    requires UniqueIds(table) && limit >= 1
    ensures
      if !StatusOk(status) then r == Failure(BadStatusFilter)
      else if sent == Some(None) then r == Failure(BadCursor)
      else r == Success(Answer(table, QueueFilters(status, strategyCode, finalVerdict), false,
                               if sent.Some? then sent.value else None, limit))
  {
    if status.Some? && !(0 <= status.value <= 4) {
      return Failure(BadStatusFilter);
    }
    var cursor: Option<Cursor> := None;
    if sent.Some? {
      if sent.value.None? {
        return Failure(BadCursor);
      }
      cursor := sent.value;
    }
    var c := if cursor.Some? then cursor.value else NO_CURSOR;
    var q := ListQueue(status, strategyCode, finalVerdict, c, limit + 1);
    KeptIsLeft(table, q, QueueFilters(status, strategyCode, finalVerdict), false, c, cursor);
    var response := CutPage(table, q, QueueFilters(status, strategyCode, finalVerdict), false, cursor, limit);
    r := Success(response);
  }

  /** GET /iterations */
  method IterationsPage(table: set<Row>, strategyCode: Value, verdict: Value, sent: Option<Option<Cursor>>, limit: nat)
    returns (r: Result<Response<Row, Cursor>, Error>)
    requires UniqueIds(table) && limit >= 1
    ensures
      if !VerdictOk(verdict) then r == Failure(BadVerdictFilter)
      else if sent == Some(None) then r == Failure(BadCursor)
      else r == Success(Answer(table, IterationFilters(strategyCode, verdict), true,
                               if sent.Some? then sent.value else None, limit))
  {
    if verdict.Some? && !(0 <= verdict.value <= 3) {
      return Failure(BadVerdictFilter);
    }
    var cursor: Option<Cursor> := None;
    if sent.Some? {
      if sent.value.None? {
        return Failure(BadCursor);
      }
      cursor := sent.value;
    }
    var c := if cursor.Some? then cursor.value else NO_CURSOR;
    var q := ListIterations(strategyCode, verdict, c, limit + 1);
    KeptIsLeft(table, q, IterationFilters(strategyCode, verdict), true, c, cursor);
    var response := CutPage(table, q, IterationFilters(strategyCode, verdict), true, cursor, limit);
    r := Success(response);
  }

  lemma AnswerIsPage(table: set<Row>, f: Filters, newestFirst: bool, c: Option<Row>, limit: nat)
    requires UniqueIds(table) && limit >= 1
    ensures var lt, all := ByOrder(Order(newestFirst)), Left(f, newestFirst, None, table);
      && OrderOn(lt, all)
      && Answer(table, f, newestFirst, EncodeCursor(c, MakeCursor), limit)
         == Respond(PageOf(lt, After(newestFirst), all, c, limit), MakeCursor)
  {
    hide KeysetKeeps, Matches, StrictOn, TotalOn, Sorted, ByOrder;
    LeftOrder(f, newestFirst, None, table);
    var all := Left(f, newestFirst, None, table);
    assert Left(f, newestFirst, EncodeCursor(c, MakeCursor), table) == Rest(After(newestFirst), all, c);
  }

  lemma LeftOk(table: set<Row>, f: Filters, newestFirst: bool)
    requires TableOk(table)
    ensures TableOk(Left(f, newestFirst, None, table))
  {
  }

  /**
   Both listings, of the handlers' own answers: for every table, filters and page size, sending
   each cursor back ends, and the items of the answers are the filtered table in order.
   */
  lemma ListingSessionExact(table: set<Row>, f: Filters, newestFirst: bool, limit: nat)
    requires TableOk(table) && limit >= 1
    ensures OrderOn(ByOrder(Order(newestFirst)), Left(f, newestFirst, None, table))
    ensures SessionsShow((cursor: Option<Cursor>) => Answer(table, f, newestFirst, cursor, limit),
                         Sorted(ByOrder(Order(newestFirst)), Left(f, newestFirst, None, table)))
  {
    hide Left, ByOrder, After, Order, OrderOn, StrictOn, Sorted, PageOf, MakeCursor, SessionsShow, Answer, Walk;
    var server := (cursor: Option<Cursor>) => Answer(table, f, newestFirst, cursor, limit);
    var lt, after, rows := ByOrder(Order(newestFirst)), After(newestFirst), Left(f, newestFirst, None, table);
    LeftOk(table, f, newestFirst);
    ListingWalkExact(rows, newestFirst);
    forall cursor: Option<Row> | cursor.None? || cursor.value in rows
      ensures server(EncodeCursor(cursor, MakeCursor)) == Respond(PageOf(lt, after, rows, cursor, limit), MakeCursor)
    {
      AnswerIsPage(table, f, newestFirst, cursor, limit);
    }
    SessionsAreWalks(server, MakeCursor, lt, after, rows, limit);
  }
}
