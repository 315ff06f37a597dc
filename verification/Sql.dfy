/**
 The part of SQL the listing queries use: rows with NULLs, WHERE clauses with numbered
 placeholders and three-valued logic, ORDER BY terms with NULLS FIRST/LAST, and LIMIT.
 Column values are opaque and totally ordered, so they are represented by integers.
 */
module Sql {
  import opened Wrappers
  import opened Pagination

  type Value = Option<int>

  datatype Column =
    | Id | CreatedTime | UpdatedTime | Status | EntryType | StrategyCode | StrategyKind
    | Instrument | IntervalName | Verdict | FinalVerdict
    | AnnualizedReturnPct | ProfitFactor | WinRate | NTrades | SharpeRatio

  /** hits is the set of full-text queries the row's title and content match. */
  datatype Row = Row(cells: map<Column, Value>, hits: set<int>)

  function Get(r: Row, c: Column): Value {
    if c in r.cells then r.cells[c] else None
  }

  datatype Tri = Yes | No | Unknown

  datatype Op = Lt | Gt | Eq

  /** Placeholders are numbered from 1, as in $1, $2, ... */
  datatype Cond =
    | Compare(col: Column, op: Op, arg: nat)
    | ComparePair(first: Column, second: Column, op: Op, firstArg: nat, secondArg: nat)
    | IsNull(col: Column)
    | IsNotNull(col: Column)
    | NotDistinct(col: Column, arg: nat)
    | Search(arg: nat)
    | And(left: Cond, right: Cond)
    | Or(left: Cond, right: Cond)

  function FromBool(b: bool): (r: Tri)
    ensures (r == Yes <==> b) && (r == No <==> !b)
  {
    if b then Yes else No
  }

  function Arg(args: seq<Value>, n: nat): Value {
    if 1 <= n <= |args| then args[n - 1] else None
  }

  function CompareValues(op: Op, x: Value, y: Value): Tri {
    if x.None? || y.None? then Unknown
    else match op
      case Lt => FromBool(x.value < y.value)
      case Gt => FromBool(x.value > y.value)
      case Eq => FromBool(x.value == y.value)
  }

  /** (x1, x2) op (y1, y2): decided by the first pair that is unequal or NULL. */
  function ComparePairs(op: Op, x1: Value, x2: Value, y1: Value, y2: Value): (r: Tri)
    ensures x1 == None || y1 == None ==> r == Unknown
    ensures x1 != None && y1 != None && x1 != y1 ==>
      (r == Yes <==> (op == Lt && x1.value < y1.value) || (op == Gt && x1.value > y1.value))
  {
    if x1.None? || y1.None? then Unknown
    else if x1 != y1 then CompareValues(op, x1, y1)
    else CompareValues(op, x2, y2)
  }

  function TriAnd(a: Tri, b: Tri): (r: Tri)
    ensures r == Yes <==> a == Yes && b == Yes
    ensures r == No <==> a == No || b == No
  {
    if a == No || b == No then No else if a == Yes && b == Yes then Yes else Unknown
  }

  function TriOr(a: Tri, b: Tri): (r: Tri)
    ensures r == Yes <==> a == Yes || b == Yes
    ensures r == No <==> a == No && b == No
  {
    if a == Yes || b == Yes then Yes else if a == No && b == No then No else Unknown
  }

  function Eval(cond: Cond, r: Row, args: seq<Value>): Tri {
    match cond
    case Compare(col, op, n) => CompareValues(op, Get(r, col), Arg(args, n))
    case ComparePair(c1, c2, op, n1, n2) => ComparePairs(op, Get(r, c1), Get(r, c2), Arg(args, n1), Arg(args, n2))
    case IsNull(col) => FromBool(Get(r, col).None?)
    case IsNotNull(col) => FromBool(Get(r, col).Some?)
    case NotDistinct(col, n) => FromBool(Get(r, col) == Arg(args, n))
    case Search(n) => if Arg(args, n).None? then Unknown else FromBool(Arg(args, n).value in r.hits)
    case And(a, b) => TriAnd(Eval(a, r, args), Eval(b, r, args))
    case Or(a, b) => TriOr(Eval(a, r, args), Eval(b, r, args))
  }

  lemma {:induction false} EvalAnd(a: Cond, b: Cond, r: Row, args: seq<Value>)
    ensures Eval(And(a, b), r, args) == TriAnd(Eval(a, r, args), Eval(b, r, args))
  {
  }

  lemma {:induction false} EvalOr(a: Cond, b: Cond, r: Row, args: seq<Value>)
    ensures Eval(Or(a, b), r, args) == TriOr(Eval(a, r, args), Eval(b, r, args))
  {
  }

  /** A WHERE clause keeps a row when every conjunct is true; unknown does not keep it. */
  predicate Holds(conds: seq<Cond>, r: Row, args: seq<Value>) {
    forall i | 0 <= i < |conds| :: Eval(conds[i], r, args) == Yes
  }

  /** Every placeholder of the condition is among the first n. */
  predicate Uses(cond: Cond, n: nat) {
    match cond
    case Compare(_, _, k) => 1 <= k <= n
    case ComparePair(_, _, _, k, l) => 1 <= k <= n && 1 <= l <= n
    case IsNull(_) => true
    case IsNotNull(_) => true
    case NotDistinct(_, k) => 1 <= k <= n
    case Search(k) => 1 <= k <= n
    case And(a, b) => Uses(a, n) && Uses(b, n)
    case Or(a, b) => Uses(a, n) && Uses(b, n)
  }

  ghost predicate AllUse(conds: seq<Cond>, n: nat) {
    forall i | 0 <= i < |conds| :: Uses(conds[i], n)
  }

  /** Appending arguments does not change what earlier placeholders mean. */
  lemma {:induction false} EvalStable(cond: Cond, r: Row, args: seq<Value>, more: seq<Value>)
    requires Uses(cond, |args|)
    ensures Eval(cond, r, args + more) == Eval(cond, r, args) && Uses(cond, |args + more|)
  {
    match cond
    case And(a, b) =>
      EvalStable(a, r, args, more);
      EvalStable(b, r, args, more);
    case Or(a, b) =>
      EvalStable(a, r, args, more);
      EvalStable(b, r, args, more);
    case _ =>
  }

  /** The condition with its placeholders numbered from n + 1 on. */
  function Shift(cond: Cond, n: nat): Cond {
    match cond
    case Compare(col, op, k) => Compare(col, op, n + k)
    case ComparePair(c1, c2, op, k, l) => ComparePair(c1, c2, op, n + k, n + l)
    case IsNull(_) => cond
    case IsNotNull(_) => cond
    case NotDistinct(col, k) => NotDistinct(col, n + k)
    case Search(k) => Search(n + k)
    case And(a, b) => And(Shift(a, n), Shift(b, n))
    case Or(a, b) => Or(Shift(a, n), Shift(b, n))
  }

  lemma ShiftBoth(a: Cond, b: Cond, n: nat, k: nat)
    ensures Shift(And(a, b), n) == And(Shift(a, n), Shift(b, n)) && Shift(Or(a, b), n) == Or(Shift(a, n), Shift(b, n))
    ensures Uses(And(a, b), k) == Uses(Or(a, b), k) == (Uses(a, k) && Uses(b, k))
  {
  }

  lemma ShiftLeaves(col: Column, op: Op, i: nat, n: nat, k: nat)
    requires 1 <= i <= k
    ensures Shift(Compare(col, op, i), n) == Compare(col, op, n + i) && Uses(Compare(col, op, i), k)
    ensures Shift(NotDistinct(col, i), n) == NotDistinct(col, n + i) && Uses(NotDistinct(col, i), k)
    ensures Shift(IsNull(col), n) == IsNull(col) && Uses(IsNull(col), k)
    ensures Shift(IsNotNull(col), n) == IsNotNull(col) && Uses(IsNotNull(col), k)
  {
  }

  lemma ShiftPair(c1: Column, c2: Column, op: Op, i: nat, j: nat, n: nat, k: nat)
    requires 1 <= i <= k && 1 <= j <= k
    ensures Shift(ComparePair(c1, c2, op, i, j), n) == ComparePair(c1, c2, op, n + i, n + j)
    ensures Uses(ComparePair(c1, c2, op, i, j), k)
  {
  }

  lemma {:induction false} ShiftEval(cond: Cond, args: seq<Value>, more: seq<Value>, r: Row)
    requires Uses(cond, |more|)
    ensures Uses(Shift(cond, |args|), |args + more|)
    ensures Eval(Shift(cond, |args|), r, args + more) == Eval(cond, r, more)
  {
    match cond
    case And(a, b) =>
      ShiftEval(a, args, more, r);
      ShiftEval(b, args, more, r);
    case Or(a, b) =>
      ShiftEval(a, args, more, r);
      ShiftEval(b, args, more, r);
    case _ =>
  }

  /** A conjunct written for its own arguments means the same behind any others, once its placeholders are shifted. */
  lemma ShiftPlace(cond: Cond, args: seq<Value>, more: seq<Value>)
    requires Uses(cond, |more|)
    ensures Uses(Shift(cond, |args|), |args + more|)
    ensures forall r :: Eval(Shift(cond, |args|), r, args + more) == Eval(cond, r, more)
  {
    ShiftEval(cond, args, more, Row(map[], {}));
    forall r ensures Eval(Shift(cond, |args|), r, args + more) == Eval(cond, r, more) {
      ShiftEval(cond, args, more, r);
    }
  }

  /** One step of building a WHERE clause: append arguments, append a conjunct. */
  lemma AppendCond(conds: seq<Cond>, args: seq<Value>, cond: Cond, more: seq<Value>, r: Row)
    requires AllUse(conds, |args|) && Uses(cond, |args + more|)
    ensures AllUse(conds + [cond], |args + more|)
    ensures Holds(conds + [cond], r, args + more) <==> Holds(conds, r, args) && Eval(cond, r, args + more) == Yes
  {
    forall i | 0 <= i < |conds|
      ensures Eval(conds[i], r, args + more) == Eval(conds[i], r, args) && Uses(conds[i], |args + more|)
    {
      EvalStable(conds[i], r, args, more);
    }
    var all := conds + [cond];
    assert all[|conds|] == cond;
    if Holds(all, r, args + more) {
      forall i | 0 <= i < |conds| ensures Eval(conds[i], r, args) == Yes {
        assert all[i] == conds[i];
      }
    }
  }

  lemma EmptyConds()
    ensures AllUse([], 0) && forall r :: Holds([], r, [])
  {
  }

  /** args.append(...); where.append(...) */
  method Append(conds: seq<Cond>, args: seq<Value>, cond: Cond, more: seq<Value>)
    returns (conds': seq<Cond>, args': seq<Value>)
    requires AllUse(conds, |args|) && Uses(cond, |args + more|)
    ensures AllUse(conds', |args'|) && args' == args + more
    ensures forall r :: Holds(conds', r, args') <==> Holds(conds, r, args) && Eval(cond, r, args + more) == Yes
  {
    conds', args' := conds + [cond], args + more;
    forall r ensures Holds(conds', r, args') <==> Holds(conds, r, args) && Eval(cond, r, args + more) == Yes {
      AppendCond(conds, args, cond, more, r);
    }
    AppendCond(conds, args, cond, more, Row(map[], {}));
  }

  /** if v is not None: args.append(v); where.append("col = $n") */
  method AppendEqual(conds: seq<Cond>, args: seq<Value>, col: Column, v: Value)
    returns (conds': seq<Cond>, args': seq<Value>)
    requires AllUse(conds, |args|)
    ensures AllUse(conds', |args'|)
    ensures forall r :: Holds(conds', r, args') <==> Holds(conds, r, args) && (v.Some? ==> Get(r, col) == v)
  {
    conds', args' := conds, args;
    if v.Some? {
      conds', args' := Append(conds, args, Compare(col, Eq, |args| + 1), [v]);
    }
  }

  // ---- ORDER BY ----

  datatype Term = Term(col: Column, desc: bool, nullsLast: bool)

  predicate TermBefore(t: Term, x: Value, y: Value) {
    if x == y then false
    else if x.None? then !t.nullsLast
    else if y.None? then t.nullsLast
    else if t.desc then x.value > y.value
    else x.value < y.value
  }

  /** Row a comes strictly before row b. */
  predicate OrderBefore(terms: seq<Term>, a: Row, b: Row) {
    if terms == [] then false
    else
      var c := terms[0].col;
      TermBefore(terms[0], Get(a, c), Get(b, c)) || (Get(a, c) == Get(b, c) && OrderBefore(terms[1..], a, b))
  }

  function ByOrder(terms: seq<Term>): Rel<Row> {
    (a: Row, b: Row) => OrderBefore(terms, a, b)
  }

  ghost predicate UniqueIds(table: set<Row>) {
    forall x, y | x in table && y in table && Get(x, Id) == Get(y, Id) :: x == y
  }

  lemma {:induction false} OrderChain(terms: seq<Term>, x: Row, y: Row, z: Row)
    ensures !OrderBefore(terms, x, x)
    ensures OrderBefore(terms, x, y) && OrderBefore(terms, y, z) ==> OrderBefore(terms, x, z)
  {
    if terms != [] {
      OrderChain(terms[1..], x, y, z);
    }
  }

  lemma {:induction false} OrderTotal(terms: seq<Term>, k: nat, x: Row, y: Row)
    requires k < |terms| && Get(x, terms[k].col) != Get(y, terms[k].col)
    ensures OrderBefore(terms, x, y) || OrderBefore(terms, y, x)
  {
    if k > 0 && Get(x, terms[0].col) == Get(y, terms[0].col) {
      OrderTotal(terms[1..], k - 1, x, y);
    }
  }

  /** An ORDER BY that ends in the primary key orders every table strictly and totally. */
  lemma OrderOk(terms: seq<Term>, table: set<Row>)
    requires terms != [] && terms[|terms| - 1].col == Id && UniqueIds(table)
    ensures OrderOn(ByOrder(terms), table)
  {
    var lt := ByOrder(terms);
    forall x, y, z | x in table && y in table && z in table ensures Chain(lt, x, y, z) && !lt(x, x) {
      OrderChain(terms, x, y, z);
    }
    forall x, y | x in table && y in table && x != y ensures lt(x, y) || lt(y, x) {
      OrderTotal(terms, |terms| - 1, x, y);
    }
  }

  lemma OrderStrict(terms: seq<Term>, table: set<Row>)
    ensures StrictOn(ByOrder(terms), table)
  {
    var lt := ByOrder(terms);
    forall x, y, z | x in table && y in table && z in table ensures Chain(lt, x, y, z) {
      OrderChain(terms, x, y, z);
    }
    forall x | x in table ensures !lt(x, x) {
      OrderChain(terms, x, x, x);
    }
  }

  /** The usual three-term ORDER BY, written out. */
  lemma OrderOfThree(t1: Term, t2: Term, t3: Term, a: Row, b: Row)
    ensures OrderBefore([t1, t2, t3], a, b) <==>
      || TermBefore(t1, Get(a, t1.col), Get(b, t1.col))
      || (Get(a, t1.col) == Get(b, t1.col) && TermBefore(t2, Get(a, t2.col), Get(b, t2.col)))
      || (Get(a, t1.col) == Get(b, t1.col) && Get(a, t2.col) == Get(b, t2.col)
          && TermBefore(t3, Get(a, t3.col), Get(b, t3.col)))
  {
    assert [t1, t2, t3][1..] == [t2, t3];
    OrderOfTwo(t2, t3, a, b);
  }

  lemma OrderOfTwo(t1: Term, t2: Term, a: Row, b: Row)
    ensures OrderBefore([t1, t2], a, b) <==>
      || TermBefore(t1, Get(a, t1.col), Get(b, t1.col))
      || (Get(a, t1.col) == Get(b, t1.col) && TermBefore(t2, Get(a, t2.col), Get(b, t2.col)))
  {
    assert [t1, t2][1..] == [t2];
    assert [t2][1..] == [];
    assert OrderBefore([t2], a, b) == TermBefore(t2, Get(a, t2.col), Get(b, t2.col));
  }

  /** Strictly earlier by one column, on the values alone; a NULL stands last or first. */
  predicate ColumnBefore(a: Value, b: Value, desc: bool, nullsLast: bool) {
    if a.None? || b.None? then a != b && (b.None? <==> nullsLast)
    else if desc then a.value > b.value
    else a.value < b.value
  }

  /** Row x is shown before y by this column, and rows with equal values newest first, then by the greater id. */
  predicate ByColumn(col: Column, desc: bool, nullsLast: bool, x: Row, y: Row) {
    || ColumnBefore(Get(x, col), Get(y, col), desc, nullsLast)
    || (Get(x, col) == Get(y, col) && ColumnBefore(Get(x, CreatedTime), Get(y, CreatedTime), true, true))
    || (Get(x, col) == Get(y, col) && Get(x, CreatedTime) == Get(y, CreatedTime)
        && ColumnBefore(Get(x, Id), Get(y, Id), true, true))
  }

  /** The rows are shown in this order. */
  ghost predicate ShownBy(rows: seq<Row>, before: Rel<Row>) {
    forall i, j | 0 <= i < j < |rows| :: before(rows[i], rows[j])
  }

  /** One page of a sorted listing: rows of the table, at most limit of them, still in order. */
  lemma PageOfRows(lt: Rel<Row>, s: set<Row>, limit: nat)
    requires OrderOn(lt, s) && limit >= 1
    ensures var items := Cut(Sorted(lt, s), limit).items;
      |items| <= limit && ShownBy(items, lt) && forall r | r in items :: r in s
  {
    hide StrictOn, TotalOn;
    var rows := Sorted(lt, s);
    var items := Cut(rows, limit).items;
    forall i, j | 0 <= i < j < |items| ensures lt(items[i], items[j]) {
      assert lt(rows[i], rows[j]);
    }
    forall r | r in items ensures r in s {
      assert r in rows;
    }
  }

  // ---- Execution ----

  datatype Query = Query(conds: seq<Cond>, args: seq<Value>, order: seq<Term>, limit: nat)

  function Kept(q: Query, table: set<Row>): set<Row> {
    set r | r in table && Holds(q.conds, r, q.args)
  }

  ghost function Result(q: Query, table: set<Row>): seq<Row>
    requires OrderOn(ByOrder(q.order), table)
  {
    var rows := Sorted(ByOrder(q.order), Kept(q, table));
    if |rows| > q.limit then rows[..q.limit] else rows
  }

  /** What the database does with a query. */
  method Fetch(q: Query, table: set<Row>) returns (rows: seq<Row>)
    requires OrderOn(ByOrder(q.order), table)
    ensures rows == Result(q, table)
  {
    hide StrictOn, TotalOn, Ascending, Sorted, Kept, ByOrder, IsLeastOf;
    var lt := ByOrder(q.order);
    var kept := Kept(q, table);
    KeptOrder(q, table);
    var rest := kept;
    rows := [];
    assert [] + Sorted(lt, rest) == Sorted(lt, kept);
    while rest != {} && |rows| < q.limit
      invariant OrderOn(lt, kept) && OrderOn(lt, rest)
      invariant |rows| <= q.limit
      invariant |rows| + |rest| == |kept|
      invariant Sorted(lt, kept) == rows + Sorted(lt, rest)
      decreases |rest|
    {
      LeastRow(lt, rest);
      var m :| m in rest && IsLeastOf(lt, rest, m);
      TakeLeast(lt, rest, m);
      assert rows + ([m] + Sorted(lt, rest - {m})) == (rows + [m]) + Sorted(lt, rest - {m});
      rows := rows + [m];
      rest := rest - {m};
    }
  }

  predicate IsLeastOf(lt: Rel<Row>, s: set<Row>, m: Row) {
    m in s && forall x | x in s && x != m :: lt(m, x)
  }

  lemma KeptOrder(q: Query, table: set<Row>)
    requires OrderOn(ByOrder(q.order), table)
    ensures OrderOn(ByOrder(q.order), Kept(q, table))
  {
  }

  lemma LeastRow(lt: Rel<Row>, s: set<Row>)
    requires OrderOn(lt, s) && s != {}
    ensures exists m :: m in s && IsLeastOf(lt, s, m)
  {
    LeastExists(lt, s);
    var m :| IsLeast(lt, s, m);
    assert m in s && IsLeastOf(lt, s, m);
  }

  lemma TakeLeast(lt: Rel<Row>, s: set<Row>, m: Row)
    requires OrderOn(lt, s) && IsLeastOf(lt, s, m)
    ensures OrderOn(lt, s - {m}) && Sorted(lt, s) == [m] + Sorted(lt, s - {m})
  {
    var tail := Sorted(lt, s - {m});
    var rows := [m] + tail;
    forall i, j | 0 <= i < j < |rows| ensures lt(rows[i], rows[j]) {
      if i == 0 {
        assert tail[j - 1] in tail;
      } else {
        assert lt(tail[i - 1], tail[j - 1]);
      }
    }
    SortedUnique(lt, s, rows);
  }

  /** Fetching limit + 1 rows and showing limit of them is one cut of the whole listing. */
  lemma CutResult(all: seq<Row>, rows: seq<Row>, limit: nat)
    requires limit >= 1 && rows == if |all| > limit + 1 then all[..limit + 1] else all
    ensures Cut(all, limit)
         == if |rows| > limit then Page(rows[..limit], Some(rows[..limit][limit - 1])) else Page(rows, None)
  {
  }
}
