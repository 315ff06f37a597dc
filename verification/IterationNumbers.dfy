/**
 Per-strategy iteration numbers. A transaction locks the hash of the strategy code, reads
 MAX(iteration_number) + 1, inserts a row with that number and commits or aborts; the lock is
 released only then. Statements of any number of transactions interleave. Each statement sees
 the rows committed before it and those of its own transaction (READ COMMITTED).
 */
module IterationNumbers {
  import opened Wrappers

  type Code = string
  type TxId = nat

  datatype Entry = Entry(code: Code, number: nat)

  /** An open transaction: its advisory locks, the numbers it has drawn and not yet used, its rows. */
  datatype Tx = Tx(locks: set<int>, drawn: map<Code, nat>, rows: seq<Entry>)

  datatype State = State(committed: seq<Entry>, open: map<TxId, Tx>)

  datatype Event =
    | Begin(tx: TxId)
    | Lock(tx: TxId, code: Code)
    | ReadMax(tx: TxId, code: Code)
    | Insert(tx: TxId, code: Code, number: nat)
    | Commit(tx: TxId)
    | Abort(tx: TxId)

  /** COALESCE(MAX(iteration_number), 0) over the rows of one code. */
  function MaxNumber(log: seq<Entry>, code: Code): (max: nat)
    ensures forall e | e in log && e.code == code :: e.number <= max
    ensures max > 0 ==> Entry(code, max) in log
  {
    if log == [] then 0
    else
      var rest := MaxNumber(log[..|log| - 1], code);
      var last := log[|log| - 1];
      if last.code == code && last.number > rest then last.number else rest
  }

  /** The iteration numbers of one code, in log order. */
  function Numbers(log: seq<Entry>, code: Code): seq<nat> {
    if log == [] then []
    else
      var rest := Numbers(log[..|log| - 1], code);
      var last := log[|log| - 1];
      if last.code == code then rest + [last.number] else rest
  }

  /** The numbers of the code are 1, 2, ..., n, each once. */
  ghost predicate Dense(log: seq<Entry>, code: Code) {
    var ns := Numbers(log, code);
    forall k | 0 <= k < |ns| :: ns[k] == k + 1
  }

  predicate Free(s: State, tx: TxId, lock: int) {
    forall other | other in s.open && other != tx :: lock !in s.open[other].locks
  }

  /** A lock held by another transaction makes the caller wait; an insert uses a number the transaction has read. */
  predicate Enabled(s: State, e: Event, hash: Code -> int) {
    if e.Begin? then e.tx !in s.open
    else
      && e.tx in s.open
      && match e
         case Lock(tx, code) => Free(s, tx, hash(code))
         case ReadMax(tx, code) => hash(code) in s.open[tx].locks
         case Insert(tx, code, number) => code in s.open[tx].drawn && s.open[tx].drawn[code] == number
         case _ => true
  }

  function Next(s: State, e: Event, hash: Code -> int): State {
    if !Enabled(s, e, hash) then s else
    match e
    case Begin(tx) => s.(open := s.open[tx := Tx({}, map[], [])])
    case Lock(tx, code) =>
      s.(open := s.open[tx := s.open[tx].(locks := s.open[tx].locks + {hash(code)})])
    case ReadMax(tx, code) =>
      var t := s.open[tx];
      s.(open := s.open[tx := t.(drawn := t.drawn[code := MaxNumber(s.committed + t.rows, code) + 1])])
    case Insert(tx, code, number) =>
      var t := s.open[tx];
      s.(open := s.open[tx := t.(drawn := t.drawn - {code}, rows := t.rows + [Entry(code, number)])])
    case Commit(tx) => State(s.committed + s.open[tx].rows, s.open - {tx})
    case Abort(tx) => s.(open := s.open - {tx})
  }

  function StateAt(s: State, events: seq<Event>, hash: Code -> int, i: nat): State
    requires i <= |events|
  {
    if i == 0 then s else Next(StateAt(s, events, hash, i - 1), events[i - 1], hash)
  }

  // ---- Invariant ----

  /**
   What a transaction sees of a code is dense; it touches only codes it has locked; the numbers it
   has drawn are current.
   */
  ghost predicate TxOk(committed: seq<Entry>, t: Tx, hash: Code -> int) {
    && (forall code: Code | hash(code) in t.locks :: Dense(committed + t.rows, code))
    && (forall code: Code | hash(code) !in t.locks :: Numbers(t.rows, code) == [] && code !in t.drawn)
    && (forall code: Code | code in t.drawn :: t.drawn[code] == |Numbers(committed + t.rows, code)| + 1)
  }

  ghost predicate Inv(s: State, hash: Code -> int) {
    && (forall code: Code :: Dense(s.committed, code))
    && (forall tx | tx in s.open :: TxOk(s.committed, s.open[tx], hash))
    && (forall a, b | a in s.open && b in s.open && a != b :: s.open[a].locks !! s.open[b].locks)
  }

  lemma {:induction false} NumbersConcat(a: seq<Entry>, b: seq<Entry>, code: Code)
    ensures Numbers(a + b, code) == Numbers(a, code) + Numbers(b, code)
  {
    if b == [] {
      assert a + b == a;
    } else {
      NumbersConcat(a, b[..|b| - 1], code);
      assert (a + b)[..|a + b| - 1] == a + b[..|b| - 1];
    }
  }

  lemma {:induction false} DenseMax(log: seq<Entry>, code: Code)
    requires Dense(log, code)
    ensures MaxNumber(log, code) == |Numbers(log, code)|
  {
    if log != [] {
      var init := log[..|log| - 1];
      var ns := Numbers(log, code);
      forall k | 0 <= k < |Numbers(init, code)| ensures Numbers(init, code)[k] == k + 1 {
        assert ns[k] == k + 1;
      }
      DenseMax(init, code);
      if log[|log| - 1].code == code {
        assert ns[|ns| - 1] == |ns|;
      }
    }
  }

  lemma LockKeepsTx(committed: seq<Entry>, t: Tx, code: Code, hash: Code -> int)
    requires TxOk(committed, t, hash)
    requires forall c: Code :: Dense(committed, c)
    ensures TxOk(committed, t.(locks := t.locks + {hash(code)}), hash)
  {
    forall c: Code | hash(c) in t.locks + {hash(code)} ensures Dense(committed + t.rows, c) {
      NumbersConcat(committed, t.rows, c);
      if hash(c) !in t.locks {
        assert Numbers(committed + t.rows, c) == Numbers(committed, c);
        assert Dense(committed, c);
      }
    }
  }

  lemma InsertKeepsTx(committed: seq<Entry>, t: Tx, code: Code, hash: Code -> int)
    requires TxOk(committed, t, hash) && code in t.drawn
    ensures TxOk(committed, t.(drawn := t.drawn - {code}, rows := t.rows + [Entry(code, t.drawn[code])]), hash)
  {
    var rows := t.rows + [Entry(code, t.drawn[code])];
    assert rows[..|rows| - 1] == t.rows;
    assert (committed + rows)[..|committed + rows| - 1] == committed + t.rows;
    assert hash(code) in t.locks;
    forall c: Code
      ensures Numbers(committed + rows, c)
           == Numbers(committed + t.rows, c) + if c == code then [t.drawn[code]] else []
      ensures hash(c) in t.locks ==> Dense(committed + rows, c)
    {
      assert hash(c) in t.locks ==> Dense(committed + t.rows, c);
    }
  }

  lemma CommitKeepsOther(committed: seq<Entry>, t: Tx, other: Tx, hash: Code -> int)
    requires TxOk(committed, t, hash) && TxOk(committed, other, hash) && t.locks !! other.locks
    ensures TxOk(committed + t.rows, other, hash)
  {
    forall c: Code | hash(c) in other.locks
      ensures Numbers(committed + t.rows + other.rows, c) == Numbers(committed + other.rows, c)
      ensures Dense(committed + t.rows + other.rows, c)
    {
      NumbersConcat(committed, t.rows, c);
      NumbersConcat(committed + t.rows, other.rows, c);
      NumbersConcat(committed, other.rows, c);
      assert hash(c) !in t.locks;
      assert Dense(committed + other.rows, c);
    }
  }

  lemma CommitKeepsDense(committed: seq<Entry>, t: Tx, code: Code, hash: Code -> int)
    requires TxOk(committed, t, hash) && Dense(committed, code)
    ensures Dense(committed + t.rows, code)
  {
    NumbersConcat(committed, t.rows, code);
  }

  lemma CommitKeepsInv(s: State, tx: TxId, hash: Code -> int)
    requires Inv(s, hash) && tx in s.open
    ensures Inv(State(s.committed + s.open[tx].rows, s.open - {tx}), hash)
  {
    forall c: Code ensures Dense(s.committed + s.open[tx].rows, c) {
      CommitKeepsDense(s.committed, s.open[tx], c, hash);
    }
    forall other | other in s.open && other != tx
      ensures TxOk(s.committed + s.open[tx].rows, s.open[other], hash)
    {
      CommitKeepsOther(s.committed, s.open[tx], s.open[other], hash);
    }
  }

  lemma NextKeepsInv(s: State, e: Event, hash: Code -> int)
    requires Inv(s, hash)
    ensures Inv(Next(s, e, hash), hash)
  {
    hide Dense, Numbers, MaxNumber;
    if Enabled(s, e, hash) {
      match e
      case Begin(tx) =>
        assert s.committed + [] == s.committed;
        NoNumbers();
        assert TxOk(s.committed, Tx({}, map[], []), hash);
      case Lock(tx, code) =>
        LockKeepsTx(s.committed, s.open[tx], code, hash);
      case ReadMax(tx, code) =>
        DenseMax(s.committed + s.open[tx].rows, code);
      case Insert(tx, code, number) =>
        InsertKeepsTx(s.committed, s.open[tx], code, hash);
      case Commit(tx) =>
        CommitKeepsInv(s, tx, hash);
      case Abort(tx) =>
    }
  }

  lemma NoNumbers()
    ensures forall c: Code :: Numbers([], c) == []
  {
  }

  /**
   Under any interleaving of lock, read, insert, commit and abort, and for any hash function
   (two codes may share a lock), the committed numbers of every code are exactly 1, ..., n.
   */
  lemma {:induction false} NumbersDense(events: seq<Event>, hash: Code -> int, i: nat)
    requires i <= |events|
    ensures Inv(StateAt(State([], map[]), events, hash, i), hash)
    ensures forall code: Code :: Dense(StateAt(State([], map[]), events, hash, i).committed, code)
  {
    if i > 0 {
      NumbersDense(events, hash, i - 1);
      NextKeepsInv(StateAt(State([], map[]), events, hash, i - 1), events[i - 1], hash);
    }
  }

  /**
   UNIQUE(strategy_code, iteration_number) never fires: the number inserted is new among the
   committed rows and those of its own transaction, and no other open one has rows of the code.
   */
  lemma InsertIsNew(s: State, tx: TxId, code: Code, number: nat, hash: Code -> int)
    requires Inv(s, hash) && Enabled(s, Insert(tx, code, number), hash)
    ensures number !in Numbers(s.committed + s.open[tx].rows, code) && number !in Numbers(s.committed, code)
    ensures forall other | other in s.open && other != tx :: Numbers(s.open[other].rows, code) == []
  {
    var t := s.open[tx];
    NumbersConcat(s.committed, t.rows, code);
    assert hash(code) in t.locks;
    assert Dense(s.committed + t.rows, code);
  }

  /**
   After every run, a transaction that comes when nobody holds the lock of a code gets the next
   number of the code: committing adds exactly this row, aborting nothing.
   */
  lemma OneMore(events: seq<Event>, tx: TxId, code: Code, hash: Code -> int)
    requires var s := StateAt(State([], map[]), events, hash, |events|);
      tx !in s.open && forall other | other in s.open :: hash(code) !in s.open[other].locks
    ensures var s := StateAt(State([], map[]), events, hash, |events|);
      var number := |Numbers(s.committed, code)| + 1;
      var steps := [Begin(tx), Lock(tx, code), ReadMax(tx, code), Insert(tx, code, number)];
      var committing, aborting := events + steps + [Commit(tx)], events + steps + [Abort(tx)];
      && StateAt(State([], map[]), committing, hash, |committing|)
         == State(s.committed + [Entry(code, number)], s.open)
      && StateAt(State([], map[]), aborting, hash, |aborting|) == s
  {
    hide Dense, Numbers, Next;
    var s := StateAt(State([], map[]), events, hash, |events|);
    var number := |Numbers(s.committed, code)| + 1;
    NumbersDense(events, hash, |events|);
    FourSteps(s, tx, code, hash);
    FourMore(events, Begin(tx), Lock(tx, code), ReadMax(tx, code), Insert(tx, code, number), hash);
    var steps := [Begin(tx), Lock(tx, code), ReadMax(tx, code), Insert(tx, code, number)];
    Extended(events + steps, Commit(tx), hash);
    Extended(events + steps, Abort(tx), hash);
    LastStep(s, tx, code, number, hash);
  }

  lemma FourSteps(s: State, tx: TxId, code: Code, hash: Code -> int)
    requires Inv(s, hash) && tx !in s.open && forall other | other in s.open :: hash(code) !in s.open[other].locks
    ensures var number := |Numbers(s.committed, code)| + 1;
      var read := Next(Next(Next(s, Begin(tx), hash), Lock(tx, code), hash), ReadMax(tx, code), hash);
      Next(read, Insert(tx, code, number), hash)
      == State(s.committed, s.open[tx := Tx({hash(code)}, map[], [Entry(code, number)])])
  {
    hide Dense, Numbers, MaxNumber, Inv, TxOk;
    var begun := s.(open := s.open[tx := Tx({}, map[], [])]);
    assert begun == Next(s, Begin(tx), hash);
    NextKeepsInv(s, Begin(tx), hash);
    assert s.committed + [] == s.committed;
    LockThenRead(begun, tx, code, hash);
    var number := |Numbers(s.committed, code)| + 1;
    var t := Tx({hash(code)}, map[code := number], []);
    var read := Next(Next(begun, Lock(tx, code), hash), ReadMax(tx, code), hash);
    assert {} + {hash(code)} == {hash(code)};
    assert read.committed == s.committed && read.open == s.open[tx := t];
    assert t.drawn - {code} == map[] && [] + [Entry(code, number)] == [Entry(code, number)];
  }

  lemma LastStep(s: State, tx: TxId, code: Code, number: nat, hash: Code -> int)
    requires tx !in s.open
    ensures var inserted := State(s.committed, s.open[tx := Tx({hash(code)}, map[], [Entry(code, number)])]);
      && Next(inserted, Commit(tx), hash) == State(s.committed + [Entry(code, number)], s.open)
      && Next(inserted, Abort(tx), hash) == s
  {
    assert s.open[tx := Tx({hash(code)}, map[], [Entry(code, number)])] - {tx} == s.open;
  }

  lemma FourMore(events: seq<Event>, a: Event, b: Event, c: Event, d: Event, hash: Code -> int)
    ensures var s := StateAt(State([], map[]), events, hash, |events|);
      StateAt(State([], map[]), events + [a, b, c, d], hash, |events + [a, b, c, d]|)
      == Next(Next(Next(Next(s, a, hash), b, hash), c, hash), d, hash)
  {
    hide Next;
    assert events + [a, b, c, d] == events + [a] + [b] + [c] + [d];
    Extended(events, a, hash);
    Extended(events + [a], b, hash);
    Extended(events + [a] + [b], c, hash);
    Extended(events + [a] + [b] + [c], d, hash);
  }

  lemma Extended(events: seq<Event>, e: Event, hash: Code -> int)
    ensures StateAt(State([], map[]), events + [e], hash, |events + [e]|)
         == Next(StateAt(State([], map[]), events, hash, |events|), e, hash)
  {
    SamePrefix(events, [e], hash, |events|);
  }

  lemma {:induction false} SamePrefix(events: seq<Event>, more: seq<Event>, hash: Code -> int, i: nat)
    requires i <= |events|
    ensures StateAt(State([], map[]), events + more, hash, i) == StateAt(State([], map[]), events, hash, i)
  {
    if i > 0 {
      SamePrefix(events, more, hash, i - 1);
    }
  }

  /** The table, its open transactions and the functions of repo/iterations_write.py. */
  class IterationLog {
    const hash: Code -> int
    var committed: seq<Entry>
    var open: map<TxId, Tx>

    constructor (hash: Code -> int)
      ensures this.hash == hash && Snapshot() == State([], map[])
      ensures Inv(Snapshot(), hash)
    {
      this.hash := hash;
      committed := [];
      open := map[];
      new;
      NumbersDense([], hash, 0);
    }

    function Snapshot(): State
      reads this
    {
      State(committed, open)
    }

    /** next_iteration_number; None means the advisory lock is taken and the caller waits. */
    method NextIterationNumber(tx: TxId, code: Code) returns (number: Option<nat>)
      requires tx in open && Inv(Snapshot(), hash)
      modifies this
      ensures Inv(Snapshot(), hash)
      ensures Snapshot() == if number.None? then old(Snapshot())
                            else Next(Next(old(Snapshot()), Lock(tx, code), hash), ReadMax(tx, code), hash)
      ensures number.None? <==>
        exists other | other in old(open) && other != tx :: hash(code) in old(open)[other].locks
      ensures number.Some? ==>
        number.value == |Numbers(old(committed) + old(open)[tx].rows, code)| + 1
        && Enabled(Snapshot(), Insert(tx, code, number.value), hash)
        && hash(code) in open[tx].locks && open[tx].rows == old(open)[tx].rows && committed == old(committed)
    {
      hide Dense, Numbers, Inv, TxOk;
      if !(forall other | other in open && other != tx :: hash(code) !in open[other].locks) {
        return None;
      }
      LockThenRead(Snapshot(), tx, code, hash);
      open := open[tx := open[tx].(locks := open[tx].locks + {hash(code)})];
      var n := MaxNumber(committed + open[tx].rows, code) + 1;
      open := open[tx := open[tx].(drawn := open[tx].drawn[code := n])];
      number := Some(n);
    }

    /** insert_iteration, with the number next_iteration_number returned to this transaction. */
    method InsertIteration(tx: TxId, code: Code, number: nat)
      requires Inv(Snapshot(), hash) && Enabled(Snapshot(), Insert(tx, code, number), hash)
      modifies this
      ensures Inv(Snapshot(), hash)
      ensures Snapshot() == Next(old(Snapshot()), Insert(tx, code, number), hash)
      ensures committed == old(committed) && open.Keys == old(open.Keys)
      ensures open[tx].rows == old(open)[tx].rows + [Entry(code, number)] && code !in open[tx].drawn
      ensures open[tx].locks == old(open)[tx].locks
    {
      NextKeepsInv(Snapshot(), Insert(tx, code, number), hash);
      var t := open[tx];
      open := open[tx := t.(drawn := t.drawn - {code}, rows := t.rows + [Entry(code, number)])];
    }
  }

  /** Lock and read together: the number is one more than the rows of the code that are visible. */
  lemma LockThenRead(s: State, tx: TxId, code: Code, hash: Code -> int)
    requires Inv(s, hash) && Enabled(s, Lock(tx, code), hash)
    ensures var locked := s.open[tx].(locks := s.open[tx].locks + {hash(code)});
      var n := MaxNumber(s.committed + s.open[tx].rows, code) + 1;
      var after := s.(open := s.open[tx := locked.(drawn := locked.drawn[code := n])]);
      && after == Next(Next(s, Lock(tx, code), hash), ReadMax(tx, code), hash)
      && Inv(after, hash) && Enabled(after, Insert(tx, code, n), hash)
      && n == |Numbers(s.committed + s.open[tx].rows, code)| + 1
  {
    hide Dense, Numbers, MaxNumber, Inv, TxOk;
    var locked := Next(s, Lock(tx, code), hash);
    NextKeepsInv(s, Lock(tx, code), hash);
    NextKeepsInv(locked, ReadMax(tx, code), hash);
    LockedMax(locked, tx, code, hash);
  }

  lemma LockedMax(s: State, tx: TxId, code: Code, hash: Code -> int)
    requires Inv(s, hash) && tx in s.open && hash(code) in s.open[tx].locks
    ensures MaxNumber(s.committed + s.open[tx].rows, code) == |Numbers(s.committed + s.open[tx].rows, code)|
  {
    assert TxOk(s.committed, s.open[tx], hash);
    DenseMax(s.committed + s.open[tx].rows, code);
  }
}
