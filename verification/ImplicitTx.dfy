/**
 * Statements under implicit transactions (Duro_exec_stmt_impl_tx and Duro_process_stmt in dli/interp_stmt.c): a
 * statement outside of a transaction gets one of its own, and is repeated as long as it fails retryably.
 */
module ImplicitTx {
  import opened Options
  import opened TxStack
  import opened Statements
  import opened Discipline

  predicate IsTxStmt(s: Stmt) {
    s.BeginTx? || s.CommitTx? || s.RollbackTx?
  }

  /** The attempt failed, but can be repeated. */
  predicate Retried(r: Res) {
    r.out in {ERROR, RETURN, LEAVE} && r.st.err.Some? && r.st.err.value.retryable
  }

  /** Each attempt takes one unit of fuel. */
  function Attempts(m: Machine, s: Stmt, implicit: bool, st: State, fuel: nat): Res
    decreases fuel
  {
    if fuel == 0 then Res(SPENT, st)
    else
      var r := Attempt(m, s, implicit, st, fuel - 1);
      if r.out == OK || r.out.UNDEFINED? || r.out == SPENT then r
      else if !implicit then if r.st.err.None? then Res(UNDEFINED(NullError), r.st) else Res(ERROR, r.st)
      else if Retried(r) then Attempts(m, s, implicit, r.st.(err := None), fuel - 1)
      else Res(ERROR, if Running(r.st.tx) then ExecRollback(m, r.st).st else r.st)
  }

  /** The statement, and the commit of the implicit transaction. */
  function Attempt(m: Machine, s: Stmt, implicit: bool, st: State, fuel: nat): Res {
    var r := Exec(m, s, false, st, fuel);
    if r.out == OK && implicit then ExecCommit(m, r.st) else r
  }

  predicate IsImplicit(m: Machine, s: Stmt, implicitTx: bool, st: State) {
    implicitTx && !IsTxStmt(s) && st.tx.stack == [] && m.hasDb
  }

  function ExecImplTx(m: Machine, s: Stmt, implicitTx: bool, st: State, fuel: nat): Res {
    if IsImplicit(m, s, implicitTx, st) then
      var b := ExecBegin(m, st);
      if b.out != OK then b else Attempts(m, s, true, b.st, fuel)
    else Attempts(m, s, false, st, fuel)
  }

  function ProcessStmt(m: Machine, s: Stmt, implicitTx: bool, st: State, fuel: nat): Res {
    var r := ExecImplTx(m, s, implicitTx, st.(err := None), fuel);
    if r.out == ERROR && r.st.err.None? then Fail(r.st, InternalError) else r
  }

  // ----- A statement takes effect once or not at all -----

  /** Events that begin or end no transaction. */
  predicate NoControl(es: seq<Event>) {
    es == [] || (!IsControl(es[0]) && NoControl(es[1..]))
  }

  lemma {:induction false} NoControlIf(es: seq<Event>)
    requires forall i :: 0 <= i < |es| ==> !IsControl(es[i])
    ensures NoControl(es)
  {
    if es != [] {
      NoControlIf(es[1..]);
    }
  }

  lemma {:induction false} NoControlKeeps(t: TxState, es: seq<Event>)
    requires NoControl(es)
    ensures var t' := Run(t, es);
      t'.db == t.db && |t'.stack| == |t.stack| && (Running(t') ==> Running(t))
    decreases |es|
  {
    if es != [] {
      NoControlKeeps(Step(t, es[0]), es[1..]);
    }
  }

  /** The only transaction has changed nothing yet. */
  predicate AtStart(t: TxState, db: Db) {
    t.db == db && |t.stack| == 1 && t.stack[0].view == db
  }

  /** A statement without transaction control, executed in the only transaction. */
  lemma StmtInTx(m: Machine, s: Stmt, st: State, fuel: nat)
    requires st.err == None && TxFree(s) && OpsTxFree(m) && |st.tx.stack| == 1
    ensures var r := Exec(m, s, false, st, fuel);
      r.st.tx.db == st.tx.db && |r.st.tx.stack| == 1 && (Running(r.st.tx) ==> Running(st.tx)) &&
      r.st.foreachs == st.foreachs && Fair(r) && (r.out in {OK, RETURN, LEAVE} ==> r.st.err == None)
  {
    hide Exec, TxFree;
    ExecSound(true, m, s, false, st, fuel);
    var r := Exec(m, s, false, st, fuel);
    var es := r.st.log[|st.log|..];
    NoControlIf(es);
    NoControlKeeps(st.tx, es);
  }

  /**
   * An attempt starts in a: it is the first, which starts in st, or the one before it failed retryably and left
   * that state, but for the error.
   */
  ghost predicate Starts(m: Machine, s: Stmt, st: State, fuel: nat, a: State, f: nat)
    decreases fuel
  {
    fuel > 0 && ((a == st && f == fuel - 1) ||
      (Retried(Attempt(m, s, true, st, fuel - 1)) &&
       Starts(m, s, Attempt(m, s, true, st, fuel - 1).st.(err := None), fuel - 1, a, f)))
  }

  /**
   * The attempt in a succeeded: it found the database as it was in the beginning, and what it saw at its end is
   * committed.
   */
  ghost predicate SucceededIn(m: Machine, s: Stmt, db: Db, a: State, f: nat, r: Res) {
    AtStart(a.tx, db) && Running(a.tx) && Exec(m, s, false, a, f).out == OK &&
    r == ExecCommit(m, Exec(m, s, false, a, f).st) && r.st.tx == TxState(Current(Exec(m, s, false, a, f).st.tx), [])
  }

  /** The attempts that start in st succeeded with one of them. */
  ghost predicate Succeeded(m: Machine, s: Stmt, st: State, fuel: nat, db: Db, r: Res) {
    exists a, f :: Starts(m, s, st, fuel, a, f) && SucceededIn(m, s, db, a, f, r)
  }

  /**
   * Nothing has changed; a transaction is left only if an operation rolled it back, or rolling it back, which was
   * the last operation, failed.
   */
  ghost predicate NoEffect(m: Machine, db: Db, st: State) {
    st.tx.db == db && (st.tx.stack == [] || (|st.tx.stack| == 1 &&
      (!Running(st.tx) || (st.clock > 0 && m.rollback(st.clock - 1).Some?))))
  }

  /** The attempts that start in st ended with one that failed and cannot be repeated. */
  ghost predicate GaveUp(m: Machine, s: Stmt, st: State, fuel: nat) {
    exists a, f :: Starts(m, s, st, fuel, a, f) && FailsFinally(Attempt(m, s, true, a, f))
  }

  predicate FailsFinally(r: Res) {
    r.out in {ERROR, RETURN, LEAVE} && !(r.st.err.Some? && r.st.err.value.retryable)
  }

  ghost predicate OnceOrNotAtAll(m: Machine, s: Stmt, st: State, fuel: nat, db: Db, r: Res) {
    (r.out == OK ==> Succeeded(m, s, st, fuel, db, r)) &&
    (r.out == ERROR ==> NoEffect(m, db, r.st) && GaveUp(m, s, st, fuel))
  }

  lemma AttemptOnce(m: Machine, s: Stmt, st: State, db: Db, fuel: nat)
    requires st.err == None && st.foreachs == [] && TxFree(s) && OpsTxFree(m) && AtStart(st.tx, db)
    ensures var r := Attempt(m, s, true, st, fuel);
      r.st.foreachs == [] && (r.out == OK ==> SucceededIn(m, s, db, st, fuel, r)) &&
      (r.out in {ERROR, RETURN, LEAVE} ==> r.st.tx == TxState(db, []) || (r.st.tx.db == db && |r.st.tx.stack| == 1)) &&
      (Retried(r) ==> AtStart(r.st.tx, db))
  {
    StmtInTx(m, s, st, fuel);
    var q := Exec(m, s, false, st, fuel);
    hide Exec, TxFree, OpsTxFree, ExecCommit;
    if q.out == OK {
      CommitOne(m, q.st, db);
    }
  }

  lemma CommitOne(m: Machine, st: State, db: Db)
    requires st.err == None && st.foreachs == [] && |st.tx.stack| == 1 && st.tx.db == db
    ensures var r := ExecCommit(m, st);
      r.st.foreachs == [] && r.out in {OK, ERROR} &&
      (r.out == OK ==> Running(st.tx) && r.st.tx == TxState(Current(st.tx), [])) &&
      (r.out == ERROR ==>
        r.st.err.Some? && if r.st.err.value.retryable then AtStart(r.st.tx, db) else r.st.tx == TxState(db, []))
  {
    hide CommitFailed, DbFail, AtStart;
    forall e | Running(st.tx) ensures FailedAtStart(CommitFailed(DbFail(Tick(st), e), e), db) {
      DbFailOne(st, e, db);
      CommitFailedOne(DbFail(Tick(st), e), e, db);
    }
  }

  /** The commit failed, and the transaction is back at its start or is gone. */
  ghost predicate FailedAtStart(r: Res, db: Db) {
    r.out == ERROR && r.st.foreachs == [] && r.st.err.Some? &&
    if r.st.err.value.retryable then AtStart(r.st.tx, db) else r.st.tx == TxState(db, [])
  }

  lemma DbFailOne(st: State, e: Error, db: Db)
    requires Running(st.tx) && |st.tx.stack| == 1 && st.tx.db == db
    ensures var st' := DbFail(Tick(st), e);
      st'.err == Some(e) && st'.foreachs == st.foreachs && st'.tx.db == db && |st'.tx.stack| == 1 &&
      (e.retryable ==> AtStart(st'.tx, db))
  {}

  lemma CommitFailedOne(st: State, e: Error, db: Db)
    requires st.err == Some(e) && st.foreachs == [] && st.tx.db == db && |st.tx.stack| == 1
    requires e.retryable ==> AtStart(st.tx, db)
    ensures FailedAtStart(CommitFailed(st, e), db)
  {}

  lemma RollbackOne(m: Machine, st: State, db: Db)
    requires Running(st.tx) && |st.tx.stack| == 1 && st.tx.db == db && st.foreachs == []
    ensures NoEffect(m, db, ExecRollback(m, st).st)
  {
    if m.rollback(st.clock) == None {
      assert ExecRollback(m, st).st.tx == TxState(db, []);
    }
  }

  lemma {:induction false} AttemptsOnce(m: Machine, s: Stmt, st: State, db: Db, fuel: nat)
    requires st.err == None && st.foreachs == [] && TxFree(s) && OpsTxFree(m) && AtStart(st.tx, db)
    ensures OnceOrNotAtAll(m, s, st, fuel, db, Attempts(m, s, true, st, fuel))
    decreases fuel
  {
    hide Attempt, SucceededIn, TxFree, OpsTxFree, ExecRollback;
    if fuel > 0 {
      AttemptOnce(m, s, st, db, fuel - 1);
      var r := Attempt(m, s, true, st, fuel - 1);
      if r.out == OK {
        assert Starts(m, s, st, fuel, st, fuel - 1);
      } else if Retried(r) {
        AttemptsOnce(m, s, r.st.(err := None), db, fuel - 1);
        SucceededLater(m, s, st, db, fuel, Attempts(m, s, true, st, fuel));
      } else if r.out in {ERROR, RETURN, LEAVE} {
        assert Starts(m, s, st, fuel, st, fuel - 1) && FailsFinally(r);
        if Running(r.st.tx) {
          RollbackOne(m, r.st, db);
        }
      }
    }
  }

  lemma StartsLater(m: Machine, s: Stmt, st: State, fuel: nat, a: State, f: nat)
    requires fuel > 0 && Retried(Attempt(m, s, true, st, fuel - 1))
    requires Starts(m, s, Attempt(m, s, true, st, fuel - 1).st.(err := None), fuel - 1, a, f)
    ensures Starts(m, s, st, fuel, a, f)
  {
    hide Attempt;
  }

  lemma SucceededLater(m: Machine, s: Stmt, st: State, db: Db, fuel: nat, r: Res)
    requires fuel > 0 && Retried(Attempt(m, s, true, st, fuel - 1))
    ensures Succeeded(m, s, Attempt(m, s, true, st, fuel - 1).st.(err := None), fuel - 1, db, r) ==>
      Succeeded(m, s, st, fuel, db, r)
    ensures GaveUp(m, s, Attempt(m, s, true, st, fuel - 1).st.(err := None), fuel - 1) ==> GaveUp(m, s, st, fuel)
  {
    var st' := Attempt(m, s, true, st, fuel - 1).st.(err := None);
    forall a, f | Starts(m, s, st', fuel - 1, a, f) ensures Starts(m, s, st, fuel, a, f) {
      StartsLater(m, s, st, fuel, a, f);
    }
    hide Attempt, SucceededIn, FailsFinally, Starts, Retried;
  }

  /**
   * A statement without transaction control under an implicit transaction: if it succeeds, then with one of its
   * attempts, the first or one after retryable failures only; that attempt found the database as it was, what it
   * saw at its end is committed, and no transaction is left. If it fails, then with an attempt that cannot be repeated,
   * and the database has not changed.
   */
  lemma ImplicitTxOnce(m: Machine, s: Stmt, st: State, fuel: nat)
    requires st.err == None && st.foreachs == [] && TxFree(s) && OpsTxFree(m) && st.tx.stack == [] && m.hasDb
    ensures var b, r := ExecBegin(m, st), ExecImplTx(m, s, true, st, fuel);
      if b.out == OK then OnceOrNotAtAll(m, s, b.st, fuel, st.tx.db, r)
      else r.out == ERROR && r.st.err.Some? && r.st.tx == st.tx
  {
    assert IsImplicit(m, s, true, st);
    hide Attempts, OnceOrNotAtAll, TxFree;
    var b := ExecBegin(m, st);
    if b.out == OK {
      AttemptsOnce(m, s, b.st, st.tx.db, fuel);
    }
  }

  /**
   * A statement inside a transaction, one that controls transactions, and any statement without implicit transactions
   * or without a database are executed once, and nothing is committed or rolled back by itself.
   */
  lemma ExecutedOnce(m: Machine, s: Stmt, implicitTx: bool, st: State, fuel: nat)
    requires fuel > 0 && (!implicitTx || st.tx.stack != [] || !m.hasDb || s.BeginTx? || s.CommitTx? || s.RollbackTx?)
    ensures var q, r := Exec(m, s, false, st, fuel - 1), ExecImplTx(m, s, implicitTx, st, fuel);
      r.st == q.st && r.out ==
        if q.out in {OK, SPENT} || q.out.UNDEFINED? then q.out
        else if q.st.err.None? then UNDEFINED(NullError)
        else ERROR
  {
    hide Exec;
  }

  // ----- Explicit transactions -----

  /** What COMMIT and ROLLBACK leave without the innermost transaction. */
  function Without(t: TxState): TxState {
    if t.stack == [] then t else t.(stack := t.stack[1..])
  }

  /**
   * BEGIN TRANSACTION succeeds iff there is a database, the innermost transaction, if there is one, is running and
   * the new one can begin. Then it is one more running transaction, which sees what its parent sees; otherwise
   * nothing changes, and an error is raised.
   */
  lemma BeginMeans(m: Machine, st: State)
    ensures var r := ExecBegin(m, st);
      (r.out == OK <==> m.hasDb && (st.tx.stack == [] || Running(st.tx)) && m.begin(st.clock) == None) &&
      (if r.out == OK then Without(r.st.tx) == st.tx && Running(r.st.tx) && Current(r.st.tx) == Current(st.tx)
       else r.out == ERROR && r.st.err.Some? && r.st.tx == st.tx)
  {}

  /**
   * ROLLBACK takes the innermost transaction away, running or not, with all it has done; not within FOREACH. If it
   * fails, all transactions are as before.
   */
  lemma RollbackMeans(m: Machine, st: State)
    ensures var r := ExecRollback(m, st);
      (r.out == OK <==> st.tx.stack != [] && st.foreachs == [] && (Running(st.tx) ==> m.rollback(st.clock) == None)) &&
      (if r.out == OK then r.st.tx == Without(st.tx) else r.out == ERROR && r.st.err.Some? && r.st.tx == st.tx)
  {}

  /**
   * COMMIT lets the parent, or the database, see what a running transaction sees; not within FOREACH. If it fails,
   * the database and what the transactions around see has not changed; after a retryable failure the transaction is
   * back at its start, after any other it is gone, and the ones around have ended if there was a deadlock.
   */
  lemma CommitMeans(m: Machine, st: State)
    ensures var r := ExecCommit(m, st);
      (r.out == OK <==> Running(st.tx) && st.foreachs == [] && m.commit(st.clock) == None) &&
      (r.out == OK ==> r.st.tx == WithView(Without(st.tx), Current(st.tx))) &&
      (r.out != OK ==> r.out == ERROR && r.st.err.Some? && r.st.tx.db == st.tx.db) &&
      (r.out != OK && st.tx.stack != [] && st.foreachs == [] ==> NotCommitted(st.tx, r.st))
  {
    if Running(st.tx) && st.foreachs == [] && m.commit(st.clock).Some? {
      CommitFails(Tick(st), m.commit(st.clock).value);
      hide DbFail, CommitFailed;
    }
  }

  ghost predicate NotCommitted(t: TxState, st: State)
    requires t.stack != []
  {
    st.err.Some? &&
    if st.err.value.retryable then
      |st.tx.stack| == |t.stack| && Current(st.tx) == Below(st.tx) &&
      (Without(st.tx) == Without(t) || Without(st.tx) == Step(Without(t), AbortAll))
    else st.tx == Without(t) || st.tx == Step(Without(t), AbortAll)
  }

  lemma CommitFails(st: State, e: Error)
    requires Running(st.tx)
    ensures var r := CommitFailed(DbFail(st, e), e);
      r.out == ERROR && r.st.err.Some? && r.st.tx.db == st.tx.db && NotCommitted(st.tx, r.st)
  {
    EndedRest(st.tx);
  }

  lemma EndedRest(t: TxState)
    requires t.stack != []
    ensures Ended(t.stack, t.db)[1..] == Ended(t.stack[1..], t.db)
  {}

  /** BEGIN followed by COMMIT or ROLLBACK, if they succeed, leaves all transactions and the database as they were. */
  lemma EmptyTransaction(m: Machine, st: State)
    requires ExecBegin(m, st).out == OK
    ensures var b := ExecBegin(m, st).st;
      (ExecCommit(m, b).out == OK ==> ExecCommit(m, b).st.tx == st.tx) &&
      (ExecRollback(m, b).out == OK ==> ExecRollback(m, b).st.tx == st.tx)
  {
    var b := ExecBegin(m, st).st;
    BeginMeans(m, st);
    CommitMeans(m, b);
    RollbackMeans(m, b);
    hide ExecBegin, ExecCommit, ExecRollback;
    if st.tx.stack != [] {
      assert [st.tx.stack[0]] + st.tx.stack[1..] == st.tx.stack;
    }
  }

  /**
   * Statements between BEGIN TRANSACTION and ROLLBACK, with any transactions inside: all transactions and the
   * database are as they were before the BEGIN, unless a deadlock has ended the transactions around.
   */
  lemma RollbackUndoes(m: Machine, ss: seq<Stmt>, ro: bool, st: State, fuel: nat)
    requires st.err == None && ExecBegin(m, st).out == OK
    requires var b := ExecBegin(m, st).st;
      var r := ExecStmts(m, ss, ro, b, fuel);
      r.out == OK && |b.log| <= |r.st.log| && Deep(b.tx, r.st.log[|b.log|..], |st.tx.stack| + 1) &&
        |r.st.tx.stack| == |st.tx.stack| + 1 &&
      ExecRollback(m, r.st).out == OK
    ensures var b := ExecBegin(m, st).st;
      var r := ExecStmts(m, ss, ro, b, fuel);
      var t := ExecRollback(m, r.st).st.tx;
      t == Around(st.tx, r.st.log[|b.log|..]) && (t == st.tx <==> st.tx.stack == [] || AbortAll !in r.st.log[|b.log|..])
  {
    hide ExecStmts;
    var b := ExecBegin(m, st).st;
    StmtsSound(false, m, ss, ro, b, fuel);
    var r := ExecStmts(m, ss, ro, b, fuel);
    var es := r.st.log[|b.log|..];
    assert b.tx == Step(st.tx, Begin) && r.st.tx == Run(b.tx, es);
    RunEnclosed(st.tx, es, Event.Pop);
    RollbackRestores(st.tx, es);
    RollbackRestoresAll(st.tx, es);
  }

  /**
   * A FOREACH loop, however it ends and whatever is called in it, neither commits nor rolls back one transaction:
   * the database and the transactions around the innermost one are not affected but for a deadlock.
   */
  lemma ForeachEndsNothing(m: Machine, s: Stmt, ro: bool, st: State, fuel: nat, n: nat)
    requires s.Foreach? && st.err == None && (n == 0 || n < |st.tx.stack|)
    ensures var r := Exec(m, s, ro, st, fuel).st;
      |st.log| <= |r.log| && r.tx.db == st.tx.db && |r.tx.stack| >= |st.tx.stack| &&
      Outermost(r.tx, n) == Survivors(st.tx, r.log[|st.log|..], n)
  {
    hide ExecForeach;
    ForeachSound(false, m, s, ro, st, fuel);
    var r := ExecForeach(m, s, ro, st, fuel);
    assert Exec(m, s, ro, st, fuel) == r;
    NothingEnded(st.tx, r.st.log[|st.log|..], n);
  }

  // ----- Sessions -----

  /** Between two statements there are no local variables, no running loop and no running operator. */
  predicate TopLevel(st: State) {
    st.scopes == [] && st.foreachs == [] && st.innerOp == None
  }

  lemma AttemptKeepsTopLevel(m: Machine, s: Stmt, implicit: bool, st: State, fuel: nat)
    requires st.err == None && TopLevel(st)
    ensures var r := Attempt(m, s, implicit, st, fuel); TopLevel(r.st) && TopLevel(ExecRollback(m, r.st).st)
  {
    hide Exec, Logged, Step;
    ExecSound(false, m, s, false, st, fuel);
  }

  lemma {:induction false} AttemptsKeepTopLevel(m: Machine, s: Stmt, implicit: bool, st: State, fuel: nat)
    requires st.err == None && TopLevel(st)
    ensures TopLevel(Attempts(m, s, implicit, st, fuel).st)
    decreases fuel
  {
    hide Attempt, ExecRollback;
    if fuel > 0 {
      AttemptKeepsTopLevel(m, s, implicit, st, fuel - 1);
      var r := Attempt(m, s, implicit, st, fuel - 1);
      AttemptsKeepTopLevel(m, s, implicit, r.st.(err := None), fuel - 1);
    }
  }

  function Session(m: Machine, ss: seq<Stmt>, implicitTx: bool, st: State, fuel: nat): State
    decreases |ss|
  {
    if ss == [] then st else Session(m, ss[1..], implicitTx, ProcessStmt(m, ss[0], implicitTx, st, fuel).st, fuel)
  }

  /** That holds through any sequence of statements, whether they succeed or fail; and a failure has an error. */
  lemma {:induction false} SessionKeepsTopLevel(m: Machine, ss: seq<Stmt>, implicitTx: bool, st: State, fuel: nat)
    requires TopLevel(st)
    ensures TopLevel(Session(m, ss, implicitTx, st, fuel))
    ensures ss != [] ==> var r := ProcessStmt(m, ss[0], implicitTx, st, fuel);
      r.out != RETURN && r.out != LEAVE && (r.out == ERROR ==> r.st.err.Some?)
    decreases |ss|
  {
    hide Attempts;
    if ss != [] {
      var st0 := st.(err := None);
      var b := ExecBegin(m, st0);
      if IsImplicit(m, ss[0], implicitTx, st0) && b.out == OK {
        AttemptsKeepTopLevel(m, ss[0], true, b.st, fuel);
        AttemptsEnd(m, ss[0], true, b.st, fuel);
      }
      AttemptsKeepTopLevel(m, ss[0], false, st0, fuel);
      AttemptsEnd(m, ss[0], false, st0, fuel);
      SessionKeepsTopLevel(m, ss[1..], implicitTx, ProcessStmt(m, ss[0], implicitTx, st, fuel).st, fuel);
    }
  }

  lemma {:induction false} AttemptsEnd(m: Machine, s: Stmt, implicit: bool, st: State, fuel: nat)
    ensures Attempts(m, s, implicit, st, fuel).out !in {RETURN, LEAVE}
    decreases fuel
  {
    hide Attempt;
    if fuel > 0 {
      var r := Attempt(m, s, implicit, st, fuel - 1);
      AttemptsEnd(m, s, implicit, r.st.(err := None), fuel - 1);
    }
  }
}
