/**
 * What updates of the database and their failures do (dli/interp_stmt.c, dli/interp_assign.c): what the operation of
 * the database yields is what the transaction sees from then on, and what an implicit transaction commits.
 */
module Database {
  import opened ByteStrings
  import opened Options
  import opened TxStack
  import opened Statements
  import opened Discipline
  import opened ImplicitTx

  /** Nothing but transactions, their log, the error and the time differs. */
  predicate SameBut(st: State, st': State) {
    st' == st.(tx := st'.tx, log := st'.log, err := st'.err, clock := st'.clock)
  }

  /**
   * An operation of the database has failed with e: outside of a running transaction nothing happens to transactions.
   * Otherwise a deadlock rolls all of them back, and some other errors the current one, which then sees what its
   * parent sees and no longer runs; a retryable error takes the current one back to its start, and it goes on running.
   */
  ghost predicate Failed(st: State, e: Error, st': State) {
    SameBut(st, st') && st'.tx.db == st.tx.db &&
    if !Running(st.tx) then st'.tx == st.tx && st'.err == Some(Error(e.typ, false, EndsNone))
    else
      st'.err == Some(e) && |st'.tx.stack| == |st.tx.stack| &&
      if e.ends == EndsAll then forall t :: t in st'.tx.stack ==> t == Tx(st.tx.db, false)
      else
        st'.tx.stack[1..] == st.tx.stack[1..] &&
        st'.tx.stack[0] ==
          if e.ends == EndsOwn then Tx(Below(st.tx), false)
          else if e.retryable then Tx(Below(st.tx), true)
          else st.tx.stack[0]
  }

  lemma FailureMeans(st: State, e: Error)
    ensures Failed(st, e, DbFail(st, e)) && DbFail(st, e).clock == st.clock
  {}

  /** The current transaction sees d, and all else is as before. */
  predicate Sees(st: State, d: Db, st': State)
    requires st.tx.stack != []
  {
    SameBut(st, st') && st'.err == st.err &&
    st'.tx == st.tx.(stack := [Tx(d, st.tx.stack[0].running)] + st.tx.stack[1..])
  }

  /**
   * An update succeeds iff a transaction is running and the database can compute it from the variables and from what
   * the transaction sees; the transaction then sees what was computed, and nothing else changes.
   */
  lemma UpdateMeans(m: Machine, u: Exp, st: State)
    ensures var r := ExecUpdate(m, u, st);
      if !Running(st.tx) then r == Fail(st, NoRunningTx)
      else match m.update(u, Env(st), st.tx.stack[0].view, st.clock)
        case Ok(d) => r.out == OK && Sees(st, d, r.st)
        case Err(e) => r.out == ERROR && Failed(st, e, r.st)
  {
    if Running(st.tx) {
      match m.update(u, Env(st), st.tx.stack[0].view, st.clock)
      case Ok(_) =>
      case Err(e) =>
        FailureMeans(Tick(st), e);
        hide DbFail;
    }
  }

  /** DROP of a name that is no variable, or that of a constant, is for the table of that name. */
  predicate DropsTable(st: State, name: Name) {
    st.foreachs == [] &&
    if st.scopes != [] && name in st.scopes[0] then st.scopes[0][name].fixed
    else name in st.root ==> st.root[name].fixed
  }

  lemma DropTableMeans(m: Machine, name: Name, st: State)
    requires DropsTable(st, name)
    ensures var r := ExecVarDrop(m, name, st);
      if st.tx.stack == [] then r == Fail(st, NameError)
      else if !Running(st.tx) then r == Fail(st, NoRunningTx)
      else match m.drop(name, st.tx.stack[0].view, st.clock)
        case Ok(d) => r.out == OK && Sees(st, d, r.st)
        case Err(e) => r.out == ERROR && Failed(st, e, r.st)
  {
    if Running(st.tx) {
      match m.drop(name, st.tx.stack[0].view, st.clock)
      case Ok(_) =>
      case Err(e) =>
        FailureMeans(Tick(st), e);
        hide DbFail;
    }
  }

  // ----- An update under an implicit transaction -----

  predicate SameVars(st: State, st': State) {
    st'.scopes == st.scopes && st'.root == st.root && st'.store == st.store
  }

  lemma AttemptSameVars(m: Machine, u: Exp, st: State, fuel: nat)
    ensures SameVars(st, Attempt(m, Update(u), true, st, fuel).st)
  {
    UpdateMeans(m, u, st);
    hide ExecUpdate;
    var r := Exec(m, Update(u), false, st, fuel);
    assert r == ExecUpdate(m, u, st) && SameVars(st, r.st);
    hide Exec;
    forall st', e ensures SameVars(st', CommitFailed(DbFail(st', e), e).st) {
      FailureMeans(st', e);
      hide DbFail, Step;
    }
    hide DbFail, CommitFailed, Step;
  }

  lemma {:induction false} StartsSameVars(m: Machine, u: Exp, st: State, fuel: nat, a: State, f: nat)
    requires Starts(m, Update(u), st, fuel, a, f)
    ensures SameVars(st, a)
    decreases fuel
  {
    hide Attempt;
    AttemptSameVars(m, u, st, fuel - 1);
    var r := Attempt(m, Update(u), true, st, fuel - 1);
    if Retried(r) && Starts(m, Update(u), r.st.(err := None), fuel - 1, a, f) {
      StartsSameVars(m, u, r.st.(err := None), fuel - 1, a, f);
    }
  }

  /**
   * If a single update outside of a transaction succeeds, with implicit transactions, the database is what the update
   * makes, at some time, of the variables and the database as they were before, and no transaction is left.
   */
  lemma ImplicitUpdate(m: Machine, u: Exp, st: State, fuel: nat)
    requires st.err == None && st.foreachs == [] && OpsTxFree(m) && st.tx.stack == [] && m.hasDb
    ensures var r := ExecImplTx(m, Update(u), true, st, fuel);
      r.out == OK ==> exists time, d ::
        m.update(u, Env(st), st.tx.db, time) == Ok(d) && r.st.tx == TxState(d, [])
  {
    var s, r := Update(u), ExecImplTx(m, Update(u), true, st, fuel);
    if r.out == OK {
      ImplicitTxOnce(m, s, st, fuel);
      var b := ExecBegin(m, st);
      assert b.out == OK && SameVars(st, b.st);
      hide ExecImplTx, ExecBegin, Starts, SucceededIn;
      var a, f :| Starts(m, s, b.st, fuel, a, f) && SucceededIn(m, s, st.tx.db, a, f, r);
      StartsSameVars(m, u, b.st, fuel, a, f);
      UpdatedIn(m, u, st.tx.db, a, f, r);
      assert Env(a) == Env(st);
    }
  }

  /**
   * Between statements, with implicit transactions: an update that the database can compute, in a transaction that can
   * begin and be committed, is in the database afterwards.
   */
  lemma UpdateTakesEffect(m: Machine, u: Exp, st: State, fuel: nat, d: Db)
    requires TopLevel(st) && st.tx.stack == [] && m.hasDb && fuel > 0
    requires m.begin(st.clock) == None && m.commit(st.clock + 2) == None
    requires m.update(u, Env(st), st.tx.db, st.clock + 1) == Ok(d)
    ensures var r := ProcessStmt(m, Update(u), true, st, fuel);
      r.out == OK && r.st.err == None && r.st.tx == TxState(d, []) && SameVars(st, r.st)
  {
    var s, st0 := Update(u), st.(err := None);
    var b := ExecBegin(m, st0).st;
    BeginMeans(m, st0);
    assert b.clock == st.clock + 1 && SameVars(st, b) && b.tx == TxState(st.tx.db, [Tx(st.tx.db, true)]);
    assert Env(b) == Env(st);
    hide ExecBegin, Visible;
    UpdateMeans(m, u, b);
    var q := ExecUpdate(m, u, b);
    assert q.st.clock == st.clock + 2;
    CommitMeans(m, q.st);
    assert Exec(m, s, false, b, fuel - 1) == q;
    hide ExecUpdate, Exec;
    assert ExecCommit(m, q.st).st == Do(Tick(q.st), Commit);
    assert Attempt(m, s, true, b, fuel - 1) == ExecCommit(m, q.st);
    hide Attempt, ExecCommit;
    assert ExecImplTx(m, s, true, st0, fuel) == Attempts(m, s, true, b, fuel);
  }

  lemma UpdatedIn(m: Machine, u: Exp, db: Db, a: State, f: nat, r: Res)
    requires SucceededIn(m, Update(u), db, a, f, r)
    ensures m.update(u, Env(a), db, a.clock).Ok? && r.st.tx == TxState(m.update(u, Env(a), db, a.clock).value, [])
  {
    UpdateMeans(m, u, a);
    hide ExecUpdate, ExecCommit;
    assert Exec(m, Update(u), false, a, f) == ExecUpdate(m, u, a);
  }
}
