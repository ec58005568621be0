/**
 * The interpreter as the object that it is (Duro_interp in dli/iinterp.h): its methods update the chain of
 * scopes, the chain of FOREACH loops, the stack of transactions and the LEAVE target in place. Each of them is
 * proved to do what the module Statements says.
 */
module Interpreter {
  import opened ByteStrings
  import opened Options
  import opened TxStack
  import opened Statements
  import opened ImplicitTx

  /** How many transactions, the innermost first, can be rolled back before one cannot. */
  ghost function RolledBack(m: Machine, txs: seq<Tx>, clock: nat): (k: nat)
    ensures k <= |txs|
  {
    if txs == [] || !txs[0].running || m.rollback(clock).Some? then 0 else 1 + RolledBack(m, txs[1..], clock + 1)
  }

  /** Why that one cannot. */
  ghost function RollbackError(m: Machine, t: Tx, clock: nat): ErrorType {
    if t.running && m.rollback(clock).Some? then m.rollback(clock).value.typ else NoRunningTx
  }

  class Interp {
    const m: Machine
    var scopes: seq<Scope>
    var root: Scope
    var store: seq<Value>
    var foreachs: seq<seq<Value>>
    var leaveTarget: Option<Name>
    var ret: Value
    var err: Option<Error>
    var retryable: bool
    var innerOp: Option<Name>
    var tx: TxState
    ghost var log: seq<Event>
    var clock: nat

    constructor (m: Machine, db: Db)
      ensures this.m == m && TopLevel(St()) && root == map[] && tx == TxState(db, []) && err == None && log == []
    {
      this.m := m;
      scopes, root, store, foreachs := [], map[], [], [];
      leaveTarget, ret, err, retryable, innerOp := None, Bool(false), None, false, None;
      tx, log, clock := TxState(db, []), [], 0;
    }

    ghost function St(): State
      reads this
    {
      State(scopes, root, store, foreachs, leaveTarget, ret, err, retryable, innerOp, tx, log, clock)
    }

    // ----- Variables -----

    method AddVarmap(s: Scope)
      modifies this`scopes
      ensures St() == Enter(old(St()), s)
    {
      scopes := [s] + scopes;
    }

    method RemoveVarmap()
      requires scopes != []
      modifies this`scopes
      ensures St() == Exit(old(St()))
    {
      scopes := scopes[1..];
    }

    method LookupTransientVar(name: Name) returns (e: Option<Entry>)
      ensures e == Find(St(), name)
    {
      var i := 0;
      while i < |scopes|
        invariant i <= |scopes| && Find(St(), name) == Lookup(scopes[i..], root, name)
      {
        assert scopes[i..][1..] == scopes[i + 1..];
        if name in scopes[i] {
          return Some(scopes[i][name]);
        }
        i := i + 1;
      }
      e := if name in root then Some(root[name]) else None;
    }

    method SetValue(loc: nat, v: Value)
      modifies this`store
      ensures St() == Set(old(St()), loc, v)
    {
      if loc < |store| {
        store := store[loc := v];
      }
    }

    // ----- Errors and the database -----

    method Raise(typ: ErrorType) returns (out: Outcome)
      modifies this`err
      ensures Res(out, St()) == Fail(old(St()), typ)
    {
      err := Some(Error(typ, false, EndsNone));
      out := ERROR;
    }

    method TxEvent(e: Event)
      modifies this`tx, this`log
      ensures St() == Do(old(St()), e)
    {
      tx := Step(tx, e);
      log := log + [e];
    }

    method HandleError(e: Error)
      modifies this`err, this`tx, this`log
      ensures St() == DbFail(old(St()), e)
    {
      if !Running(tx) {
        err := Some(Error(e.typ, false, EndsNone));
      } else {
        if e.ends.EndsAll? {
          TxEvent(AbortAll);
        } else if e.ends.EndsOwn? {
          TxEvent(Abort);
        } else if e.retryable {
          TxEvent(Reset);
        }
        err := Some(e);
      }
    }

    method Evaluate(e: Exp) returns (v: Option<Value>)
      modifies this`err, this`tx, this`log, this`clock
      ensures Eval(v, St()) == Statements.Evaluate(m, e, old(St()))
    {
      var r := m.eval(e, Visible(scopes, root, store), if Running(tx) then Some(tx.stack[0].view) else None, clock);
      clock := clock + 1;
      match r {
        case Ok(value) => v := Some(value);
        case Err(er) =>
          HandleError(er);
          v := None;
      }
    }

    method EvaluateBool(e: Exp) returns (v: Option<Value>)
      modifies this`err, this`tx, this`log, this`clock
      ensures Eval(v, St()) == EvalBool(m, e, old(St()))
    {
      v := Evaluate(e);
      if v.Some? && !v.value.Bool? {
        var _ := Raise(TypeMismatch);
        v := None;
      }
    }

    // ----- Transactions -----

    method BeginTransaction() returns (out: Outcome)
      modifies this`err, this`tx, this`log, this`clock
      ensures Res(out, St()) == ExecBegin(m, old(St()))
    {
      if !m.hasDb {
        out := Raise(NotFound);
      } else if tx.stack != [] && !Running(tx) {
        out := Raise(NoRunningTx);
      } else {
        var r := m.begin(clock);
        clock := clock + 1;
        if r.Some? {
          out := Raise(r.value.typ);
        } else {
          TxEvent(Begin);
          out := OK;
        }
      }
    }

    /** If the commit failed but can be repeated, the transaction is kept. */
    method CommitTransaction() returns (out: Outcome)
      modifies this`err, this`tx, this`log, this`clock
      ensures Res(out, St()) == ExecCommit(m, old(St()))
    {
      hide Step, DbFail;
      if tx.stack == [] {
        out := Raise(NoRunningTx);
      } else if foreachs != [] {
        out := Raise(InUse);
      } else if !Running(tx) {
        TxEvent(Event.Pop);
        out := Raise(NoRunningTx);
      } else {
        var r := m.commit(clock);
        clock := clock + 1;
        if r.None? {
          TxEvent(Commit);
          out := OK;
        } else {
          HandleError(r.value);
          if !r.value.retryable {
            TxEvent(Event.Pop);
          }
          out := ERROR;
        }
      }
    }

    method RollbackTransaction() returns (out: Outcome)
      modifies this`err, this`tx, this`log, this`clock
      ensures Res(out, St()) == ExecRollback(m, old(St()))
    {
      if tx.stack == [] {
        out := Raise(NoRunningTx);
        return;
      }
      if foreachs != [] {
        out := Raise(InUse);
        return;
      }
      if Running(tx) {
        var r := m.rollback(clock);
        clock := clock + 1;
        if r.Some? {
          out := Raise(r.value.typ);
          return;
        }
      }
      TxEvent(Event.Pop);
      return OK;
    }

    /**
     * Duro_rollback_all: rolls the transactions back, the innermost first, up to the first that cannot be rolled
     * back, whose error is raised; no transaction is left, and the database is the one outside of all of them.
     */
    method RollbackAll() returns (out: Outcome)
      modifies this`err, this`tx, this`log, this`clock
      ensures tx == Run(old(tx), Pops(|old(tx.stack)|)) && tx == TxState(old(tx.db), [])
      ensures var n, k := |old(tx.stack)|, RolledBack(m, old(tx.stack), old(clock));
        if k == n then out == OK && clock == old(clock) + n
        else out == ERROR && err == Some(Error(RollbackError(m, old(tx.stack)[k], old(clock) + k), false, EndsNone))
    {
      PopsEmpty(tx);
      out := RollbackEach();
      while tx.stack != []
        invariant tx.db == old(tx.db)
        decreases |tx.stack|
        modifies this`tx, this`log
      {
        TxEvent(Event.Pop);
      }
    }

    /** RDB_rollback_all: up to the first transaction that cannot be rolled back. */
    method RollbackEach() returns (out: Outcome)
      modifies this`err, this`clock
      ensures var n, k := |tx.stack|, RolledBack(m, tx.stack, old(clock));
        if k == n then out == OK && clock == old(clock) + n
        else out == ERROR && err == Some(Error(RollbackError(m, tx.stack[k], old(clock) + k), false, EndsNone))
    {
      hide Visible, Step;
      var i := 0;
      while i < |tx.stack|
        invariant i <= |tx.stack| && clock == old(clock) + i
        invariant RolledBack(m, tx.stack, old(clock)) == i + RolledBack(m, tx.stack[i..], clock)
      {
        assert tx.stack[i..][1..] == tx.stack[i + 1..];
        if !tx.stack[i].running {
          out := Raise(NoRunningTx);
          return;
        }
        var r := m.rollback(clock);
        clock := clock + 1;
        if r.Some? {
          out := Raise(r.value.typ);
          return;
        }
        i := i + 1;
      }
      return OK;
    }

    // ----- Control flow -----

    method ExecStmts(ss: seq<Stmt>, ro: bool, fuel: nat) returns (out: Outcome)
      modifies this
      ensures Res(out, St()) == Statements.ExecStmts(m, ss, ro, old(St()), fuel)
      ensures |scopes| == |old(scopes)|
      decreases fuel, 1, ss, 0
    {
      hide Exec;
      var i := 0;
      while i < |ss|
        invariant i <= |ss| && |scopes| == |old(scopes)|
        invariant Statements.ExecStmts(m, ss, ro, old(St()), fuel) == Statements.ExecStmts(m, ss[i..], ro, St(), fuel)
      {
        assert ss[i..][1..] == ss[i + 1..];
        out := ExecStmt(ss[i], ro, fuel);
        if out != OK {
          return;
        }
        i := i + 1;
      }
      out := OK;
    }

    /** A list of statements in a scope of its own. */
    method ExecScoped(ss: seq<Stmt>, ro: bool, fuel: nat) returns (out: Outcome)
      modifies this
      ensures Res(out, St()) == Exited(Statements.ExecStmts(m, ss, ro, Enter(old(St()), map[]), fuel))
      ensures |scopes| == |old(scopes)|
      decreases fuel, 1, ss, 1
    {
      hide Statements.ExecStmts;
      AddVarmap(map[]);
      out := ExecStmts(ss, ro, fuel);
      RemoveVarmap();
    }

    method ExecIf(s: Stmt, ro: bool, fuel: nat) returns (out: Outcome)
      requires s.If?
      modifies this
      ensures Res(out, St()) == Exec(m, s, ro, old(St()), fuel)
      ensures |scopes| == |old(scopes)|
      decreases fuel, 1, s, 1
    {
      hide Statements.ExecStmts, EvalBool;
      var b := EvaluateBool(s.cond);
      if b.None? {
        out := ERROR;
      } else if b.value.b {
        out := ExecScoped(s.body, ro, fuel);
      } else {
        out := ExecScoped(s.els, ro, fuel);
      }
    }

    method ExecCaseStmt(s: Stmt, ro: bool, fuel: nat) returns (out: Outcome)
      requires s.Case?
      modifies this
      ensures Res(out, St()) == ExecCase(m, s, 0, ro, old(St()), fuel)
      ensures |scopes| == |old(scopes)|
      decreases fuel, 1, s, 1
    {
      hide Statements.ExecStmts, EvalBool;
      var i := 0;
      while i < |s.whens|
        invariant i <= |s.whens| && |scopes| == |old(scopes)|
        invariant ExecCase(m, s, 0, ro, old(St()), fuel) == ExecCase(m, s, i, ro, St(), fuel)
      {
        var b := EvaluateBool(s.whens[i].cond);
        if b.None? {
          out := ERROR;
          return;
        }
        if b.value.b {
          out := ExecScoped(s.whens[i].body, ro, fuel);
          return;
        }
        i := i + 1;
      }
      out := ExecScoped(s.els, ro, fuel);
    }

    /** Whether a loop with this label is the target of LEAVE; comparing a label with no target is undefined. */
    method EndOfLoop(lab: Option<Name>, ret: Outcome) returns (out: Outcome)
      ensures LeaveLoop(lab, Res(ret, St())) == Res(out, St())
    {
      out := ret;
      if ret == LEAVE {
        if lab.Some? {
          if leaveTarget.None? {
            out := UNDEFINED(NullTarget);
          } else if lab.value == leaveTarget.value {
            out := OK;
          }
        } else if leaveTarget.None? {
          out := OK;
        }
      }
    }

    method ExecWhileStmt(lab: Option<Name>, cond: Exp, body: seq<Stmt>, ro: bool, fuel: nat) returns (out: Outcome)
      modifies this
      ensures Res(out, St()) == ExecWhile(m, lab, cond, body, ro, old(St()), fuel)
      ensures |scopes| == |old(scopes)|
      decreases fuel, 1, body, 2
    {
      hide Statements.ExecStmts, EvalBool, LeaveLoop;
      var f := fuel;
      while f > 0
        invariant 0 <= f <= fuel && |scopes| == |old(scopes)|
        invariant ExecWhile(m, lab, cond, body, ro, old(St()), fuel) == ExecWhile(m, lab, cond, body, ro, St(), f)
      {
        var b := EvaluateBool(cond);
        if b.None? {
          out := ERROR;
          return;
        }
        if !b.value.b {
          out := OK;
          return;
        }
        AddVarmap(map[]);
        var r := ExecStmts(body, ro, f - 1);
        if r != OK {
          out := EndOfLoop(lab, r);
          RemoveVarmap();
          return;
        }
        RemoveVarmap();
        if m.interrupted(clock) {
          out := Raise(SystemError);
          return;
        }
        f := f - 1;
      }
      out := SPENT;
    }

    method ExecForStmt(s: Stmt, ro: bool, fuel: nat) returns (out: Outcome)
      requires s.For?
      modifies this
      ensures Res(out, St()) == ExecFor(m, s, ro, old(St()), fuel)
      ensures |scopes| == |old(scopes)|
      decreases fuel, 1, s, 1
    {
      hide Statements.Evaluate, ForLoop, Lookup;
      var e := LookupTransientVar(s.name);
      if e.None? {
        out := Raise(NameError);
        return;
      }
      if !ValueAt(store, e.value.loc).Int? {
        out := Raise(TypeMismatch);
        return;
      }
      var v := Evaluate(s.first);
      if v.None? {
        out := ERROR;
        return;
      }
      SetValue(e.value.loc, v.value);
      var last := Evaluate(s.last);
      if last.None? {
        out := ERROR;
        return;
      }
      if !last.value.Int? {
        out := Raise(TypeMismatch);
        return;
      }
      out := ExecForLoop(s.lab, s.name, e.value.loc, last.value.i, s.body, ro, fuel);
    }

    /** The loop of exec_for; the variable is looked up again after each iteration. */
    method ExecForLoop(lab: Option<Name>, name: Name, first: nat, last: int, body: seq<Stmt>, ro: bool, fuel: nat)
        returns (out: Outcome)
      modifies this
      ensures Res(out, St()) == ForLoop(m, lab, name, first, last, body, ro, old(St()), fuel)
      ensures |scopes| == |old(scopes)|
      decreases fuel, 1, body, 2
    {
      hide Statements.ExecStmts, LeaveLoop, Lookup;
      var f, loc := fuel, first;
      while f > 0
        invariant 0 <= f <= fuel && |scopes| == |old(scopes)|
        invariant ForLoop(m, lab, name, first, last, body, ro, old(St()), fuel) ==
          ForLoop(m, lab, name, loc, last, body, ro, St(), f)
      {
        var v := ValueAt(store, loc);
        if !v.Int? {
          out := UNDEFINED(WrongType);
          return;
        }
        if v.i > last {
          out := OK;
          return;
        }
        AddVarmap(map[]);
        var r := ExecStmts(body, ro, f - 1);
        if r != OK {
          out := EndOfLoop(lab, r);
          RemoveVarmap();
          return;
        }
        RemoveVarmap();
        var e := LookupTransientVar(name);
        if e.None? {
          out := Raise(NameError);
          return;
        }
        if m.interrupted(clock) {
          out := Raise(SystemError);
          return;
        }
        loc := e.value.loc;
        match ValueAt(store, loc) {
          case Int(i) =>
            if i == MAX_INT {
              out := UNDEFINED(Overflow);
              return;
            }
            SetValue(loc, Int(i + 1));
          case _ =>
            out := UNDEFINED(WrongType);
            return;
        }
        f := f - 1;
      }
      out := SPENT;
    }

    // ----- FOREACH -----

    method ExecForeachStmt(s: Stmt, ro: bool, fuel: nat) returns (out: Outcome)
      requires s.Foreach?
      modifies this
      ensures Res(out, St()) == ExecForeach(m, s, ro, old(St()), fuel)
      ensures |scopes| == |old(scopes)|
      decreases fuel, 1, s, 1
    {
      hide ForeachLoop, Lookup, Visible;
      var e := LookupTransientVar(s.name);
      if e.None? {
        out := Raise(NameError);
        return;
      }
      var view := if Running(tx) then Some(tx.stack[0].view) else None;
      var r := m.rows(s.table, Visible(scopes, root, store), view, clock);
      clock := clock + 1;
      match r {
        case Err(er) =>
          HandleError(er);
          out := ERROR;
        case Ok(rows) =>
          foreachs := [rows] + foreachs;
          out := ExecForeachLoop(s.lab, s.name, e.value.loc, s.body, ro, fuel);
          if foreachs != [] {
            foreachs := foreachs[1..];
          }
      }
    }

    /** The loop of exec_foreach: what ends the fetching of tuples is not looked at. */
    method ExecForeachLoop(lab: Option<Name>, name: Name, first: nat, body: seq<Stmt>, ro: bool, fuel: nat)
      returns (out: Outcome)
      modifies this
      ensures Res(out, St()) == ForeachLoop(m, lab, name, first, body, ro, old(St()), fuel)
      ensures |scopes| == |old(scopes)|
      decreases fuel, 1, body, 2
    {
      hide Statements.ExecStmts, Lookup, DbFail;
      var f, loc := fuel, first;
      while f > 0
        invariant 0 <= f <= fuel && |scopes| == |old(scopes)|
        invariant ForeachLoop(m, lab, name, first, body, ro, old(St()), fuel) ==
          ForeachLoop(m, lab, name, loc, body, ro, St(), f)
      {
        var fail := m.fetch(clock);
        if fail.Some? {
          clock := clock + 1;
          HandleError(fail.value);
          err := None;
          out := OK;
          return;
        }
        if foreachs == [] || foreachs[0] == [] {
          clock := clock + 1;
          err := None;
          out := OK;
          return;
        }
        FetchRow(loc);
        var r := ExecScoped(body, ro, f - 1);
        match r {
          case LEAVE =>
            if lab.Some? && leaveTarget.None? {
              out := UNDEFINED(NullTarget);
            } else {
              err := None;
              out := OK;
            }
            return;
          case RETURN =>
            out := ERROR;
            return;
          case OK =>
            var e := LookupTransientVar(name);
            if e.None? {
              out := Raise(NameError);
              return;
            }
            if m.interrupted(clock) {
              out := Raise(SystemError);
              return;
            }
            loc := e.value.loc;
          case _ =>
            out := r;
            return;
        }
        f := f - 1;
      }
      out := SPENT;
    }

    method FetchRow(loc: nat)
      requires foreachs != [] && foreachs[0] != []
      modifies this`clock, this`store, this`foreachs
      ensures St() == NextRow(old(St()), loc)
    {
      clock := clock + 1;
      SetValue(loc, foreachs[0][0]);
      foreachs := [foreachs[0][1..]] + foreachs[1..];
    }

    // ----- TRY -----

    method ExecTry(s: Stmt, ro: bool, fuel: nat) returns (out: Outcome)
      requires s.Try?
      modifies this
      ensures Res(out, St()) == Exec(m, s, ro, old(St()), fuel)
      ensures |scopes| == |old(scopes)|
      decreases fuel, 1, s, 1
    {
      hide Statements.ExecStmts, Statements.ExecCatch;
      out := ExecScoped(s.body, ro, fuel);
      if out == ERROR {
        if err.None? {
          out := UNDEFINED(NullError);
          return;
        }
        var i := 0;
        ghost var st := St();
        while i < |s.catches|
          invariant i <= |s.catches| && St() == st
          invariant Exec(m, s, ro, old(St()), fuel) == ExecCatches(m, s.catches[i..], ro, st, fuel)
        {
          assert s.catches[i..][1..] == s.catches[i + 1..];
          if s.catches[i].typ.None? || s.catches[i].typ.value == err.value.typ {
            out := ExecCatchClause(s.catches[i], ro, fuel);
            return;
          }
          i := i + 1;
        }
      }
    }

    method ExecCatchClause(c: Catch, ro: bool, fuel: nat) returns (out: Outcome)
      requires err.Some?
      modifies this
      ensures Res(out, St()) == Statements.ExecCatch(m, c, ro, old(St()), fuel)
      ensures |scopes| == |old(scopes)|
      decreases fuel, 1, c, 1
    {
      hide Statements.ExecStmts;
      AddVarmap(map[c.name := Entry(|store|, false)]);
      store := store + [ErrorVal(err.value.typ)];
      retryable := err.value.retryable;
      err := None;
      out := ExecStmts(c.body, ro, fuel);
      RemoveVarmap();
    }

    // ----- Variables -----

    method ExecVarDefStmt(name: Name, init: Exp, fixed: bool) returns (out: Outcome)
      modifies this
      ensures Res(out, St()) == ExecVarDef(m, name, init, fixed, old(St()))
      ensures |scopes| == |old(scopes)|
    {
      hide Statements.Evaluate;
      if name in (if scopes == [] then root else scopes[0]) {
        out := Raise(ElementExists);
        return;
      }
      var v := Evaluate(init);
      if v.None? {
        out := ERROR;
        return;
      }
      var e := Entry(|store|, fixed);
      store := store + [v.value];
      if scopes == [] {
        root := root[name := e];
      } else {
        scopes := [scopes[0][name := e]] + scopes[1..];
      }
      out := OK;
    }

    method ExecVarDropStmt(name: Name) returns (out: Outcome)
      modifies this
      ensures Res(out, St()) == ExecVarDrop(m, name, old(St()))
      ensures |scopes| == |old(scopes)|
    {
      hide DbFail, Step;
      if foreachs != [] {
        out := Raise(NotSupported);
      } else if scopes != [] && name in scopes[0] && !scopes[0][name].fixed {
        scopes := [scopes[0] - {name}] + scopes[1..];
        out := OK;
      } else if (scopes == [] || name !in scopes[0]) && name in root && !root[name].fixed {
        root := root - {name};
        out := OK;
      } else if tx.stack == [] {
        out := Raise(NameError);
      } else if !Running(tx) {
        out := Raise(NoRunningTx);
      } else {
        var r := m.drop(name, tx.stack[0].view, clock);
        clock := clock + 1;
        out := FinishUpdate(r);
      }
    }

    /** The database after an update, or the error. */
    method FinishUpdate(r: Result<Db, Error>) returns (out: Outcome)
      modifies this`err, this`tx, this`log
      ensures Res(out, St()) ==
        match r
        case Ok(d) => Res(OK, Do(old(St()), Write(d)))
        case Err(e) => Res(ERROR, DbFail(old(St()), e))
    {
      match r {
        case Ok(d) =>
          TxEvent(Write(d));
          out := OK;
        case Err(e) =>
          HandleError(e);
          out := ERROR;
      }
    }

    method ExecUpdateStmt(u: Exp) returns (out: Outcome)
      modifies this
      ensures Res(out, St()) == ExecUpdate(m, u, old(St()))
      ensures |scopes| == |old(scopes)|
    {
      hide DbFail, Step, Visible;
      if !Running(tx) {
        out := Raise(NoRunningTx);
      } else {
        var r := m.update(u, Visible(scopes, root, store), tx.stack[0].view, clock);
        clock := clock + 1;
        out := FinishUpdate(r);
      }
    }

    method StoreValue(name: Name, v: Value) returns (out: Outcome)
      modifies this`err, this`store
      ensures Res(out, St()) == Store(old(St()), name, v)
    {
      var e := LookupTransientVar(name);
      if e.None? || e.value.fixed {
        out := Raise(NameError);
      } else if !SameType(ValueAt(store, e.value.loc), v) {
        out := Raise(TypeMismatch);
      } else {
        SetValue(e.value.loc, v);
        out := OK;
      }
    }

    method ExecAssignStmt(name: Name, exp: Exp) returns (out: Outcome)
      modifies this
      ensures Res(out, St()) == ExecAssign(m, name, exp, old(St()))
      ensures |scopes| == |old(scopes)|
    {
      hide Statements.Evaluate, Store;
      var v := Evaluate(exp);
      if v.None? {
        out := ERROR;
      } else {
        out := StoreValue(name, v.value);
      }
    }

    method ExecReturnStmt(exp: Option<Exp>, ro: bool) returns (out: Outcome)
      modifies this
      ensures Res(out, St()) == ExecReturn(m, exp, ro, old(St()))
      ensures |scopes| == |old(scopes)|
    {
      hide Statements.Evaluate;
      if exp.None? {
        if ro {
          out := Raise(InvalidArgument);
        } else {
          out := RETURN;
        }
      } else if !ro {
        out := Raise(SyntaxError);
      } else {
        var v := Evaluate(exp.value);
        if v.None? {
          out := ERROR;
        } else {
          ret := v.value;
          out := RETURN;
        }
      }
    }

    // ----- Operators -----

    method EvaluateArgs(args: seq<Arg>) returns (refs: Option<seq<Ref>>)
      modifies this`err, this`tx, this`log, this`clock, this`store
      ensures Args(refs, St()) == EvalArgs(m, args, [], old(St()))
    {
      hide Statements.Evaluate, Lookup;
      var done: seq<Ref> := [];
      var i := 0;
      while i < |args|
        invariant i <= |args| && EvalArgs(m, args, [], old(St())) == EvalArgs(m, args[i..], done, St())
      {
        assert args[i..][1..] == args[i + 1..];
        match args[i] {
          case VarArg(n) =>
            var e := LookupTransientVar(n);
            if e.None? {
              var _ := Raise(NameError);
              refs := None;
              return;
            }
            done := done + [Ref(e.value.loc, true, e.value.fixed)];
          case ExpArg(exp) =>
            var v := Evaluate(exp);
            if v.None? {
              refs := None;
              return;
            }
            done := done + [Ref(|store|, false, false)];
            store := store + [v.value];
        }
        i := i + 1;
      }
      refs := Some(done);
    }

    /** The scope chain is replaced by the scope of the operator while its body is executed. */
    method ExecBody(name: Name, op: Operator, refs: seq<Ref>, fuel: nat) returns (out: Outcome)
      requires |refs| == |op.params| && fuel > 0
      modifies this
      ensures Res(out, St()) == RunBody(m, name, op, refs, old(St()), fuel)
      ensures scopes == old(scopes) && innerOp == old(innerOp)
      decreases fuel - 1, 2
    {
      hide Statements.ExecStmts;
      var vars: Scope := map[];
      var i := 0;
      while i < |refs|
        invariant i <= |refs| && vars == ParamScope(op.params[..i], refs[..i]) && St() == old(St())
      {
        assert op.params[..i + 1][..i] == op.params[..i] && refs[..i + 1][..i] == refs[..i];
        vars := vars[op.params[i].name := Entry(refs[i].loc, !op.params[i].update)];
        i := i + 1;
      }
      assert op.params[..i] == op.params && refs[..i] == refs;
      hide ParamScope;
      var callerScopes, callerOp := scopes, innerOp;
      scopes := [vars];
      innerOp := Some(name);
      out := ExecStmts(op.body, op.readOnly, fuel - 1);
      scopes := callerScopes;
      innerOp := callerOp;
    }

    method ExecUpdateOp(name: Name, op: Operator, refs: seq<Ref>, fuel: nat) returns (out: Outcome)
      requires |refs| == |op.params|
      modifies this
      ensures Res(out, St()) == InvokeUpdateOp(m, name, op, refs, old(St()), fuel)
      ensures |scopes| == |old(scopes)|
      decreases fuel, 0, 0
    {
      hide RunBody;
      if fuel == 0 {
        out := SPENT;
        return;
      }
      if m.interrupted(clock) {
        out := Raise(SystemError);
        return;
      }
      out := ExecBody(name, op, refs, fuel);
      if out == LEAVE {
        out := Raise(SyntaxError);
      }
      if out == RETURN {
        out := OK;
      }
    }

    method ExecRoOp(name: Name, op: Operator, refs: seq<Ref>, fuel: nat) returns (out: Outcome)
      requires |refs| == |op.params|
      modifies this
      ensures Res(out, St()) == InvokeRoOp(m, name, op, refs, old(St()), fuel)
      ensures |scopes| == |old(scopes)|
      decreases fuel, 0, 0
    {
      hide RunBody;
      if fuel == 0 {
        out := SPENT;
        return;
      }
      if m.interrupted(clock) {
        out := Raise(SystemError);
        return;
      }
      out := ExecBody(name, op, refs, fuel);
      match out {
        case OK => out := Raise(SyntaxError);
        case LEAVE => out := Raise(SyntaxError);
        case RETURN => out := OK;
        case _ =>
      }
    }

    method ExecCallStmt(name: Name, args: seq<Arg>, fuel: nat) returns (out: Outcome)
      modifies this
      ensures Res(out, St()) == ExecCall(m, name, args, old(St()), fuel)
      ensures |scopes| == |old(scopes)|
      decreases fuel, 0, 1
    {
      hide EvalArgs, InvokeUpdateOp;
      var refs := EvaluateArgs(args);
      if refs.None? {
        out := ERROR;
        return;
      }
      var n := FindOp(m, name, innerOp, |refs.value|);
      if n.None? {
        out := Raise(OperatorNotFound);
        return;
      }
      var op := m.ops[n.value];
      var i := 0;
      while i < |op.params|
        invariant i <= |op.params| && UpdateArgsOk(op.params[..i], refs.value[..i])
        invariant Args(refs, St()) == EvalArgs(m, args, [], old(St())) && |scopes| == |old(scopes)|
      {
        if BadUpdateArg(op.params[i], refs.value[i]) {
          out := Raise(InvalidArgument);
          return;
        }
        i := i + 1;
      }
      assert op.params[..i] == op.params && refs.value[..i] == refs.value;
      out := ExecUpdateOp(n.value, op, refs.value, fuel);
    }

    method ExecAssignOpStmt(name: Name, op: Name, exps: seq<Exp>, fuel: nat) returns (out: Outcome)
      modifies this
      ensures Res(out, St()) == ExecAssignOp(m, name, op, exps, old(St()), fuel)
      ensures |scopes| == |old(scopes)|
      decreases fuel, 0, 1
    {
      hide EvalArgs, InvokeRoOp, Store;
      var refs := EvaluateArgs(seq(|exps|, i requires 0 <= i < |exps| => ExpArg(exps[i])));
      if refs.None? {
        out := ERROR;
        return;
      }
      if !HasOp(m, op, true, |refs.value|) {
        out := Raise(OperatorNotFound);
        return;
      }
      out := ExecRoOp(op, m.ops[op], refs.value, fuel);
      if out == OK {
        out := StoreValue(name, ret);
      }
    }

    // ----- All statements -----

    method ExecStmt(s: Stmt, ro: bool, fuel: nat) returns (out: Outcome)
      modifies this
      ensures Res(out, St()) == Exec(m, s, ro, old(St()), fuel)
      ensures |scopes| == |old(scopes)|
      decreases fuel, 1, s, 2
    {
      hide EvalBool, Step, Lookup, Visible, Statements.ExecStmts, ExecCase, ExecWhile, ExecFor, ExecForeach,
        ExecCatches;
      hide ExecCall, ExecAssignOp;
      match s {
        case Block(body) => out := ExecStmts(body, ro, fuel);
        case If(_, _, _) => out := ExecIf(s, ro, fuel);
        case Case(_, _) => out := ExecCaseStmt(s, ro, fuel);
        case While(lab, cond, body) => out := ExecWhileStmt(lab, cond, body, ro, fuel);
        case For(_, _, _, _, _) => out := ExecForStmt(s, ro, fuel);
        case Foreach(_, _, _, _) => out := ExecForeachStmt(s, ro, fuel);
        case Try(_, _) => out := ExecTry(s, ro, fuel);
        case AssignOp(name, op, exps) => out := ExecAssignOpStmt(name, op, exps, fuel);
        case Call(op, args) => out := ExecCallStmt(op, args, fuel);
        case _ => out := ExecSimple(s, ro, fuel);
      }
    }

    /** The statements that execute no other statements. */
    method ExecSimple(s: Stmt, ro: bool, ghost fuel: nat) returns (out: Outcome)
      requires !s.Block? && !s.If? && !s.Case? && !s.While? && !s.For? && !s.Foreach? && !s.Try? && !s.AssignOp? &&
        !s.Call?
      modifies this
      ensures Res(out, St()) == Exec(m, s, ro, old(St()), fuel)
      ensures |scopes| == |old(scopes)|
    {
      hide Step, Lookup, Visible, ExecVarDef, ExecVarDrop, ExecAssign, ExecUpdate, ExecReturn, ExecBegin, ExecCommit,
        ExecRollback;
      match s {
        case Skip => out := OK;
        case Leave(target) =>
          leaveTarget := target;
          out := LEAVE;
        case Return(exp) => out := ExecReturnStmt(exp, ro);
        case Raise(typ) => out := Raise(typ);
        case VarDef(name, init, fixed) => out := ExecVarDefStmt(name, init, fixed);
        case VarDrop(name) => out := ExecVarDropStmt(name);
        case Assign(name, exp) => out := ExecAssignStmt(name, exp);
        case Update(u) => out := ExecUpdateStmt(u);
        case BeginTx => out := BeginTransaction();
        case CommitTx => out := CommitTransaction();
        case RollbackTx => out := RollbackTransaction();
      }
    }

    method MakeAttempt(s: Stmt, implicit: bool, fuel: nat) returns (out: Outcome)
      modifies this
      ensures Res(out, St()) == Attempt(m, s, implicit, old(St()), fuel)
    {
      hide Exec, ExecCommit;
      out := ExecStmt(s, false, fuel);
      if out == OK && implicit {
        out := CommitTransaction();
      }
    }

    /** The loop of Duro_exec_stmt_impl_tx. */
    method RepeatAttempts(s: Stmt, implicit: bool, fuel: nat) returns (out: Outcome)
      modifies this
      ensures Res(out, St()) == Attempts(m, s, implicit, old(St()), fuel)
    {
      hide Attempt, ExecRollback;
      var f := fuel;
      while f > 0
        invariant 0 <= f <= fuel && Attempts(m, s, implicit, old(St()), fuel) == Attempts(m, s, implicit, St(), f)
      {
        out := MakeAttempt(s, implicit, f - 1);
        if out == OK || out.UNDEFINED? || out == SPENT {
          return;
        }
        if !implicit {
          out := if err.None? then UNDEFINED(NullError) else ERROR;
          return;
        }
        if err.None? || !err.value.retryable {
          if Running(tx) {
            var _ := RollbackTransaction();
          }
          out := ERROR;
          return;
        }
        err := None;
        f := f - 1;
      }
      out := SPENT;
    }

    /** Duro_exec_stmt_impl_tx. */
    method ExecStmtImplTx(s: Stmt, implicitTx: bool, fuel: nat) returns (out: Outcome)
      modifies this
      ensures Res(out, St()) == ExecImplTx(m, s, implicitTx, old(St()), fuel)
    {
      hide Attempts, ExecBegin;
      var implicit := implicitTx && !IsTxStmt(s) && tx.stack == [] && m.hasDb;
      if implicit {
        out := BeginTransaction();
        if out != OK {
          return;
        }
      }
      out := RepeatAttempts(s, implicit, fuel);
    }

    /** Duro_process_stmt, once the statement has been parsed. */
    method ProcessStatement(s: Stmt, implicitTx: bool, fuel: nat) returns (out: Outcome)
      modifies this
      ensures Res(out, St()) == ProcessStmt(m, s, implicitTx, old(St()), fuel)
      ensures old(TopLevel(St())) ==> TopLevel(St())
    {
      if TopLevel(St()) {
        SessionKeepsTopLevel(m, [s], implicitTx, St(), fuel);
        assert Session(m, [s], implicitTx, St(), fuel) == ProcessStmt(m, s, implicitTx, St(), fuel).st;
      }
      hide Attempts, ExecBegin;
      err := None;
      out := ExecStmtImplTx(s, implicitTx, fuel);
      if out == ERROR && err.None? {
        out := Raise(InternalError);
      }
    }
  }
}
