/**
 * What every statement keeps, whatever its outcome: the chain of scopes, the chain of FOREACH loops, the current
 * operator, and that transactions change only by the events that are logged.
 */
module Discipline {
  import opened ByteStrings
  import opened Options
  import opened TxStack
  import opened Statements

  // ----- Statements without BEGIN TRANSACTION, COMMIT and ROLLBACK -----

  predicate TxFree(s: Stmt)
    decreases s, 1
  {
    match s
    case Block(body) => AllTxFree(body)
    case If(_, body, els) => AllTxFree(body) && AllTxFree(els)
    case Case(whens, els) => AllTxFree(els) && forall i :: 0 <= i < |whens| ==> AllTxFree(whens[i].body)
    case While(_, _, body) => AllTxFree(body)
    case For(_, _, _, _, body) => AllTxFree(body)
    case Foreach(_, _, _, body) => AllTxFree(body)
    case Try(body, catches) => AllTxFree(body) && forall i :: 0 <= i < |catches| ==> AllTxFree(catches[i].body)
    case BeginTx => false
    case CommitTx => false
    case RollbackTx => false
    case _ => true
  }

  predicate AllTxFree(ss: seq<Stmt>)
    decreases ss, 0
  {
    ss == [] || (TxFree(ss[0]) && AllTxFree(ss[1..]))
  }

  predicate OpsTxFree(m: Machine) {
    forall n :: n in m.ops ==> AllTxFree(m.ops[n].body)
  }

  // ----- The relation between the states before and after -----

  predicate IsControl(e: Event) {
    e.Begin? || e.Commit? || e.Pop?
  }

  ghost predicate Logged(free: bool, st: State, st': State) {
    |st.log| <= |st'.log| && st'.log[..|st.log|] == st.log && st'.tx == Run(st.tx, st'.log[|st.log|..]) &&
    (free ==> forall i :: |st.log| <= i < |st'.log| ==> !IsControl(st'.log[i]))
  }

  /** No transaction is ended. */
  ghost predicate NoEnd(st: State, st': State) {
    |st.log| <= |st'.log| && forall i :: |st.log| <= i < |st'.log| ==> st'.log[i] != Commit && st'.log[i] != Event.Pop
  }

  /** Only the innermost scope gains or loses names. */
  ghost predicate SameChain(st: State, st': State) {
    |st'.scopes| == |st.scopes| && (st.scopes != [] ==> st'.scopes[1..] == st.scopes[1..])
  }

  ghost predicate Kept(free: bool, st: State, st': State) {
    SameChain(st, st') && st'.foreachs == st.foreachs && st'.innerOp == st.innerOp && Logged(free, st, st') &&
    (st.foreachs != [] ==> NoEnd(st, st'))
  }

  /** After a retryable error the transaction is where it started. */
  ghost predicate Fair(r: Res) {
    r.out == ERROR && r.st.err.Some? && r.st.err.value.retryable ==>
      r.st.tx.stack != [] && Current(r.st.tx) == Below(r.st.tx)
  }

  ghost predicate Sound(free: bool, st: State, r: Res) {
    Kept(free, st, r.st) && Fair(r) && (r.out in {OK, RETURN, LEAVE} ==> r.st.err == None)
  }

  ghost predicate SoundEval(free: bool, st: State, v: Eval) {
    Sound(free, st, Res(if v.val.Some? then OK else ERROR, v.st))
  }

  lemma LoggedTransitive(free: bool, a: State, b: State, c: State)
    requires Logged(free, a, b) && Logged(free, b, c)
    ensures Logged(free, a, c)
  {
    hide Run;
    var x, y := b.log[|a.log|..], c.log[|b.log|..];
    assert c.log[|a.log|..] == x + y && c.log[..|a.log|] == a.log;
    RunAppended(a.tx, x, y);
    forall i | |a.log| <= i < |b.log| ensures c.log[i] == b.log[i] {
      assert c.log[..|b.log|][i] == c.log[i];
    }
  }

  lemma NoEndTransitive(a: State, b: State, c: State)
    requires NoEnd(a, b) && NoEnd(b, c) && c.log[..|b.log|] == b.log
    ensures NoEnd(a, c)
  {
    forall i | |a.log| <= i < |b.log| ensures c.log[i] == b.log[i] {
      assert c.log[..|b.log|][i] == c.log[i];
    }
  }

  lemma KeptTransitive(free: bool, a: State, b: State, c: State)
    requires Kept(free, a, b) && Kept(free, b, c)
    ensures Kept(free, a, c)
  {
    LoggedTransitive(free, a, b, c);
    assert c.log[..|b.log|] == b.log;
    hide Logged;
    if a.foreachs != [] {
      NoEndTransitive(a, b, c);
    }
  }

  /** A step that is not a control event, and whatever else that does not touch chains, operator and log. */
  lemma DoKeeps(free: bool, st: State, e: Event)
    requires (free ==> !IsControl(e)) && (st.foreachs != [] ==> e != Commit && e != Event.Pop)
    ensures Kept(free, st, Do(st, e))
  {
    assert Do(st, e).log[|st.log|..] == [e];
    assert Run(st.tx, [e]) == Step(st.tx, e);
  }

  lemma SameTxKeeps(free: bool, st: State, st': State)
    requires SameChain(st, st') && st'.foreachs == st.foreachs && st'.innerOp == st.innerOp
    requires st'.tx == st.tx && st'.log == st.log
    ensures Kept(free, st, st')
  {
    assert st'.log[|st.log|..] == [];
  }

  lemma ExitKeeps(free: bool, st: State, s: Scope, r: Res)
    requires Sound(free, Enter(st, s), r)
    ensures Sound(free, st, Exited(r))
  {}

  lemma Then(free: bool, a: State, b: State, r: Res)
    requires Kept(free, a, b) && Sound(free, b, r)
    ensures Sound(free, a, r)
  {
    hide Kept;
    KeptTransitive(free, a, b, r.st);
  }

  // ----- Expressions and simple statements -----

  lemma DbFailKeeps(free: bool, st: State, e: Error)
    ensures Kept(free, st, DbFail(st, e)) && Fair(Res(ERROR, DbFail(st, e)))
  {
    if Running(st.tx) && (e.ends != EndsNone || e.retryable) {
      var ev := if e.ends.EndsAll? then AbortAll else if e.ends.EndsOwn? then Abort else Reset;
      DoKeeps(free, st, ev);
      BackAtStart(st.tx, ev);
      hide Step, Run;
      ErrKept(free, st, Do(st, ev), DbFail(st, e).err);
    } else {
      SameTxKeeps(free, st, st);
      hide Step, Run;
      ErrKept(free, st, st, DbFail(st, e).err);
    }
  }

  lemma BackAtStart(t: TxState, e: Event)
    requires t.stack != [] && (e == AbortAll || e == Abort || e == Reset)
    ensures Step(t, e).stack != [] && Current(Step(t, e)) == Below(Step(t, e))
  {}

  lemma ErrKept(free: bool, st: State, st': State, err: Option<Error>)
    requires Kept(free, st, st')
    ensures Kept(free, st, st'.(err := err))
  {}

  lemma FailSound(free: bool, st: State, typ: ErrorType)
    ensures Sound(free, st, Fail(st, typ))
  {
    SameTxKeeps(free, st, Fail(st, typ).st);
  }

  lemma TickedFail(free: bool, st: State, e: Error)
    ensures Sound(free, st, Res(ERROR, DbFail(Tick(st), e)))
  {
    DbFailKeeps(free, Tick(st), e);
    SameTxKeeps(free, st, Tick(st));
    KeptTransitive(free, st, Tick(st), DbFail(Tick(st), e));
  }

  lemma TickedDo(free: bool, st: State, e: Event)
    requires (free ==> !IsControl(e)) && (st.foreachs != [] ==> e != Commit && e != Event.Pop) && st.err == None
    ensures Sound(free, st, Res(OK, Do(Tick(st), e)))
  {
    DoKeeps(free, Tick(st), e);
    SameTxKeeps(free, st, Tick(st));
    KeptTransitive(free, st, Tick(st), Do(Tick(st), e));
  }

  lemma EvaluateSound(free: bool, m: Machine, e: Exp, st: State)
    requires st.err == None
    ensures SoundEval(free, st, Evaluate(m, e, st))
  {
    match m.eval(e, Env(st), View(st), st.clock)
    case Ok(_) => SameTxKeeps(free, st, Tick(st));
    case Err(er) => TickedFail(free, st, er);
  }

  lemma EvalBoolSound(free: bool, m: Machine, e: Exp, st: State)
    requires st.err == None
    ensures SoundEval(free, st, EvalBool(m, e, st))
  {
    hide Kept, Fair;
    EvaluateSound(free, m, e, st);
    var v := Evaluate(m, e, st);
    FailSound(free, v.st, TypeMismatch);
    if v.val.Some? {
      Then(free, st, v.st, Fail(v.st, TypeMismatch));
    }
  }

  lemma EvalIntSound(free: bool, m: Machine, e: Exp, st: State)
    requires st.err == None
    ensures SoundEval(free, st, EvalInt(m, e, st))
  {
    hide Kept, Fair;
    EvaluateSound(free, m, e, st);
    var v := Evaluate(m, e, st);
    FailSound(free, v.st, TypeMismatch);
    if v.val.Some? {
      Then(free, st, v.st, Fail(v.st, TypeMismatch));
    }
  }

  lemma PopTxSound(st: State, typ: ErrorType)
    requires st.foreachs == []
    ensures Sound(false, st, Fail(Do(st, Event.Pop), typ))
    ensures st.err == None ==> Sound(false, st, Res(OK, Do(st, Event.Pop)))
  {
    DoKeeps(false, st, Event.Pop);
  }

  lemma TxSound(m: Machine, st: State)
    requires st.err == None
    ensures Sound(false, st, ExecBegin(m, st)) && Sound(false, st, ExecCommit(m, st)) &&
      Sound(false, st, ExecRollback(m, st))
  {
    hide Kept, Fair, Sound, DbFail, CommitFailed;
    forall typ ensures Sound(false, st, Fail(st, typ)) && Sound(false, st, Fail(Tick(st), typ)) {
      FailSound(false, st, typ);
      FailSound(false, Tick(st), typ);
      SameTxKeeps(false, st, Tick(st));
      Then(false, st, Tick(st), Fail(Tick(st), typ));
    }
    TickedDo(false, st, Begin);
    if st.foreachs == [] {
      forall typ ensures Sound(false, st, Fail(Do(st, Event.Pop), typ)) &&
        Sound(false, st, Res(OK, Do(st, Event.Pop))) {
        PopTxSound(st, typ);
      }
      TickedDo(false, st, Commit);
      TickedDo(false, st, Event.Pop);
      forall e ensures Sound(false, st, CommitFailed(DbFail(Tick(st), e), e)) {
        CommitFailedSound(st, e);
      }
    }
  }

  lemma CommitFailedSound(st: State, e: Error)
    requires st.foreachs == []
    ensures Sound(false, st, CommitFailed(DbFail(Tick(st), e), e))
  {
    TickedFail(false, st, e);
    var st1 := DbFail(Tick(st), e);
    assert st1.err.Some? && (st1.err.value.retryable ==> e.retryable);
    hide Kept, DbFail, Fair;
    assert Sound(false, st, Res(ERROR, st1));
    if !e.retryable {
      DoKeeps(false, st1, Event.Pop);
      KeptTransitive(false, st, st1, Do(st1, Event.Pop));
      hide Sound;
      NotRetryable(st1);
    }
  }

  lemma NotRetryable(st: State)
    requires st.err.Some? && !st.err.value.retryable
    ensures Fair(Res(ERROR, Do(st, Event.Pop)))
  {}

  lemma VarDefSound(free: bool, m: Machine, name: Name, init: Exp, fixed: bool, st: State)
    requires st.err == None
    ensures Sound(free, st, ExecVarDef(m, name, init, fixed, st))
  {
    hide Kept, Fair, Evaluate;
    FailSound(free, st, ElementExists);
    EvaluateSound(free, m, init, st);
    var v := Evaluate(m, init, st);
    if v.val.Some? {
      DefineSound(free, v.st, name, v.val.value, fixed);
      Then(free, st, v.st, Res(OK, Define(Alloc(v.st, v.val.value), name, Entry(|v.st.store|, fixed))));
    }
  }

  lemma DefineSound(free: bool, st: State, name: Name, v: Value, fixed: bool)
    requires st.err == None
    ensures Sound(free, st, Res(OK, Define(Alloc(st, v), name, Entry(|st.store|, fixed))))
  {
    SameTxKeeps(free, st, Define(Alloc(st, v), name, Entry(|st.store|, fixed)));
  }

  lemma VarDropSound(free: bool, m: Machine, name: Name, st: State)
    requires st.err == None
    ensures Sound(free, st, ExecVarDrop(m, name, st))
  {
    hide Logged;
    forall typ ensures Sound(free, st, Fail(st, typ)) {
      FailSound(free, st, typ);
    }
    if st.scopes != [] {
      SameTxKeeps(free, st, st.(scopes := [st.scopes[0] - {name}] + st.scopes[1..]));
    }
    SameTxKeeps(free, st, st.(root := st.root - {name}));
    forall d ensures Sound(free, st, Res(OK, Do(Tick(st), Write(d)))) {
      TickedDo(free, st, Write(d));
    }
    forall e ensures Sound(free, st, Res(ERROR, DbFail(Tick(st), e))) {
      TickedFail(free, st, e);
    }
  }

  lemma StoreSound(free: bool, st: State, name: Name, v: Value)
    requires st.err == None
    ensures Sound(free, st, Store(st, name, v))
  {
    FailSound(free, st, NameError);
    FailSound(free, st, TypeMismatch);
    forall loc ensures Kept(free, st, Set(st, loc, v)) {
      SameTxKeeps(free, st, Set(st, loc, v));
    }
  }

  lemma AssignSound(free: bool, m: Machine, name: Name, exp: Exp, st: State)
    requires st.err == None
    ensures Sound(free, st, ExecAssign(m, name, exp, st))
  {
    hide Kept, Fair, Evaluate, Store;
    EvaluateSound(free, m, exp, st);
    var v := Evaluate(m, exp, st);
    if v.val.Some? {
      StoreSound(free, v.st, name, v.val.value);
      Then(free, st, v.st, Store(v.st, name, v.val.value));
    }
  }

  lemma UpdateSound(free: bool, m: Machine, u: Exp, st: State)
    requires st.err == None
    ensures Sound(free, st, ExecUpdate(m, u, st))
  {
    hide Kept, Fair;
    FailSound(free, st, NoRunningTx);
    if View(st).Some? {
      match m.update(u, Env(st), View(st).value, st.clock)
      case Ok(d) => TickedDo(free, st, Write(d));
      case Err(e) => TickedFail(free, st, e);
    }
  }

  lemma ReturnSound(free: bool, m: Machine, exp: Option<Exp>, ro: bool, st: State)
    requires st.err == None
    ensures Sound(free, st, ExecReturn(m, exp, ro, st))
  {
    FailSound(free, st, InvalidArgument);
    FailSound(free, st, SyntaxError);
    SameTxKeeps(free, st, st);
    if exp.Some? {
      EvaluateSound(free, m, exp.value, st);
      var v := Evaluate(m, exp.value, st);
      if v.val.Some? {
        SameTxKeeps(free, v.st, v.st.(ret := v.val.value));
        KeptTransitive(free, st, v.st, v.st.(ret := v.val.value));
      }
    }
  }

  ghost predicate SoundArgs(free: bool, st: State, a: Args) {
    Sound(free, st, Res(if a.refs.Some? then OK else ERROR, a.st))
  }

  lemma ArgSound(free: bool, m: Machine, a: Arg, st: State)
    requires st.err == None
    ensures SoundArgs(free, st, EvalArg(m, a, st))
  {
    hide Logged;
    FailSound(free, st, NameError);
    SameTxKeeps(free, st, st);
    if a.ExpArg? {
      EvaluateSound(free, m, a.exp, st);
      var v := Evaluate(m, a.exp, st);
      if v.val.Some? {
        SameTxKeeps(free, v.st, Alloc(v.st, v.val.value));
        KeptTransitive(free, st, v.st, Alloc(v.st, v.val.value));
      }
    }
  }

  lemma {:induction false} ArgsSound(free: bool, m: Machine, args: seq<Arg>, done: seq<Ref>, st: State)
    requires st.err == None
    ensures SoundArgs(free, st, EvalArgs(m, args, done, st))
    decreases |args|
  {
    hide Kept, EvalArg;
    SameTxKeeps(free, st, st);
    if args != [] {
      ArgSound(free, m, args[0], st);
      var a := EvalArg(m, args[0], st);
      if a.refs.Some? {
        ArgsSound(free, m, args[1..], done + a.refs.value, a.st);
        var b := EvalArgs(m, args[1..], done + a.refs.value, a.st);
        Then(free, st, a.st, Res(if b.refs.Some? then OK else ERROR, b.st));
      }
    }
  }

  // ----- All statements -----

  /**
   * Every statement leaves the chain of scopes, the chain of FOREACH loops and the current operator as they
   * were, however it ends, and what it does to the transactions is what it logs; without transaction control in
   * it and in the operators, nothing of that begins or ends a transaction. If it ends with a retryable error,
   * the transaction is where it started.
   */
  lemma {:induction false} ExecSound(free: bool, m: Machine, s: Stmt, ro: bool, st: State, fuel: nat)
    requires st.err == None && (free ==> OpsTxFree(m) && TxFree(s))
    ensures Sound(free, st, Exec(m, s, ro, st, fuel))
    decreases fuel, 1, s, 2
  {
    hide Sound, AllTxFree, OpsTxFree, EvalBool, ExecStmts, ExecCase, ExecWhile, ExecFor, ExecForeach, ExecCatches;
    hide ExecCall, ExecAssignOp, ExecVarDef, ExecVarDrop, ExecAssign, ExecUpdate, ExecReturn, ExecBegin, ExecCommit,
      ExecRollback;
    match s
    case Skip => SkipSound(free, st);
    case Block(body) => StmtsSound(free, m, body, ro, st, fuel);
    case If(cond, body, els) => IfSound(free, m, s, ro, st, fuel);
    case Case(whens, els) => CaseSound(free, m, s, 0, ro, st, fuel);
    case While(lab, cond, body) => WhileSound(free, m, lab, cond, body, ro, st, fuel);
    case For(lab, name, first, last, body) => ForSound(free, m, s, ro, st, fuel);
    case Foreach(lab, name, table, body) => ForeachSound(free, m, s, ro, st, fuel);
    case Leave(target) => LeaveSound(free, st, target);
    case Return(exp) => ReturnSound(free, m, exp, ro, st);
    case Raise(typ) => FailSound(free, st, typ);
    case Try(body, catches) => TrySound(free, m, s, ro, st, fuel);
    case VarDef(name, init, fixed) => VarDefSound(free, m, name, init, fixed, st);
    case VarDrop(name) => VarDropSound(free, m, name, st);
    case Assign(name, exp) => AssignSound(free, m, name, exp, st);
    case AssignOp(name, op, exps) => AssignOpSound(free, m, name, op, exps, st, fuel);
    case Call(op, args) => CallSound(free, m, op, args, st, fuel);
    case Update(u) => UpdateSound(free, m, u, st);
    case BeginTx => TxSound(m, st);
    case CommitTx => TxSound(m, st);
    case RollbackTx => TxSound(m, st);
  }

  lemma SkipSound(free: bool, st: State)
    requires st.err == None
    ensures Sound(free, st, Res(OK, st))
  {
    SameTxKeeps(free, st, st);
  }

  lemma SpentSound(free: bool, st: State)
    ensures Sound(free, st, Res(SPENT, st))
  {
    SameTxKeeps(free, st, st);
  }

  lemma LeaveSound(free: bool, st: State, target: Option<Name>)
    requires st.err == None
    ensures Sound(free, st, Res(LEAVE, st.(leave := target)))
  {
    SameTxKeeps(free, st, st.(leave := target));
  }

  lemma {:induction false} StmtsSound(free: bool, m: Machine, ss: seq<Stmt>, ro: bool, st: State, fuel: nat)
    requires st.err == None && (free ==> OpsTxFree(m) && AllTxFree(ss))
    ensures Sound(free, st, ExecStmts(m, ss, ro, st, fuel))
    decreases fuel, 1, ss, 0
  {
    hide Kept, Fair, Exec, TxFree;
    if ss == [] {
      SkipSound(free, st);
    } else {
      ExecSound(free, m, ss[0], ro, st, fuel);
      var r := Exec(m, ss[0], ro, st, fuel);
      if r.out == OK {
        StmtsSound(free, m, ss[1..], ro, r.st, fuel);
        Then(free, st, r.st, ExecStmts(m, ss[1..], ro, r.st, fuel));
      }
    }
  }

  /** A list of statements in a scope of its own. */
  lemma {:induction false} ScopedSound(free: bool, m: Machine, ss: seq<Stmt>, ro: bool, st: State, s: Scope, fuel: nat)
    requires st.err == None && (free ==> OpsTxFree(m) && AllTxFree(ss))
    ensures Sound(free, Enter(st, s), ExecStmts(m, ss, ro, Enter(st, s), fuel))
    ensures Sound(free, st, Exited(ExecStmts(m, ss, ro, Enter(st, s), fuel)))
    decreases fuel, 1, ss, 1
  {
    hide Sound, ExecStmts;
    StmtsSound(free, m, ss, ro, Enter(st, s), fuel);
    ExitKeeps(free, st, s, ExecStmts(m, ss, ro, Enter(st, s), fuel));
  }

  lemma {:induction false} IfSound(free: bool, m: Machine, s: Stmt, ro: bool, st: State, fuel: nat)
    requires s.If? && st.err == None && (free ==> OpsTxFree(m) && TxFree(s))
    ensures Sound(free, st, Exec(m, s, ro, st, fuel))
    decreases fuel, 1, s, 1
  {
    hide Kept, Fair, EvalBool, ExecStmts, AllTxFree;
    EvalBoolSound(free, m, s.cond, st);
    var c := EvalBool(m, s.cond, st);
    if c.val.Some? {
      var ss := if c.val.value.b then s.body else s.els;
      ScopedSound(free, m, ss, ro, c.st, map[], fuel);
      Then(free, st, c.st, Exited(ExecStmts(m, ss, ro, Enter(c.st, map[]), fuel)));
    }
  }

  lemma {:induction false} CaseSound(free: bool, m: Machine, s: Stmt, i: nat, ro: bool, st: State, fuel: nat)
    requires s.Case? && i <= |s.whens| && st.err == None && (free ==> OpsTxFree(m) && TxFree(s))
    ensures Sound(free, st, ExecCase(m, s, i, ro, st, fuel))
    decreases fuel, 1, s, 1, |s.whens| - i
  {
    hide Kept, Fair, EvalBool, ExecStmts, AllTxFree;
    if i == |s.whens| {
      ScopedSound(free, m, s.els, ro, st, map[], fuel);
    } else {
      EvalBoolSound(free, m, s.whens[i].cond, st);
      var c := EvalBool(m, s.whens[i].cond, st);
      if c.val.Some? {
        if c.val.value.b {
          ScopedSound(free, m, s.whens[i].body, ro, c.st, map[], fuel);
          Then(free, st, c.st, Exited(ExecStmts(m, s.whens[i].body, ro, Enter(c.st, map[]), fuel)));
        } else {
          CaseSound(free, m, s, i + 1, ro, c.st, fuel);
          Then(free, st, c.st, ExecCase(m, s, i + 1, ro, c.st, fuel));
        }
      }
    }
  }

  lemma {:induction false} WhileSound(free: bool, m: Machine, lab: Option<Name>, cond: Exp, body: seq<Stmt>, ro: bool,
                                      st: State, fuel: nat)
    requires st.err == None && (free ==> OpsTxFree(m) && AllTxFree(body))
    ensures Sound(free, st, ExecWhile(m, lab, cond, body, ro, st, fuel))
    decreases fuel, 1, body, 2
  {
    hide Kept, EvalBool, ExecStmts, AllTxFree;
    SkipSound(free, st);
    if fuel > 0 {
      EvalBoolSound(free, m, cond, st);
      var c := EvalBool(m, cond, st);
      if c.val.Some? && c.val.value.b {
        ScopedSound(free, m, body, ro, c.st, map[], fuel - 1);
        var r := ExecStmts(m, body, ro, Enter(c.st, map[]), fuel - 1);
        var st' := Exit(r.st);
        Then(free, st, c.st, Exited(LeaveLoop(lab, r)));
        if r.out == OK {
          FailSound(free, st', SystemError);
          Then(free, st, st', Fail(st', SystemError));
          WhileSound(free, m, lab, cond, body, ro, st', fuel - 1);
          Then(free, st, st', ExecWhile(m, lab, cond, body, ro, st', fuel - 1));
        }
      }
    }
  }

  lemma SetKeeps(free: bool, st: State, loc: nat, v: Value)
    ensures Kept(free, st, Set(st, loc, v))
  {
    SameTxKeeps(free, st, Set(st, loc, v));
  }

  lemma {:induction false} ForSound(free: bool, m: Machine, s: Stmt, ro: bool, st: State, fuel: nat)
    requires s.For? && st.err == None && (free ==> OpsTxFree(m) && TxFree(s))
    ensures Sound(free, st, ExecFor(m, s, ro, st, fuel))
    decreases fuel, 1, s, 1
  {
    hide Kept, Evaluate, EvalInt, ForLoop, AllTxFree;
    FailSound(free, st, NameError);
    FailSound(free, st, TypeMismatch);
    var e := Find(st, s.name);
    if e.Some? && ValueAt(st.store, e.value.loc).Int? {
      EvaluateSound(free, m, s.first, st);
      var v := Evaluate(m, s.first, st);
      if v.val.Some? {
        var st1 := Set(v.st, e.value.loc, v.val.value);
        SetKeeps(free, v.st, e.value.loc, v.val.value);
        KeptTransitive(free, st, v.st, st1);
        EvalIntSound(free, m, s.last, st1);
        var w := EvalInt(m, s.last, st1);
        Then(free, st, st1, Res(if w.val.Some? then OK else ERROR, w.st));
        if w.val.Some? {
          ForLoopSound(free, m, s.lab, s.name, e.value.loc, w.val.value.i, s.body, ro, w.st, fuel);
          Then(free, st, w.st, ForLoop(m, s.lab, s.name, e.value.loc, w.val.value.i, s.body, ro, w.st, fuel));
        }
      }
    }
  }

  lemma {:induction false} ForLoopSound(free: bool, m: Machine, lab: Option<Name>, name: Name, loc: nat, last: int,
                                        body: seq<Stmt>, ro: bool, st: State, fuel: nat)
    requires st.err == None && (free ==> OpsTxFree(m) && AllTxFree(body))
    ensures Sound(free, st, ForLoop(m, lab, name, loc, last, body, ro, st, fuel))
    decreases fuel, 1, body, 2
  {
    hide Kept, ExecStmts, AllTxFree;
    SkipSound(free, st);
    if fuel > 0 && ValueAt(st.store, loc).Int? && ValueAt(st.store, loc).i <= last {
      ScopedSound(free, m, body, ro, st, map[], fuel - 1);
      var r := ExecStmts(m, body, ro, Enter(st, map[]), fuel - 1);
      if r.out == OK {
        ForNextSound(free, m, lab, name, last, body, ro, Exit(r.st), fuel - 1);
        Then(free, st, Exit(r.st), ForNext(m, lab, name, last, body, ro, Exit(r.st), fuel - 1));
      }
    }
  }

  lemma {:induction false} ForNextSound(free: bool, m: Machine, lab: Option<Name>, name: Name, last: int,
                                        body: seq<Stmt>, ro: bool, st: State, fuel: nat)
    requires st.err == None && (free ==> OpsTxFree(m) && AllTxFree(body))
    ensures Sound(free, st, ForNext(m, lab, name, last, body, ro, st, fuel))
    decreases fuel, 1, body, 3
  {
    hide Kept, ForLoop, AllTxFree;
    FailSound(free, st, NameError);
    FailSound(free, st, SystemError);
    SkipSound(free, st);
    var e := Find(st, name);
    if e.Some? && ValueAt(st.store, e.value.loc).Int? {
      var st' := Set(st, e.value.loc, Int(ValueAt(st.store, e.value.loc).i + 1));
      SetKeeps(free, st, e.value.loc, Int(ValueAt(st.store, e.value.loc).i + 1));
      ForLoopSound(free, m, lab, name, e.value.loc, last, body, ro, st', fuel);
      Then(free, st, st', ForLoop(m, lab, name, e.value.loc, last, body, ro, st', fuel));
    }
  }

  // ----- FOREACH -----

  /** The state without what the current FOREACH loop still has to visit. */
  function Outside(st: State): State {
    if st.foreachs == [] then st else st.(foreachs := st.foreachs[1..])
  }

  ghost predicate SoundLoop(free: bool, st: State, r: Res) {
    r.st.foreachs != [] && NoEnd(st, r.st) && Sound(free, Outside(st), Res(r.out, Outside(r.st)))
  }

  lemma OutsideSound(free: bool, st: State, r: Res)
    requires st.foreachs != [] && Sound(free, st, r)
    ensures SoundLoop(free, st, r)
  {}

  lemma ThenLoop(free: bool, a: State, b: State, r: Res)
    requires Kept(free, Outside(a), Outside(b)) && NoEnd(a, b) && b.foreachs != [] && SoundLoop(free, b, r)
    ensures SoundLoop(free, a, r)
  {
    NoEndTransitive(a, b, r.st);
    hide Kept, NoEnd;
    Then(free, Outside(a), Outside(b), Res(r.out, Outside(r.st)));
  }

  lemma NextRowKeeps(free: bool, st: State, loc: nat)
    requires st.foreachs != [] && st.foreachs[0] != []
    ensures Kept(free, Outside(st), Outside(NextRow(st, loc))) && NextRow(st, loc).foreachs != [] &&
      NoEnd(st, NextRow(st, loc))
  {
    SameTxKeeps(free, Outside(st), Outside(NextRow(st, loc)));
  }

  lemma FetchEndSound(free: bool, st: State, e: Error)
    requires st.foreachs != [] && st.err == None
    ensures SoundLoop(free, st, Res(OK, DbFail(Tick(st), e).(err := None)))
    ensures SoundLoop(free, st, Res(OK, Tick(st).(err := None)))
  {
    TickedFail(free, st, e);
    SameTxKeeps(free, Outside(st), Outside(Tick(st)));
  }

  lemma {:induction false} ForeachSound(free: bool, m: Machine, s: Stmt, ro: bool, st: State, fuel: nat)
    requires s.Foreach? && st.err == None && (free ==> OpsTxFree(m) && TxFree(s))
    ensures Sound(free, st, ExecForeach(m, s, ro, st, fuel)) && NoEnd(st, ExecForeach(m, s, ro, st, fuel).st)
    decreases fuel, 1, s, 1
  {
    hide Kept, ForeachLoop, AllTxFree;
    FailSound(free, st, NameError);
    match m.rows(s.table, Env(st), View(st), st.clock)
    case Err(er) => TickedFail(free, st, er);
    case Ok(rows) =>
      var st1 := Tick(st).(foreachs := [rows] + st.foreachs);
      SameTxKeeps(free, st, Outside(st1));
      var e := Find(st, s.name);
      if e.Some? {
        ForeachLoopSound(free, m, s.lab, s.name, e.value.loc, s.body, ro, st1, fuel);
        var r := ForeachLoop(m, s.lab, s.name, e.value.loc, s.body, ro, st1, fuel);
        assert EndForeach(r) == Res(r.out, Outside(r.st));
        Then(free, st, Outside(st1), EndForeach(r));
      }
  }

  lemma {:induction false} ForeachLoopSound(free: bool, m: Machine, lab: Option<Name>, name: Name, loc: nat,
                                            body: seq<Stmt>, ro: bool, st: State, fuel: nat)
    requires st.err == None && st.foreachs != [] && (free ==> OpsTxFree(m) && AllTxFree(body))
    ensures SoundLoop(free, st, ForeachLoop(m, lab, name, loc, body, ro, st, fuel))
    decreases fuel, 1, body, 2
  {
    hide Sound, ExecStmts, AllTxFree, DbFail, Find, Kept, ForeachNext;
    SpentSound(free, st);
    OutsideSound(free, st, Res(SPENT, st));
    if fuel > 0 {
      var fail := m.fetch(st.clock);
      FetchEndSound(free, st, if fail.Some? then fail.value else Error(NotFound, false, EndsNone));
      if m.fetch(st.clock) == None && st.foreachs[0] != [] {
        var st1 := NextRow(st, loc);
        NextRowKeeps(free, st, loc);
        ScopedSound(free, m, body, ro, st1, map[], fuel - 1);
        var r := Exited(ExecStmts(m, body, ro, Enter(st1, map[]), fuel - 1));
        OutsideSound(free, st1, r);
        ThenLoop(free, st, st1, r);
        ForeachNextSound(free, m, lab, name, body, ro, st, r, fuel - 1);
      }
    }
  }

  lemma {:induction false} ForeachNextSound(free: bool, m: Machine, lab: Option<Name>, name: Name, body: seq<Stmt>,
                                            ro: bool, st: State, r: Res, fuel: nat)
    requires SoundLoop(free, st, r) && (free ==> OpsTxFree(m) && AllTxFree(body))
    ensures SoundLoop(free, st, ForeachNext(m, lab, name, body, ro, r, fuel))
    decreases fuel, 1, body, 3
  {
    hide Logged, ForeachLoop, AllTxFree;
    forall typ ensures SoundLoop(free, st, Fail(r.st, typ)) {
      FailSound(free, Outside(r.st), typ);
      ThenLoop(free, st, r.st, Fail(r.st, typ));
    }
    var e := Find(r.st, name);
    if r.out == OK && e.Some? {
      ForeachLoopSound(free, m, lab, name, e.value.loc, body, ro, r.st, fuel);
      ThenLoop(free, st, r.st, ForeachLoop(m, lab, name, e.value.loc, body, ro, r.st, fuel));
    }
  }

  // ----- TRY -----

  lemma {:induction false} TrySound(free: bool, m: Machine, s: Stmt, ro: bool, st: State, fuel: nat)
    requires s.Try? && st.err == None && (free ==> OpsTxFree(m) && TxFree(s))
    ensures Sound(free, st, Exec(m, s, ro, st, fuel))
    decreases fuel, 1, s, 1
  {
    hide Kept, ExecStmts, ExecCatches;
    ScopedSound(free, m, s.body, ro, st, map[], fuel);
    var r := Exited(ExecStmts(m, s.body, ro, Enter(st, map[]), fuel));
    if r.out == ERROR && r.st.err.Some? {
      CatchesSound(free, m, s.catches, ro, r.st, fuel);
      Then(free, st, r.st, ExecCatches(m, s.catches, ro, r.st, fuel));
    }
  }

  lemma {:induction false} CatchesSound(free: bool, m: Machine, catches: seq<Catch>, ro: bool, st: State, fuel: nat)
    requires st.err.Some? && Fair(Res(ERROR, st))
    requires free ==> OpsTxFree(m) && forall i :: 0 <= i < |catches| ==> AllTxFree(catches[i].body)
    ensures Sound(free, st, ExecCatches(m, catches, ro, st, fuel))
    decreases fuel, 1, catches, 1
  {
    hide Logged, ExecCatch, AllTxFree;
    SameTxKeeps(free, st, st);
    if catches != [] {
      CatchSound(free, m, catches[0], ro, st, fuel);
      CatchesSound(free, m, catches[1..], ro, st, fuel);
    }
  }

  lemma {:induction false} CatchSound(free: bool, m: Machine, c: Catch, ro: bool, st: State, fuel: nat)
    requires st.err.Some? && (free ==> OpsTxFree(m) && AllTxFree(c.body))
    ensures Sound(free, st, ExecCatch(m, c, ro, st, fuel))
    decreases fuel, 1, c, 1
  {
    hide Logged, ExecStmts, AllTxFree;
    var st0 := Alloc(st, ErrorVal(st.err.value.typ)).(retryable := st.err.value.retryable, err := None);
    var s := map[c.name := Entry(|st.store|, false)];
    SameTxKeeps(free, st, st0);
    ScopedSound(free, m, c.body, ro, st0, s, fuel);
    Then(free, st, st0, Exited(ExecStmts(m, c.body, ro, Enter(st0, s), fuel)));
  }

  // ----- Operators -----

  lemma {:induction false} BodySound(free: bool, m: Machine, name: Name, refs: seq<Ref>, st: State, fuel: nat)
    requires name in m.ops && |refs| == |m.ops[name].params| && fuel > 0 && st.err == None && (free ==> OpsTxFree(m))
    ensures Sound(free, st, RunBody(m, name, m.ops[name], refs, st, fuel))
    decreases fuel - 1, 2
  {
    hide Logged, ExecStmts, AllTxFree;
    var op := m.ops[name];
    StmtsSound(free, m, op.body, op.readOnly, st.(scopes := [ParamScope(op.params, refs)], innerOp := Some(name)),
      fuel - 1);
    hide ParamScope;
    BodyRestores(free, st, [ParamScope(op.params, refs)], Some(name),
      ExecStmts(m, op.body, op.readOnly, st.(scopes := [ParamScope(op.params, refs)], innerOp := Some(name)),
        fuel - 1));
  }

  lemma BodyRestores(free: bool, st: State, scopes: seq<Scope>, inner: Option<Name>, r: Res)
    requires Sound(free, st.(scopes := scopes, innerOp := inner), r)
    ensures Sound(free, st, Res(r.out, r.st.(scopes := st.scopes, innerOp := st.innerOp)))
  {}

  lemma {:induction false} InvokeSound(free: bool, m: Machine, name: Name, refs: seq<Ref>, st: State, fuel: nat)
    requires name in m.ops && |refs| == |m.ops[name].params| && st.err == None && (free ==> OpsTxFree(m))
    ensures Sound(free, st, InvokeUpdateOp(m, name, m.ops[name], refs, st, fuel))
    ensures Sound(free, st, InvokeRoOp(m, name, m.ops[name], refs, st, fuel))
    decreases fuel, 0, 0
  {
    hide Kept, RunBody, AllTxFree;
    SkipSound(free, st);
    FailSound(free, st, SystemError);
    if fuel > 0 {
      BodySound(free, m, name, refs, st, fuel);
      var r := RunBody(m, name, m.ops[name], refs, st, fuel);
      FailSound(free, r.st, SyntaxError);
      Then(free, st, r.st, Fail(r.st, SyntaxError));
    }
  }

  lemma {:induction false} CallSound(free: bool, m: Machine, name: Name, args: seq<Arg>, st: State, fuel: nat)
    requires st.err == None && (free ==> OpsTxFree(m))
    ensures Sound(free, st, ExecCall(m, name, args, st, fuel))
    decreases fuel, 0, 1
  {
    hide Kept, InvokeUpdateOp, EvalArgs, AllTxFree;
    ArgsSound(free, m, args, [], st);
    var a := EvalArgs(m, args, [], st);
    forall typ ensures a.refs.Some? ==> Sound(free, st, Fail(a.st, typ)) {
      FailSound(free, a.st, typ);
      if a.refs.Some? { Then(free, st, a.st, Fail(a.st, typ)); }
    }
    var n := if a.refs.Some? then FindOp(m, name, a.st.innerOp, |a.refs.value|) else None;
    if n.Some? {
      InvokeSound(free, m, n.value, a.refs.value, a.st, fuel);
      Then(free, st, a.st, InvokeUpdateOp(m, n.value, m.ops[n.value], a.refs.value, a.st, fuel));
    }
  }

  lemma {:induction false} AssignOpSound(free: bool, m: Machine, name: Name, op: Name, exps: seq<Exp>, st: State,
                                         fuel: nat)
    requires st.err == None && (free ==> OpsTxFree(m))
    ensures Sound(free, st, ExecAssignOp(m, name, op, exps, st, fuel))
    decreases fuel, 0, 1
  {
    hide Kept, InvokeRoOp, EvalArgs, AllTxFree, Store;
    var args := seq(|exps|, i requires 0 <= i < |exps| => ExpArg(exps[i]));
    ArgsSound(free, m, args, [], st);
    var a := EvalArgs(m, args, [], st);
    FailSound(free, a.st, OperatorNotFound);
    if a.refs.Some? { Then(free, st, a.st, Fail(a.st, OperatorNotFound)); }
    if a.refs.Some? && HasOp(m, op, true, |a.refs.value|) {
      InvokeSound(free, m, op, a.refs.value, a.st, fuel);
      var r := InvokeRoOp(m, op, m.ops[op], a.refs.value, a.st, fuel);
      Then(free, st, a.st, r);
      if r.out == OK {
        StoreSound(free, r.st, name, r.st.ret);
        Then(free, st, r.st, Store(r.st, name, r.st.ret));
      }
    }
  }
}
