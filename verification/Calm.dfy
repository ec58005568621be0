/**
 * Writes that are lost although a statement succeeds, and the statements that lose none
 * (duro/dli/interp_stmt.c): a retryable error takes the transaction back to its start, and both CATCH and the end
 * of a FOREACH loop may clear that error.
 */
module Calm {
  import opened ByteStrings
  import opened Options
  import opened TxStack
  import opened Statements
  import opened Discipline
  import opened ImplicitTx

  /** There is neither TRY nor FOREACH in the statement. */
  predicate IsCalm(s: Stmt)
    decreases s, 1
  {
    match s
    case Block(body) => AllCalm(body)
    case If(_, body, els) => AllCalm(body) && AllCalm(els)
    case Case(whens, els) => AllCalm(els) && forall i :: 0 <= i < |whens| ==> AllCalm(whens[i].body)
    case While(_, _, body) => AllCalm(body)
    case For(_, _, _, _, body) => AllCalm(body)
    case Foreach(_, _, _, _) => false
    case Try(_, _) => false
    case _ => true
  }

  predicate AllCalm(ss: seq<Stmt>)
    decreases ss, 0
  {
    ss == [] || (IsCalm(ss[0]) && AllCalm(ss[1..]))
  }

  predicate OpsCalm(m: Machine) {
    forall n :: n in m.ops ==> AllCalm(m.ops[n].body)
  }

  /** The event takes away what the transaction has written, without ending it. */
  predicate IsLoss(e: Event) {
    e == Reset || e == Abort || e == AbortAll
  }

  predicate HasLoss(es: seq<Event>) {
    es != [] && (IsLoss(es[0]) || HasLoss(es[1..]))
  }

  /** The log has become longer, but by no loss. */
  ghost predicate NoLoss(st: State, st': State) {
    |st.log| <= |st'.log| && st'.log[..|st.log|] == st.log && !HasLoss(st'.log[|st.log|..])
  }

  /** A statement that does not fail has lost nothing. */
  ghost predicate Lossless(st: State, r: Res) {
    r.out in {OK, RETURN, LEAVE} ==> NoLoss(st, r.st)
  }

  ghost predicate LosslessEval(st: State, v: Eval) {
    v.val.Some? ==> NoLoss(st, v.st)
  }

  ghost predicate LosslessArgs(st: State, a: Args) {
    a.refs.Some? ==> NoLoss(st, a.st)
  }

  lemma {:induction false} HasLossAppended(es: seq<Event>, es': seq<Event>)
    ensures HasLoss(es + es') <==> HasLoss(es) || HasLoss(es')
  {
    if es == [] {
      assert es + es' == es';
    } else {
      assert (es + es')[1..] == es[1..] + es';
      HasLossAppended(es[1..], es');
    }
  }

  lemma NoLossTransitive(a: State, b: State, c: State)
    requires NoLoss(a, b) && NoLoss(b, c)
    ensures NoLoss(a, c)
  {
    var x, y := b.log[|a.log|..], c.log[|b.log|..];
    assert c.log[|a.log|..] == x + y && c.log[..|a.log|] == a.log;
    HasLossAppended(x, y);
  }

  lemma SameLog(st: State, st': State)
    requires st'.log == st.log
    ensures NoLoss(st, st')
  {
    assert st'.log[|st.log|..] == [];
  }

  lemma Logs(st: State, st': State, e: Event)
    requires st'.log == st.log + [e] && !IsLoss(e)
    ensures NoLoss(st, st')
  {
    assert st'.log[|st.log|..] == [e];
  }

  lemma SameLogs(a: State, b: State, c: State)
    requires a.log == b.log
    ensures NoLoss(a, c) <==> NoLoss(b, c)
    ensures NoLoss(c, a) <==> NoLoss(c, b)
  {}

  // ----- Expressions and simple statements -----

  lemma EvalLossless(m: Machine, e: Exp, st: State)
    ensures LosslessEval(st, Evaluate(m, e, st)) && LosslessEval(st, EvalBool(m, e, st)) &&
      LosslessEval(st, EvalInt(m, e, st))
  {
    SameLog(st, Tick(st));
    hide NoLoss, DbFail, Env;
  }

  lemma TxLossless(m: Machine, st: State)
    ensures Lossless(st, ExecBegin(m, st)) && Lossless(st, ExecCommit(m, st)) && Lossless(st, ExecRollback(m, st))
  {
    Logs(st, Do(Tick(st), Begin), Begin);
    Logs(st, Do(Tick(st), Commit), Commit);
    Logs(st, Do(Tick(st), Event.Pop), Event.Pop);
    Logs(st, Do(st, Event.Pop), Event.Pop);
    hide NoLoss, DbFail, Do;
  }

  lemma EvalLogs(m: Machine, e: Exp, st: State)
    ensures Evaluate(m, e, st).val.Some? ==> Evaluate(m, e, st).st.log == st.log
  {
    hide DbFail, Env;
  }

  lemma VarDefLossless(m: Machine, name: Name, init: Exp, fixed: bool, st: State)
    ensures Lossless(st, ExecVarDef(m, name, init, fixed, st))
  {
    EvalLogs(m, init, st);
    hide NoLoss, Evaluate;
    var r := ExecVarDef(m, name, init, fixed, st);
    if r.out == OK {
      SameLog(st, r.st);
    }
  }

  lemma VarDropLossless(m: Machine, name: Name, st: State)
    ensures Lossless(st, ExecVarDrop(m, name, st))
  {
    forall st': State | st'.log == st.log ensures NoLoss(st, st') {
      SameLog(st, st');
    }
    forall st': State, d | st'.log == st.log + [Write(d)] ensures NoLoss(st, st') {
      Logs(st, st', Write(d));
    }
    hide NoLoss, DbFail, Step;
  }

  lemma AssignLossless(m: Machine, name: Name, exp: Exp, st: State)
    ensures Lossless(st, ExecAssign(m, name, exp, st))
  {
    EvalLogs(m, exp, st);
    hide NoLoss, Evaluate, Lookup;
    var r := ExecAssign(m, name, exp, st);
    if r.out == OK {
      SameLog(st, r.st);
    }
  }

  lemma UpdateLossless(m: Machine, u: Exp, st: State)
    ensures Lossless(st, ExecUpdate(m, u, st))
  {
    forall st': State, d | st'.log == st.log + [Write(d)] ensures NoLoss(st, st') {
      Logs(st, st', Write(d));
    }
    hide NoLoss, DbFail, Step, Env;
  }

  lemma ReturnLossless(m: Machine, exp: Option<Exp>, ro: bool, st: State)
    ensures Lossless(st, ExecReturn(m, exp, ro, st))
  {
    forall st': State | st'.log == st.log ensures NoLoss(st, st') {
      SameLog(st, st');
    }
    hide NoLoss, DbFail, Env;
  }

  lemma StoreLossless(st: State, st': State, name: Name, v: Value)
    requires NoLoss(st, st')
    ensures Lossless(st, Store(st', name, v))
  {
    hide Lookup;
    assert Store(st', name, v).st.log == st'.log;
    SameLogs(Store(st', name, v).st, st', st);
  }

  lemma {:induction false} ArgsLossless(m: Machine, args: seq<Arg>, done: seq<Ref>, st: State)
    ensures LosslessArgs(st, EvalArgs(m, args, done, st))
    decreases |args|
  {
    SameLog(st, st);
    if args != [] {
      var a := EvalArg(m, args[0], st);
      if a.refs.Some? {
        assert a.st.log == st.log by { hide Env, Lookup, DbFail; }
        ArgsLossless(m, args[1..], done + a.refs.value, a.st);
        hide EvalArg;
        SameLogs(st, a.st, EvalArgs(m, args[1..], done + a.refs.value, a.st).st);
      }
    }
  }

  // ----- All statements -----

  /**
   * If there is neither TRY nor FOREACH in a statement and in the operators, then whatever the statement does
   * without failing takes nothing back: no transaction was reset and none was rolled back but by ROLLBACK.
   */
  lemma {:induction false} ExecLossless(m: Machine, s: Stmt, ro: bool, st: State, fuel: nat)
    requires IsCalm(s) && OpsCalm(m)
    ensures Lossless(st, Exec(m, s, ro, st, fuel))
    decreases fuel, 1, s, 2
  {
    hide NoLoss, AllCalm, OpsCalm, EvalBool, ExecStmts, ExecCase, ExecWhile, ExecFor, ExecForeach, ExecCatches;
    hide ExecCall, ExecAssignOp, ExecVarDef, ExecVarDrop, ExecAssign, ExecUpdate, ExecReturn, ExecBegin, ExecCommit,
      ExecRollback;
    SameLog(st, st);
    match s
    case Skip =>
    case Block(body) => StmtsLossless(m, body, ro, st, fuel);
    case If(cond, body, els) => IfLossless(m, s, ro, st, fuel);
    case Case(whens, els) => CaseLossless(m, s, 0, ro, st, st, fuel);
    case While(lab, cond, body) => WhileLossless(m, lab, cond, body, ro, st, st, fuel);
    case For(lab, name, first, last, body) => ForLossless(m, s, ro, st, fuel);
    case Leave(target) => SameLog(st, st.(leave := target));
    case Return(exp) => ReturnLossless(m, exp, ro, st);
    case Raise(typ) =>
    case AssignOp(name, op, exps) => AssignOpLossless(m, name, op, exps, st, fuel);
    case Call(op, args) => CallLossless(m, op, args, st, fuel);
    case BeginTx => TxLossless(m, st);
    case CommitTx => TxLossless(m, st);
    case RollbackTx => TxLossless(m, st);
    case VarDef(name, init, fixed) => VarDefLossless(m, name, init, fixed, st);
    case VarDrop(name) => VarDropLossless(m, name, st);
    case Assign(name, exp) => AssignLossless(m, name, exp, st);
    case Update(u) => UpdateLossless(m, u, st);
  }

  lemma {:induction false} StmtsLossless(m: Machine, ss: seq<Stmt>, ro: bool, st: State, fuel: nat)
    requires AllCalm(ss) && OpsCalm(m)
    ensures Lossless(st, ExecStmts(m, ss, ro, st, fuel))
    decreases fuel, 1, ss, 0
  {
    hide NoLoss, Exec, IsCalm, OpsCalm;
    SameLog(st, st);
    if ss != [] {
      ExecLossless(m, ss[0], ro, st, fuel);
      var r := Exec(m, ss[0], ro, st, fuel);
      if r.out == OK {
        StmtsLossless(m, ss[1..], ro, r.st, fuel);
        Later(st, r.st, ExecStmts(m, ss[1..], ro, r.st, fuel));
      }
    }
  }

  lemma Later(st: State, st': State, r: Res)
    requires NoLoss(st, st') && Lossless(st', r)
    ensures Lossless(st, r)
  {
    hide NoLoss;
    if r.out in {OK, RETURN, LEAVE} {
      NoLossTransitive(st, st', r.st);
    }
  }

  /** A list of statements in a scope of its own. */
  lemma {:induction false} ScopedLossless(m: Machine, ss: seq<Stmt>, ro: bool, st: State, st': State, s: Scope,
                                          fuel: nat)
    requires AllCalm(ss) && OpsCalm(m) && NoLoss(st, st')
    ensures Lossless(st, Exited(ExecStmts(m, ss, ro, Enter(st', s), fuel)))
    decreases fuel, 1, ss, 1
  {
    hide ExecStmts, AllCalm, OpsCalm, HasLoss;
    StmtsLossless(m, ss, ro, Enter(st', s), fuel);
    var r := ExecStmts(m, ss, ro, Enter(st', s), fuel);
    SameLogs(st', Enter(st', s), r.st);
    SameLogs(r.st, Exit(r.st), st');
    hide NoLoss;
    Later(st, st', Exited(r));
  }

  lemma {:induction false} IfLossless(m: Machine, s: Stmt, ro: bool, st: State, fuel: nat)
    requires s.If? && IsCalm(s) && OpsCalm(m)
    ensures Lossless(st, Exec(m, s, ro, st, fuel))
    decreases fuel, 1, s, 1
  {
    hide NoLoss, OpsCalm, EvalBool, ExecStmts;
    EvalLossless(m, s.cond, st);
    var c := EvalBool(m, s.cond, st);
    if c.val.Some? {
      ScopedLossless(m, if c.val.value.b then s.body else s.els, ro, st, c.st, map[], fuel);
    }
  }

  lemma {:induction false} CaseLossless(m: Machine, s: Stmt, i: nat, ro: bool, st0: State, st: State, fuel: nat)
    requires s.Case? && i <= |s.whens| && IsCalm(s) && OpsCalm(m) && NoLoss(st0, st)
    ensures Lossless(st0, ExecCase(m, s, i, ro, st, fuel))
    decreases fuel, 1, s, 1, |s.whens| - i
  {
    hide NoLoss, OpsCalm, EvalBool, ExecStmts, AllCalm;
    if i == |s.whens| {
      ScopedLossless(m, s.els, ro, st0, st, map[], fuel);
    } else {
      EvalLossless(m, s.whens[i].cond, st);
      var c := EvalBool(m, s.whens[i].cond, st);
      if c.val.Some? {
        NoLossTransitive(st0, st, c.st);
        if c.val.value.b {
          ScopedLossless(m, s.whens[i].body, ro, st0, c.st, map[], fuel);
        } else {
          CaseLossless(m, s, i + 1, ro, st0, c.st, fuel);
        }
      }
    }
  }

  lemma LoopEndLossless(lab: Option<Name>, st: State, r: Res)
    requires Lossless(st, Exited(r))
    ensures Lossless(st, Exited(LeaveLoop(lab, r)))
  {
    hide NoLoss;
  }

  lemma {:induction false} WhileLossless(m: Machine, lab: Option<Name>, cond: Exp, body: seq<Stmt>, ro: bool,
                                         st0: State, st: State, fuel: nat)
    requires AllCalm(body) && OpsCalm(m) && NoLoss(st0, st)
    ensures Lossless(st0, ExecWhile(m, lab, cond, body, ro, st, fuel))
    decreases fuel, 1, body, 2
  {
    hide NoLoss, OpsCalm, EvalBool, ExecStmts, AllCalm, LeaveLoop;
    if fuel > 0 {
      EvalLossless(m, cond, st);
      var c := EvalBool(m, cond, st);
      if c.val.Some? {
        NoLossTransitive(st0, st, c.st);
        if c.val.value.b {
          ScopedLossless(m, body, ro, st0, c.st, map[], fuel - 1);
          var r := ExecStmts(m, body, ro, Enter(c.st, map[]), fuel - 1);
          LoopEndLossless(lab, st0, r);
          if r.out == OK {
            WhileLossless(m, lab, cond, body, ro, st0, Exit(r.st), fuel - 1);
          }
        }
      }
    }
  }

  lemma {:induction false} ForLossless(m: Machine, s: Stmt, ro: bool, st: State, fuel: nat)
    requires s.For? && IsCalm(s) && OpsCalm(m)
    ensures Lossless(st, ExecFor(m, s, ro, st, fuel))
    decreases fuel, 1, s, 1
  {
    hide NoLoss, OpsCalm, EvalInt, Evaluate, ForLoop, AllCalm;
    EvalLossless(m, s.first, st);
    var e, v := Find(st, s.name), Evaluate(m, s.first, st);
    if e.Some? && v.val.Some? {
      var st1 := Set(v.st, e.value.loc, v.val.value);
      SameLogs(v.st, st1, st);
      EvalLossless(m, s.last, st1);
      var w := EvalInt(m, s.last, st1);
      if w.val.Some? {
        NoLossTransitive(st, st1, w.st);
        ForLoopLossless(m, s.lab, s.name, e.value.loc, w.val.value.i, s.body, ro, st, w.st, fuel);
      }
    }
  }

  lemma {:induction false} ForLoopLossless(m: Machine, lab: Option<Name>, name: Name, loc: nat, last: int,
                                           body: seq<Stmt>, ro: bool, st0: State, st: State, fuel: nat)
    requires AllCalm(body) && OpsCalm(m) && NoLoss(st0, st)
    ensures Lossless(st0, ForLoop(m, lab, name, loc, last, body, ro, st, fuel))
    decreases fuel, 1, body, 2
  {
    hide NoLoss, OpsCalm, ExecStmts, AllCalm, LeaveLoop, ForNext;
    if fuel > 0 {
      ScopedLossless(m, body, ro, st0, st, map[], fuel - 1);
      var r := ExecStmts(m, body, ro, Enter(st, map[]), fuel - 1);
      LoopEndLossless(lab, st0, r);
      if r.out == OK {
        ForNextLossless(m, lab, name, last, body, ro, st0, Exit(r.st), fuel - 1);
      }
    }
  }

  lemma {:induction false} ForNextLossless(m: Machine, lab: Option<Name>, name: Name, last: int, body: seq<Stmt>,
                                           ro: bool, st0: State, st: State, fuel: nat)
    requires AllCalm(body) && OpsCalm(m) && NoLoss(st0, st)
    ensures Lossless(st0, ForNext(m, lab, name, last, body, ro, st, fuel))
    decreases fuel, 1, body, 3
  {
    hide NoLoss, OpsCalm, ForLoop, AllCalm;
    var e := Find(st, name);
    if e.Some? && ValueAt(st.store, e.value.loc).Int? {
      var st' := Set(st, e.value.loc, Int(ValueAt(st.store, e.value.loc).i + 1));
      SameLogs(st, st', st0);
      ForLoopLossless(m, lab, name, e.value.loc, last, body, ro, st0, st', fuel);
    }
  }

  // ----- Operators -----

  lemma {:induction false} InvokeLossless(m: Machine, name: Name, refs: seq<Ref>, st0: State, st: State, fuel: nat)
    requires name in m.ops && |refs| == |m.ops[name].params| && OpsCalm(m) && NoLoss(st0, st)
    ensures Lossless(st0, InvokeUpdateOp(m, name, m.ops[name], refs, st, fuel)) &&
      Lossless(st0, InvokeRoOp(m, name, m.ops[name], refs, st, fuel))
    decreases fuel, 0, 0
  {
    hide ExecStmts, ParamScope, AllCalm, HasLoss;
    if fuel > 0 {
      var op := m.ops[name];
      var st1 := st.(scopes := [ParamScope(op.params, refs)], innerOp := Some(name));
      StmtsLossless(m, op.body, op.readOnly, st1, fuel - 1);
      var r := ExecStmts(m, op.body, op.readOnly, st1, fuel - 1);
      var r' := RunBody(m, name, op, refs, st, fuel);
      assert r'.st.log == r.st.log && r'.out == r.out;
      SameLogs(st, st1, r.st);
      SameLogs(r.st, r'.st, st);
      hide NoLoss, RunBody, OpsCalm;
      Later(st0, st, r');
    }
  }

  lemma {:induction false} CallLossless(m: Machine, name: Name, args: seq<Arg>, st: State, fuel: nat)
    requires OpsCalm(m)
    ensures Lossless(st, ExecCall(m, name, args, st, fuel))
    decreases fuel, 0, 1
  {
    hide NoLoss, OpsCalm, EvalArgs, InvokeUpdateOp;
    ArgsLossless(m, args, [], st);
    var a := EvalArgs(m, args, [], st);
    var n := if a.refs.Some? then FindOp(m, name, a.st.innerOp, |a.refs.value|) else None;
    if n.Some? {
      InvokeLossless(m, n.value, a.refs.value, st, a.st, fuel);
    }
  }

  lemma {:induction false} AssignOpLossless(m: Machine, name: Name, op: Name, exps: seq<Exp>, st: State, fuel: nat)
    requires OpsCalm(m)
    ensures Lossless(st, ExecAssignOp(m, name, op, exps, st, fuel))
    decreases fuel, 0, 1
  {
    hide NoLoss, OpsCalm, EvalArgs, InvokeRoOp, Store;
    var args := seq(|exps|, i requires 0 <= i < |exps| => ExpArg(exps[i]));
    ArgsLossless(m, args, [], st);
    var a := EvalArgs(m, args, [], st);
    if a.refs.Some? && HasOp(m, op, true, |a.refs.value|) {
      InvokeLossless(m, op, a.refs.value, st, a.st, fuel);
      var r := InvokeRoOp(m, op, m.ops[op], a.refs.value, a.st, fuel);
      if r.out == OK {
        StoreLossless(st, r.st, name, r.st.ret);
      }
    }
  }

  // ----- What is committed -----

  /** What the last write of the events has written, view if there is none. */
  function LastWrite(es: seq<Event>, view: Db): Db {
    if es == [] then view
    else LastWrite(es[1..], if es[0].Write? then es[0].now else view)
  }

  lemma {:induction false} OnlyWrites(t: TxState, es: seq<Event>)
    requires |t.stack| == 1 && NoControl(es) && !HasLoss(es)
    ensures Run(t, es) == WithView(t, LastWrite(es, Current(t)))
    decreases |es|
  {
    if es != [] {
      OnlyWrites(Step(t, es[0]), es[1..]);
    }
  }

  lemma {:induction false} NoControlAppended(es: seq<Event>, es': seq<Event>)
    ensures NoControl(es + es') <==> NoControl(es) && NoControl(es')
  {
    if es == [] {
      assert es + es' == es';
    } else {
      assert (es + es')[1..] == es[1..] + es';
      NoControlAppended(es[1..], es');
    }
  }

  /** What a transaction without transactions inside sees does not depend on whether it runs. */
  lemma {:induction false} SameViews(t: TxState, u: TxState, es: seq<Event>)
    requires NoControl(es) && |t.stack| == 1 && |u.stack| == 1 && t.db == u.db && Current(t) == Current(u)
    ensures Current(Run(t, es)) == Current(Run(u, es))
    decreases |es|
  {
    if es != [] {
      SameViews(Step(t, es[0]), Step(u, es[0]), es[1..]);
    }
  }

  /** After a loss the transaction is as if nothing had happened in it before. */
  lemma LossForgets(t: TxState, a: seq<Event>, e: Event, b: seq<Event>)
    requires |t.stack| == 1 && NoControl(a) && IsLoss(e) && NoControl(b)
    ensures Current(Run(t, a + [e] + b)) == Current(Run(Step(TxState(t.db, []), Begin), b))
  {
    NoControlKeeps(t, a);
    RunAppended(t, a, [e] + b);
    assert a + [e] + b == a + ([e] + b) && ([e] + b)[1..] == b;
    SameViews(Step(Run(t, a), e), Step(TxState(t.db, []), Begin), b);
  }

  /** The events of the attempt that starts in a. */
  function AttemptLog(m: Machine, s: Stmt, a: State, f: nat): (es: seq<Event>) {
    var log := Exec(m, s, false, a, f).st.log;
    if |a.log| <= |log| then log[|a.log|..] else []
  }

  lemma AttemptEvents(m: Machine, s: Stmt, a: State, f: nat)
    requires a.err == None && TxFree(s) && OpsTxFree(m)
    ensures var es := AttemptLog(m, s, a, f);
      NoControl(es) && Exec(m, s, false, a, f).st.tx == Run(a.tx, es)
  {
    hide Exec, TxFree;
    ExecSound(true, m, s, false, a, f);
    NoControlIf(AttemptLog(m, s, a, f));
  }

  /** If there is neither TRY nor FOREACH, the attempt that succeeds commits its last write: none of them is lost. */
  lemma CommitsAllWrites(m: Machine, s: Stmt, db: Db, a: State, f: nat, r: Res)
    requires a.err == None && TxFree(s) && OpsTxFree(m) && IsCalm(s) && OpsCalm(m) && SucceededIn(m, s, db, a, f, r)
    ensures !HasLoss(AttemptLog(m, s, a, f)) && r.st.tx.db == LastWrite(AttemptLog(m, s, a, f), db)
  {
    AttemptEvents(m, s, a, f);
    ExecLossless(m, s, false, a, f);
    hide Exec, TxFree, OpsTxFree, IsCalm, OpsCalm;
    OnlyWrites(a.tx, AttemptLog(m, s, a, f));
  }

  /** In general it commits what the events after any loss lead to: all that was written before the loss is gone. */
  lemma CommitsAfterLoss(m: Machine, s: Stmt, db: Db, a: State, f: nat, r: Res, x: seq<Event>, e: Event, y: seq<Event>)
    requires a.err == None && TxFree(s) && OpsTxFree(m) && SucceededIn(m, s, db, a, f, r)
    requires AttemptLog(m, s, a, f) == x + [e] + y && IsLoss(e)
    ensures r.st.tx.db == Current(Run(Step(TxState(db, []), Begin), y))
  {
    hide Exec, TxFree, OpsTxFree, Run, SucceededIn, AttemptLog;
    AttemptEvents(m, s, a, f);
    SucceededEnds(m, s, db, a, f, r);
    NoControlAppended(x, [e] + y);
    NoControlAppended([e], y);
    assert x + [e] + y == x + ([e] + y);
    LossForgets(a.tx, x, e, y);
  }

  lemma {:induction false} StartsFresh(m: Machine, s: Stmt, st: State, fuel: nat, a: State, f: nat)
    requires st.err == None && Starts(m, s, st, fuel, a, f)
    ensures a.err == None
    decreases fuel
  {
    hide Attempt;
    var r := Attempt(m, s, true, st, fuel - 1);
    if Retried(r) && Starts(m, s, r.st.(err := None), fuel - 1, a, f) {
      StartsFresh(m, s, r.st.(err := None), fuel - 1, a, f);
    }
  }

  /** The attempt that starts in a succeeded, and the database is as its last write has left it. */
  ghost predicate CommittedAll(m: Machine, s: Stmt, st: State, fuel: nat, a: State, f: nat) {
    var r := ExecImplTx(m, s, true, st, fuel);
    Starts(m, s, ExecBegin(m, st).st, fuel, a, f) && SucceededIn(m, s, st.tx.db, a, f, r) &&
    r.st.tx == TxState(LastWrite(AttemptLog(m, s, a, f), st.tx.db), [])
  }

  /** So a statement without TRY and FOREACH that succeeds under an implicit transaction loses no write. */
  lemma ImplicitTxKeepsWrites(m: Machine, s: Stmt, st: State, fuel: nat)
    requires st.err == None && st.foreachs == [] && TxFree(s) && OpsTxFree(m) && st.tx.stack == [] && m.hasDb
    requires IsCalm(s) && OpsCalm(m) && ExecImplTx(m, s, true, st, fuel).out == OK
    ensures exists a, f :: CommittedAll(m, s, st, fuel, a, f)
  {
    ImplicitTxOnce(m, s, st, fuel);
    var b, r := ExecBegin(m, st), ExecImplTx(m, s, true, st, fuel);
    hide ExecBegin, ExecImplTx, Starts, SucceededIn;
    var a, f :| Starts(m, s, b.st, fuel, a, f) && SucceededIn(m, s, st.tx.db, a, f, r);
    BeginFresh(m, st);
    StartsFresh(m, s, b.st, fuel, a, f);
    CommitsAllWrites(m, s, st.tx.db, a, f, r);
    SucceededEnds(m, s, st.tx.db, a, f, r);
    assert CommittedAll(m, s, st, fuel, a, f);
  }

  lemma SucceededEnds(m: Machine, s: Stmt, db: Db, a: State, f: nat, r: Res)
    requires SucceededIn(m, s, db, a, f, r)
    ensures AtStart(a.tx, db) && r.st.tx == TxState(Current(Exec(m, s, false, a, f).st.tx), [])
  {
    hide Exec, ExecCommit;
  }

  lemma BeginFresh(m: Machine, st: State)
    requires st.err == None
    ensures ExecBegin(m, st).out == OK ==> ExecBegin(m, st).st.err == None
  {}

  /** A CATCH that handles a retryable error goes on, although the writes of the transaction are gone. */
  lemma CatchLosesUpdates(m: Machine, body: seq<Stmt>, name: Name, ro: bool, st: State, fuel: nat)
    requires st.err == None
    requires var r := ExecStmts(m, body, ro, Enter(st, map[]), fuel);
      r.out == ERROR && r.st.err.Some? && r.st.err.value.retryable
    ensures var r := Exec(m, Try(body, [Catch(name, None, [])]), ro, st, fuel);
      r.out == OK && r.st.err == None && r.st.tx.stack != [] && Current(r.st.tx) == Below(r.st.tx)
  {
    StmtsSound(false, m, body, ro, Enter(st, map[]), fuel);
    var r := Exited(ExecStmts(m, body, ro, Enter(st, map[]), fuel));
    var c := Catch(name, None, []);
    assert Exec(m, Try(body, [c]), ro, st, fuel) == ExecCatches(m, [c], ro, r.st, fuel);
    EmptyCatch(m, name, ro, r.st, fuel);
  }

  lemma EmptyCatch(m: Machine, name: Name, ro: bool, st: State, fuel: nat)
    requires st.err.Some?
    ensures var r := ExecCatches(m, [Catch(name, None, [])], ro, st, fuel);
      r.out == OK && r.st.err == None && r.st.tx == st.tx
  {
    var c := Catch(name, None, []);
    assert ExecCatches(m, [c], ro, st, fuel) == ExecCatch(m, c, ro, st, fuel);
    var st1 := Enter(Alloc(st, ErrorVal(st.err.value.typ)), map[name := Entry(|st.store|, false)]);
    var st2 := st1.(retryable := st.err.value.retryable, err := None);
    assert ExecStmts(m, [], ro, st2, fuel) == Res(OK, st2);
    assert ExecCatch(m, c, ro, st, fuel) == Exited(Res(OK, st2));
  }
}
