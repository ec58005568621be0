/**
 * Where LEAVE and RETURN go (dli/interp_stmt.c), and the programs in which the interpreter never follows a null
 * pointer on the way.
 */
module Leaving {
  import opened ByteStrings
  import opened Options
  import opened TxStack
  import opened Statements

  /**
   * LEAVE with this target in s can end s: the target is not that of a WHILE or FOR loop around it, and there is
   * no FOREACH loop around it.
   */
  predicate Leaves(s: Stmt, t: Option<Name>)
    decreases s, 1
  {
    match s
    case Leave(target) => t == target
    case Block(body) => AnyLeaves(body, t)
    case If(_, body, els) => AnyLeaves(body, t) || AnyLeaves(els, t)
    case Case(whens, els) => AnyLeaves(els, t) || exists i :: 0 <= i < |whens| && AnyLeaves(whens[i].body, t)
    case While(lab, _, body) => t != lab && t.Some? && AnyLeaves(body, t)
    case For(lab, _, _, _, body) => t != lab && t.Some? && AnyLeaves(body, t)
    case Try(body, catches) => AnyLeaves(body, t) || exists i :: 0 <= i < |catches| && AnyLeaves(catches[i].body, t)
    case _ => false
  }

  predicate AnyLeaves(ss: seq<Stmt>, t: Option<Name>)
    decreases ss, 0
  {
    ss != [] && (Leaves(ss[0], t) || AnyLeaves(ss[1..], t))
  }

  /** RETURN in s can end s: there is no FOREACH loop around it. */
  predicate Returns(s: Stmt)
    decreases s, 1
  {
    match s
    case Return(_) => true
    case Block(body) => AnyReturns(body)
    case If(_, body, els) => AnyReturns(body) || AnyReturns(els)
    case Case(whens, els) => AnyReturns(els) || exists i :: 0 <= i < |whens| && AnyReturns(whens[i].body)
    case While(_, _, body) => AnyReturns(body)
    case For(_, _, _, _, body) => AnyReturns(body)
    case Try(body, catches) => AnyReturns(body) || exists i :: 0 <= i < |catches| && AnyReturns(catches[i].body)
    case _ => false
  }

  predicate AnyReturns(ss: seq<Stmt>)
    decreases ss, 0
  {
    ss != [] && (Returns(ss[0]) || AnyReturns(ss[1..]))
  }

  /** LEAVE without a target is not in a loop with a label, and RETURN is not in a FOREACH loop. */
  predicate Safe(s: Stmt)
    decreases s, 1
  {
    match s
    case Block(body) => AllSafe(body)
    case If(_, body, els) => AllSafe(body) && AllSafe(els)
    case Case(whens, els) => AllSafe(els) && forall i :: 0 <= i < |whens| ==> AllSafe(whens[i].body)
    case While(lab, _, body) => AllSafe(body) && SafeLoop(lab, body)
    case For(lab, _, _, _, body) => AllSafe(body) && SafeLoop(lab, body)
    case Foreach(lab, _, _, body) => AllSafe(body) && SafeLoop(lab, body) && !AnyReturns(body)
    case Try(body, catches) => AllSafe(body) && forall i :: 0 <= i < |catches| ==> AllSafe(catches[i].body)
    case _ => true
  }

  predicate AllSafe(ss: seq<Stmt>)
    decreases ss, 0
  {
    ss == [] || (Safe(ss[0]) && AllSafe(ss[1..]))
  }

  predicate SafeLoop(lab: Option<Name>, body: seq<Stmt>) {
    lab.Some? ==> !AnyLeaves(body, None)
  }

  predicate OpsSafe(m: Machine) {
    forall n :: n in m.ops ==> AllSafe(m.ops[n].body)
  }

  /** No null pointer was followed, and a failure has raised an error. */
  predicate Decent(r: Res) {
    r.out != UNDEFINED(NullTarget) && r.out != UNDEFINED(NullError) && (r.out == ERROR ==> r.st.err.Some?)
  }

  /** What s can do to the statements around it. */
  ghost predicate StmtContained(safe: bool, s: Stmt, r: Res) {
    (r.out == LEAVE ==> Leaves(s, r.st.leave)) && (r.out == RETURN ==> Returns(s)) && (safe ==> Decent(r))
  }

  ghost predicate Contained(safe: bool, ss: seq<Stmt>, r: Res) {
    (r.out == LEAVE ==> AnyLeaves(ss, r.st.leave)) && (r.out == RETURN ==> AnyReturns(ss)) && (safe ==> Decent(r))
  }

  /** The same for a loop, whose own label does not get out. */
  ghost predicate LoopContained(safe: bool, lab: Option<Name>, body: seq<Stmt>, r: Res) {
    (r.out == LEAVE ==> r.st.leave != lab && r.st.leave.Some? && AnyLeaves(body, r.st.leave)) &&
    (r.out == RETURN ==> AnyReturns(body)) && (safe ==> Decent(r))
  }

  lemma EvalFails(m: Machine, e: Exp, st: State)
    ensures Evaluate(m, e, st).val.None? ==> Evaluate(m, e, st).st.err.Some?
    ensures EvalBool(m, e, st).val.None? ==> EvalBool(m, e, st).st.err.Some?
    ensures EvalInt(m, e, st).val.None? ==> EvalInt(m, e, st).st.err.Some?
  {
    hide Visible, Step;
  }

  lemma TxDecent(m: Machine, st: State)
    ensures Decent(ExecBegin(m, st)) && ExecBegin(m, st).out in {OK, ERROR}
    ensures Decent(ExecCommit(m, st)) && ExecCommit(m, st).out in {OK, ERROR}
    ensures Decent(ExecRollback(m, st)) && ExecRollback(m, st).out in {OK, ERROR}
  {
    hide Step;
  }

  predicate Simple(r: Res) {
    Decent(r) && r.out in {OK, ERROR}
  }

  lemma VarDecent(m: Machine, name: Name, exp: Exp, fixed: bool, st: State)
    ensures Simple(ExecVarDef(m, name, exp, fixed, st)) && Simple(ExecAssign(m, name, exp, st)) &&
      Simple(ExecUpdate(m, exp, st))
  {
    EvalFails(m, exp, st);
    hide Evaluate, Lookup, Step, Visible;
  }

  lemma DropDecent(m: Machine, name: Name, st: State)
    ensures Simple(ExecVarDrop(m, name, st))
  {
    hide Step;
  }

  /** Statements without statements in them end normally or raise an error, but for LEAVE and RETURN. */
  lemma SimpleDecent(m: Machine, s: Stmt, ro: bool, st: State, fuel: nat)
    requires s.Skip? || s.Raise? || s.VarDef? || s.VarDrop? || s.Assign? || s.Update? || s.BeginTx? || s.CommitTx? ||
             s.RollbackTx?
    ensures Simple(Exec(m, s, ro, st, fuel))
  {
    hide ExecStmts, ExecCase, ExecWhile, ExecFor, ExecForeach, ExecCatches, ExecCall, ExecAssignOp, ExecBegin,
      ExecCommit, ExecRollback, ExecVarDef, ExecVarDrop, ExecAssign, ExecUpdate;
    TxDecent(m, st);
    match s
    case VarDef(name, init, fixed) => VarDecent(m, name, init, fixed, st);
    case Assign(name, exp) => VarDecent(m, name, exp, false, st);
    case Update(u) => VarDecent(m, [], u, false, st);
    case VarDrop(name) => DropDecent(m, name, st);
    case _ =>
  }

  lemma {:induction false} ArgsFail(m: Machine, args: seq<Arg>, done: seq<Ref>, st: State)
    ensures EvalArgs(m, args, done, st).refs.None? ==> EvalArgs(m, args, done, st).st.err.Some?
    decreases |args|
  {
    hide Visible, Step, Lookup;
    if args != [] {
      var a := EvalArg(m, args[0], st);
      if a.refs.Some? {
        ArgsFail(m, args[1..], done + a.refs.value, a.st);
      }
    }
  }

  // ----- All statements -----

  /**
   * A statement ends with LEAVE only for the target of a LEAVE in it that no WHILE or FOR loop with that label
   * and no FOREACH loop surrounds: LEAVE ends at the nearest loop with its label, or at a FOREACH loop before.
   * If neither a LEAVE without a target is in a loop with a label nor a RETURN in a FOREACH loop, no null pointer
   * is followed and every failure has raised an error.
   */
  lemma {:induction false} ExecContained(safe: bool, m: Machine, s: Stmt, ro: bool, st: State, fuel: nat)
    requires safe ==> OpsSafe(m) && Safe(s)
    ensures StmtContained(safe, s, Exec(m, s, ro, st, fuel))
    decreases fuel, 1, s, 2
  {
    hide AllSafe, AnyLeaves, AnyReturns, OpsSafe, EvalBool, ExecStmts, ExecCase, ExecWhile, ExecFor, ExecForeach,
      ExecCatches;
    hide ExecCall, ExecAssignOp, Decent, ExecVarDef, ExecVarDrop, ExecAssign, ExecUpdate, ExecReturn, ExecBegin,
      ExecCommit, ExecRollback;
    match s
    case Block(body) => StmtsContained(safe, m, body, ro, st, fuel);
    case If(cond, body, els) => IfContained(safe, m, s, ro, st, fuel);
    case Case(whens, els) => CaseContained(safe, m, s, 0, ro, st, fuel);
    case While(lab, cond, body) => WhileContained(safe, m, lab, cond, body, ro, st, fuel);
    case For(lab, name, first, last, body) => ForContained(safe, m, s, ro, st, fuel);
    case Foreach(lab, name, table, body) => ForeachContained(safe, m, s, ro, st, fuel);
    case Try(body, catches) => TryContained(safe, m, s, ro, st, fuel);
    case AssignOp(name, op, exps) => AssignOpContained(safe, m, name, op, exps, st, fuel);
    case Call(op, args) => CallContained(safe, m, op, args, st, fuel);
    case Leave(_) => LeaveDecent(m, s, ro, st, fuel);
    case Return(_) => ReturnDecent(m, s, ro, st, fuel);
    case _ => SimpleDecent(m, s, ro, st, fuel);
  }

  lemma LeaveDecent(m: Machine, s: Stmt, ro: bool, st: State, fuel: nat)
    requires s.Leave?
    ensures Decent(Exec(m, s, ro, st, fuel))
  {}

  lemma ReturnDecent(m: Machine, s: Stmt, ro: bool, st: State, fuel: nat)
    requires s.Return?
    ensures Decent(Exec(m, s, ro, st, fuel)) && Exec(m, s, ro, st, fuel).out in {RETURN, ERROR}
  {
    hide Evaluate;
    if s.exp.Some? {
      EvalFails(m, s.exp.value, st);
    }
  }

  lemma {:induction false} StmtsContained(safe: bool, m: Machine, ss: seq<Stmt>, ro: bool, st: State, fuel: nat)
    requires safe ==> OpsSafe(m) && AllSafe(ss)
    ensures Contained(safe, ss, ExecStmts(m, ss, ro, st, fuel))
    decreases fuel, 1, ss, 0
  {
    hide Exec, Leaves, Returns, Safe, OpsSafe;
    if ss != [] {
      ExecContained(safe, m, ss[0], ro, st, fuel);
      var r := Exec(m, ss[0], ro, st, fuel);
      if r.out == OK {
        StmtsContained(safe, m, ss[1..], ro, r.st, fuel);
      }
    }
  }

  lemma {:induction false} IfContained(safe: bool, m: Machine, s: Stmt, ro: bool, st: State, fuel: nat)
    requires s.If? && (safe ==> OpsSafe(m) && Safe(s))
    ensures StmtContained(safe, s, Exec(m, s, ro, st, fuel))
    decreases fuel, 1, s, 1
  {
    hide EvalBool, ExecStmts, OpsSafe;
    EvalFails(m, s.cond, st);
    var c := EvalBool(m, s.cond, st);
    StmtsContained(safe, m, s.body, ro, Enter(c.st, map[]), fuel);
    StmtsContained(safe, m, s.els, ro, Enter(c.st, map[]), fuel);
  }

  lemma {:induction false} CaseContained(safe: bool, m: Machine, s: Stmt, i: nat, ro: bool, st: State, fuel: nat)
    requires s.Case? && i <= |s.whens| && (safe ==> OpsSafe(m) && Safe(s))
    ensures StmtContained(safe, s, ExecCase(m, s, i, ro, st, fuel))
    decreases fuel, 1, s, 1, |s.whens| - i
  {
    hide EvalBool, ExecStmts, OpsSafe;
    if i == |s.whens| {
      StmtsContained(safe, m, s.els, ro, Enter(st, map[]), fuel);
    } else {
      EvalFails(m, s.whens[i].cond, st);
      var c := EvalBool(m, s.whens[i].cond, st);
      StmtsContained(safe, m, s.whens[i].body, ro, Enter(c.st, map[]), fuel);
      CaseContained(safe, m, s, i + 1, ro, c.st, fuel);
    }
  }

  lemma {:induction false} WhileContained(safe: bool, m: Machine, lab: Option<Name>, cond: Exp, body: seq<Stmt>,
                                          ro: bool, st: State, fuel: nat)
    requires safe ==> OpsSafe(m) && AllSafe(body) && SafeLoop(lab, body)
    ensures LoopContained(safe, lab, body, ExecWhile(m, lab, cond, body, ro, st, fuel))
    decreases fuel, 1, body, 2
  {
    hide EvalBool, ExecStmts, OpsSafe, AllSafe, AnyLeaves, AnyReturns;
    if fuel > 0 {
      EvalFails(m, cond, st);
      var c := EvalBool(m, cond, st);
      StmtsContained(safe, m, body, ro, Enter(c.st, map[]), fuel - 1);
      var r := ExecStmts(m, body, ro, Enter(c.st, map[]), fuel - 1);
      WhileContained(safe, m, lab, cond, body, ro, Exit(r.st), fuel - 1);
    }
  }

  lemma {:induction false} ForContained(safe: bool, m: Machine, s: Stmt, ro: bool, st: State, fuel: nat)
    requires s.For? && (safe ==> OpsSafe(m) && Safe(s))
    ensures LoopContained(safe, s.lab, s.body, ExecFor(m, s, ro, st, fuel))
    decreases fuel, 1, s, 1
  {
    hide Evaluate, EvalInt, ForLoop, OpsSafe, AllSafe, AnyLeaves, AnyReturns;
    EvalFails(m, s.first, st);
    var e, v := Find(st, s.name), Evaluate(m, s.first, st);
    if e.Some? && v.val.Some? {
      var st1 := Set(v.st, e.value.loc, v.val.value);
      EvalFails(m, s.last, st1);
      var w := EvalInt(m, s.last, st1);
      if w.val.Some? {
        ForLoopContained(safe, m, s.lab, s.name, e.value.loc, w.val.value.i, s.body, ro, w.st, fuel);
      }
    }
  }

  lemma {:induction false} ForLoopContained(safe: bool, m: Machine, lab: Option<Name>, name: Name, loc: nat, last: int,
                                            body: seq<Stmt>, ro: bool, st: State, fuel: nat)
    requires safe ==> OpsSafe(m) && AllSafe(body) && SafeLoop(lab, body)
    ensures LoopContained(safe, lab, body, ForLoop(m, lab, name, loc, last, body, ro, st, fuel))
    decreases fuel, 1, body, 2
  {
    hide ExecStmts, OpsSafe, AllSafe, AnyLeaves, AnyReturns, ForNext;
    if fuel > 0 {
      StmtsContained(safe, m, body, ro, Enter(st, map[]), fuel - 1);
      var r := ExecStmts(m, body, ro, Enter(st, map[]), fuel - 1);
      ForNextContained(safe, m, lab, name, last, body, ro, Exit(r.st), fuel - 1);
    }
  }

  lemma {:induction false} ForNextContained(safe: bool, m: Machine, lab: Option<Name>, name: Name, last: int,
                                            body: seq<Stmt>, ro: bool, st: State, fuel: nat)
    requires safe ==> OpsSafe(m) && AllSafe(body) && SafeLoop(lab, body)
    ensures LoopContained(safe, lab, body, ForNext(m, lab, name, last, body, ro, st, fuel))
    decreases fuel, 1, body, 3
  {
    hide ForLoop, OpsSafe, AllSafe, AnyLeaves, AnyReturns;
    var e := Find(st, name);
    if e.Some? && ValueAt(st.store, e.value.loc).Int? {
      ForLoopContained(safe, m, lab, name, e.value.loc, last, body, ro,
        Set(st, e.value.loc, Int(ValueAt(st.store, e.value.loc).i + 1)), fuel);
    }
  }

  lemma {:induction false} ForeachContained(safe: bool, m: Machine, s: Stmt, ro: bool, st: State, fuel: nat)
    requires s.Foreach? && (safe ==> OpsSafe(m) && Safe(s))
    ensures var r := ExecForeach(m, s, ro, st, fuel); r.out != LEAVE && r.out != RETURN && (safe ==> Decent(r))
    decreases fuel, 1, s, 1
  {
    hide ForeachLoop, Visible, OpsSafe, AllSafe, AnyLeaves, AnyReturns;
    match m.rows(s.table, Env(st), View(st), st.clock)
    case Err(_) =>
    case Ok(rows) =>
      var e := Find(st, s.name);
      if e.Some? {
        ForeachLoopContained(safe, m, s.lab, s.name, e.value.loc, s.body, ro,
          Tick(st).(foreachs := [rows] + st.foreachs), fuel);
      }
  }

  lemma {:induction false} ForeachLoopContained(safe: bool, m: Machine, lab: Option<Name>, name: Name, loc: nat,
                                                body: seq<Stmt>, ro: bool, st: State, fuel: nat)
    requires safe ==> OpsSafe(m) && AllSafe(body) && SafeLoop(lab, body) && !AnyReturns(body)
    ensures var r := ForeachLoop(m, lab, name, loc, body, ro, st, fuel);
      r.out != LEAVE && r.out != RETURN && (safe ==> Decent(r))
    decreases fuel, 1, body, 2
  {
    hide ExecStmts, ForeachNext, NextRow, DbFail, OpsSafe, AllSafe, AnyLeaves, AnyReturns;
    if fuel > 0 && st.foreachs != [] && st.foreachs[0] != [] {
      var st1 := NextRow(st, loc);
      StmtsContained(safe, m, body, ro, Enter(st1, map[]), fuel - 1);
      var r := Exited(ExecStmts(m, body, ro, Enter(st1, map[]), fuel - 1));
      ForeachNextContained(safe, m, lab, name, body, ro, r, fuel - 1);
    }
  }

  lemma {:induction false} ForeachNextContained(safe: bool, m: Machine, lab: Option<Name>, name: Name, body: seq<Stmt>,
                                                ro: bool, r: Res, fuel: nat)
    requires safe ==> OpsSafe(m) && AllSafe(body) && SafeLoop(lab, body) && !AnyReturns(body)
    requires Contained(safe, body, r)
    ensures var r' := ForeachNext(m, lab, name, body, ro, r, fuel);
      r'.out != LEAVE && r'.out != RETURN && (safe ==> Decent(r'))
    decreases fuel, 1, body, 3
  {
    hide ForeachLoop, OpsSafe, AllSafe, AnyLeaves, AnyReturns;
    var e := Find(r.st, name);
    if r.out == OK && e.Some? {
      ForeachLoopContained(safe, m, lab, name, e.value.loc, body, ro, r.st, fuel);
    }
  }

  lemma {:induction false} TryContained(safe: bool, m: Machine, s: Stmt, ro: bool, st: State, fuel: nat)
    requires s.Try? && (safe ==> OpsSafe(m) && Safe(s))
    ensures StmtContained(safe, s, Exec(m, s, ro, st, fuel))
    decreases fuel, 1, s, 1
  {
    hide ExecStmts, ExecCatches, OpsSafe, AllSafe;
    StmtsContained(safe, m, s.body, ro, Enter(st, map[]), fuel);
    var r := Exited(ExecStmts(m, s.body, ro, Enter(st, map[]), fuel));
    if r.out == ERROR && r.st.err.Some? {
      CatchesContained(safe, m, s.catches, ro, r.st, fuel);
    }
  }

  lemma {:induction false} CatchesContained(safe: bool, m: Machine, catches: seq<Catch>, ro: bool, st: State, fuel: nat)
    requires st.err.Some? && (safe ==> OpsSafe(m) && forall k :: 0 <= k < |catches| ==> AllSafe(catches[k].body))
    ensures var r := ExecCatches(m, catches, ro, st, fuel);
      (r.out == LEAVE ==> exists k :: 0 <= k < |catches| && AnyLeaves(catches[k].body, r.st.leave)) &&
      (r.out == RETURN ==> exists k :: 0 <= k < |catches| && AnyReturns(catches[k].body)) && (safe ==> Decent(r))
    decreases fuel, 1, catches, 1
  {
    hide ExecStmts, OpsSafe, AllSafe, AnyLeaves, AnyReturns;
    if catches != [] {
      var c := catches[0];
      var st1 := Enter(Alloc(st, ErrorVal(st.err.value.typ)), map[c.name := Entry(|st.store|, false)]);
      StmtsContained(safe, m, c.body, ro, st1.(retryable := st.err.value.retryable, err := None), fuel);
      CatchesContained(safe, m, catches[1..], ro, st, fuel);
    }
  }

  // ----- Operators -----

  /** An operator ends normally or with an error, whatever its body does. */
  lemma {:induction false} InvokeContained(safe: bool, m: Machine, name: Name, refs: seq<Ref>, st: State, fuel: nat)
    requires name in m.ops && |refs| == |m.ops[name].params| && (safe ==> OpsSafe(m))
    ensures var r := InvokeUpdateOp(m, name, m.ops[name], refs, st, fuel);
      r.out != LEAVE && r.out != RETURN && (safe ==> Decent(r))
    ensures var r := InvokeRoOp(m, name, m.ops[name], refs, st, fuel);
      r.out != LEAVE && r.out != RETURN && (safe ==> Decent(r))
    decreases fuel, 0, 0
  {
    hide ExecStmts, ParamScope, AllSafe, AnyLeaves, AnyReturns;
    if fuel > 0 {
      var op := m.ops[name];
      StmtsContained(safe, m, op.body, op.readOnly, st.(scopes := [ParamScope(op.params, refs)],
        innerOp := Some(name)), fuel - 1);
    }
  }

  lemma {:induction false} CallContained(safe: bool, m: Machine, name: Name, args: seq<Arg>, st: State, fuel: nat)
    requires safe ==> OpsSafe(m)
    ensures var r := ExecCall(m, name, args, st, fuel); r.out != LEAVE && r.out != RETURN && (safe ==> Decent(r))
    decreases fuel, 0, 1
  {
    hide EvalArgs, InvokeUpdateOp, OpsSafe;
    ArgsFail(m, args, [], st);
    var a := EvalArgs(m, args, [], st);
    var n := if a.refs.Some? then FindOp(m, name, a.st.innerOp, |a.refs.value|) else None;
    if n.Some? {
      InvokeContained(safe, m, n.value, a.refs.value, a.st, fuel);
    }
  }

  lemma {:induction false} AssignOpContained(safe: bool, m: Machine, name: Name, op: Name, exps: seq<Exp>, st: State,
                                             fuel: nat)
    requires safe ==> OpsSafe(m)
    ensures var r := ExecAssignOp(m, name, op, exps, st, fuel);
      r.out != LEAVE && r.out != RETURN && (safe ==> Decent(r))
    decreases fuel, 0, 1
  {
    hide EvalArgs, InvokeRoOp, OpsSafe, Lookup;
    var args := seq(|exps|, i requires 0 <= i < |exps| => ExpArg(exps[i]));
    ArgsFail(m, args, [], st);
    var a := EvalArgs(m, args, [], st);
    if a.refs.Some? && HasOp(m, op, true, |a.refs.value|) {
      InvokeContained(safe, m, op, a.refs.value, a.st, fuel);
    }
  }

  // ----- Where the code does not do what the language promises -----

  /** LEAVE without a target in a loop with a label compares a null pointer with the label. */
  lemma BareLeaveInLabelledLoop(m: Machine, l: Name, cond: Exp, ro: bool, st: State, fuel: nat)
    requires fuel > 0 && EvalBool(m, cond, st).val == Some(Bool(true))
    ensures Exec(m, While(Some(l), cond, [Leave(None)]), ro, st, fuel).out == UNDEFINED(NullTarget)
  {
    var c := EvalBool(m, cond, st);
    hide EvalBool;
    var st1 := Enter(c.st, map[]);
    assert Exec(m, Leave(None), ro, st1, fuel - 1) == Res(LEAVE, st1.(leave := None));
    assert ExecStmts(m, [Leave(None)], ro, st1, fuel - 1) == Res(LEAVE, st1.(leave := None));
    assert Exec(m, While(Some(l), cond, [Leave(None)]), ro, st, fuel) ==
      ExecWhile(m, Some(l), cond, [Leave(None)], ro, st, fuel);
  }

  /**
   * A retryable error while FOREACH fetches a tuple resets the transaction, but then the error is cleared: the
   * loop ends normally, and what the transaction had done before is lost.
   */
  lemma FetchErrorLosesUpdates(m: Machine, lab: Option<Name>, name: Name, loc: nat, body: seq<Stmt>, ro: bool,
                               st: State, fuel: nat)
    requires fuel > 0 && m.fetch(st.clock).Some? && m.fetch(st.clock).value.retryable && Running(st.tx)
    ensures var r := ForeachLoop(m, lab, name, loc, body, ro, st, fuel);
      r.out == OK && r.st.err == None && Current(r.st.tx) == Below(r.st.tx)
  {
    BackToParent(Tick(st), m.fetch(st.clock).value);
    hide DbFail, ExecStmts, ForeachNext;
  }

  lemma BackToParent(st: State, e: Error)
    requires e.retryable && Running(st.tx)
    ensures Current(DbFail(st, e).tx) == Below(DbFail(st, e).tx)
  {}
}
