/**
 * Fuel bounds iterations and operator calls; a result that does not lack fuel does not depend on it.
 */
module Fuel {
  import opened ByteStrings
  import opened Options
  import opened TxStack
  import opened Statements

  /** r' is what r becomes with more fuel. */
  predicate Settled(r: Res, r': Res) {
    r.out != SPENT ==> r' == r
  }

  lemma {:induction false} ExecSettled(m: Machine, s: Stmt, ro: bool, st: State, f: nat, g: nat)
    requires f <= g
    ensures Settled(Exec(m, s, ro, st, f), Exec(m, s, ro, st, g))
    decreases f, 1, s, 2
  {
    hide EvalBool, Step, Lookup, Visible, ExecStmts, ExecCase, ExecWhile, ExecFor, ExecForeach, ExecCatches,
      ExecCall, ExecAssignOp;
    hide ExecVarDef, ExecVarDrop, ExecAssign, ExecUpdate, ExecReturn, ExecBegin, ExecCommit, ExecRollback;
    match s
    case Block(body) => StmtsSettled(m, body, ro, st, f, g);
    case If(cond, body, els) =>
      var st' := Enter(EvalBool(m, cond, st).st, map[]);
      StmtsSettled(m, body, ro, st', f, g);
      StmtsSettled(m, els, ro, st', f, g);
    case Case(whens, els) => CaseSettled(m, s, 0, ro, st, f, g);
    case While(lab, cond, body) => WhileSettled(m, lab, cond, body, ro, st, f, g);
    case For(lab, name, first, last, body) => ForSettled(m, s, ro, st, f, g);
    case Foreach(lab, name, table, body) => ForeachSettled(m, s, ro, st, f, g);
    case Try(body, catches) =>
      StmtsSettled(m, body, ro, Enter(st, map[]), f, g);
      var r := Exited(ExecStmts(m, body, ro, Enter(st, map[]), f));
      if r.out == ERROR && r.st.err.Some? {
        CatchesSettled(m, catches, ro, r.st, f, g);
      }
    case AssignOp(name, op, exps) => AssignOpSettled(m, name, op, exps, st, f, g);
    case Call(op, args) => CallSettled(m, op, args, st, f, g);
    case _ =>
  }

  lemma {:induction false} StmtsSettled(m: Machine, ss: seq<Stmt>, ro: bool, st: State, f: nat, g: nat)
    requires f <= g
    ensures Settled(ExecStmts(m, ss, ro, st, f), ExecStmts(m, ss, ro, st, g))
    decreases f, 1, ss, 0
  {
    hide Exec;
    if ss != [] {
      ExecSettled(m, ss[0], ro, st, f, g);
      var r := Exec(m, ss[0], ro, st, f);
      if r.out == OK {
        StmtsSettled(m, ss[1..], ro, r.st, f, g);
      }
    }
  }

  lemma {:induction false} CaseSettled(m: Machine, s: Stmt, i: nat, ro: bool, st: State, f: nat, g: nat)
    requires s.Case? && i <= |s.whens| && f <= g
    ensures Settled(ExecCase(m, s, i, ro, st, f), ExecCase(m, s, i, ro, st, g))
    decreases f, 1, s, 1, |s.whens| - i
  {
    hide ExecStmts, EvalBool;
    if i == |s.whens| {
      StmtsSettled(m, s.els, ro, Enter(st, map[]), f, g);
    } else {
      var c := EvalBool(m, s.whens[i].cond, st);
      StmtsSettled(m, s.whens[i].body, ro, Enter(c.st, map[]), f, g);
      CaseSettled(m, s, i + 1, ro, c.st, f, g);
    }
  }

  lemma {:induction false} WhileSettled(m: Machine, lab: Option<Name>, cond: Exp, body: seq<Stmt>, ro: bool, st: State,
                                        f: nat, g: nat)
    requires f <= g
    ensures Settled(ExecWhile(m, lab, cond, body, ro, st, f), ExecWhile(m, lab, cond, body, ro, st, g))
    decreases f, 1, body, 2
  {
    hide ExecStmts, EvalBool;
    if f > 0 {
      var c := EvalBool(m, cond, st);
      StmtsSettled(m, body, ro, Enter(c.st, map[]), f - 1, g - 1);
      var r := ExecStmts(m, body, ro, Enter(c.st, map[]), f - 1);
      WhileSettled(m, lab, cond, body, ro, Exit(r.st), f - 1, g - 1);
    }
  }

  lemma {:induction false} ForSettled(m: Machine, s: Stmt, ro: bool, st: State, f: nat, g: nat)
    requires s.For? && f <= g
    ensures Settled(ExecFor(m, s, ro, st, f), ExecFor(m, s, ro, st, g))
    decreases f, 1, s, 1
  {
    hide Evaluate, EvalInt, ForLoop, Lookup;
    var e := Find(st, s.name);
    if e.Some? {
      var v := Evaluate(m, s.first, st);
      if v.val.Some? {
        var w := EvalInt(m, s.last, Set(v.st, e.value.loc, v.val.value));
        if w.val.Some? {
          ForLoopSettled(m, s.lab, s.name, e.value.loc, w.val.value.i, s.body, ro, w.st, f, g);
        }
      }
    }
  }

  lemma {:induction false} ForLoopSettled(m: Machine, lab: Option<Name>, name: Name, loc: nat, last: int,
                                          body: seq<Stmt>, ro: bool, st: State, f: nat, g: nat)
    requires f <= g
    ensures Settled(ForLoop(m, lab, name, loc, last, body, ro, st, f), ForLoop(m, lab, name, loc, last, body, ro, st,
      g))
    decreases f, 1, body, 2
  {
    hide ExecStmts, Lookup;
    if f > 0 {
      StmtsSettled(m, body, ro, Enter(st, map[]), f - 1, g - 1);
      var st' := Exit(ExecStmts(m, body, ro, Enter(st, map[]), f - 1).st);
      var e := Find(st', name);
      if e.Some? && ValueAt(st'.store, e.value.loc).Int? {
        ForLoopSettled(m, lab, name, e.value.loc, last, body, ro,
          Set(st', e.value.loc, Int(ValueAt(st'.store, e.value.loc).i + 1)), f - 1, g - 1);
      }
    }
  }

  lemma {:induction false} ForeachSettled(m: Machine, s: Stmt, ro: bool, st: State, f: nat, g: nat)
    requires s.Foreach? && f <= g
    ensures Settled(ExecForeach(m, s, ro, st, f), ExecForeach(m, s, ro, st, g))
    decreases f, 1, s, 1
  {
    hide ForeachLoop, Lookup, Visible;
    var e := Find(st, s.name);
    match m.rows(s.table, Env(st), View(st), st.clock)
    case Err(_) =>
    case Ok(rows) =>
      if e.Some? {
        ForeachLoopSettled(m, s.lab, s.name, e.value.loc, s.body, ro, Tick(st).(foreachs := [rows] + st.foreachs), f,
          g);
      }
  }

  lemma {:induction false} ForeachLoopSettled(m: Machine, lab: Option<Name>, name: Name, loc: nat, body: seq<Stmt>,
                                              ro: bool, st: State, f: nat, g: nat)
    requires f <= g
    ensures Settled(ForeachLoop(m, lab, name, loc, body, ro, st, f), ForeachLoop(m, lab, name, loc, body, ro, st, g))
    decreases f, 1, body, 2
  {
    hide ExecStmts, Lookup, NextRow, DbFail;
    if f > 0 && st.foreachs != [] && st.foreachs[0] != [] {
      var st1 := Enter(NextRow(st, loc), map[]);
      StmtsSettled(m, body, ro, st1, f - 1, g - 1);
      var st' := Exit(ExecStmts(m, body, ro, st1, f - 1).st);
      var e := Find(st', name);
      if e.Some? {
        ForeachLoopSettled(m, lab, name, e.value.loc, body, ro, st', f - 1, g - 1);
      }
    }
  }

  lemma {:induction false} CatchesSettled(m: Machine, catches: seq<Catch>, ro: bool, st: State, f: nat, g: nat)
    requires st.err.Some? && f <= g
    ensures Settled(ExecCatches(m, catches, ro, st, f), ExecCatches(m, catches, ro, st, g))
    decreases f, 1, catches, 1
  {
    hide ExecStmts;
    if catches != [] {
      var c := catches[0];
      var st1 := Enter(Alloc(st, ErrorVal(st.err.value.typ)), map[c.name := Entry(|st.store|, false)]);
      StmtsSettled(m, c.body, ro, st1.(retryable := st.err.value.retryable, err := None), f, g);
      CatchesSettled(m, catches[1..], ro, st, f, g);
    }
  }

  lemma {:induction false} InvokeSettled(m: Machine, name: Name, op: Operator, refs: seq<Ref>, st: State, f: nat,
                                         g: nat)
    requires |refs| == |op.params| && f <= g
    ensures Settled(InvokeUpdateOp(m, name, op, refs, st, f), InvokeUpdateOp(m, name, op, refs, st, g))
    ensures Settled(InvokeRoOp(m, name, op, refs, st, f), InvokeRoOp(m, name, op, refs, st, g))
    decreases f, 0, 0
  {
    hide ExecStmts, ParamScope;
    if f > 0 {
      var st' := st.(scopes := [ParamScope(op.params, refs)], innerOp := Some(name));
      StmtsSettled(m, op.body, op.readOnly, st', f - 1, g - 1);
    }
  }

  lemma {:induction false} CallSettled(m: Machine, name: Name, args: seq<Arg>, st: State, f: nat, g: nat)
    requires f <= g
    ensures Settled(ExecCall(m, name, args, st, f), ExecCall(m, name, args, st, g))
    decreases f, 0, 1
  {
    hide EvalArgs, InvokeUpdateOp;
    var a := EvalArgs(m, args, [], st);
    var n := if a.refs.Some? then FindOp(m, name, a.st.innerOp, |a.refs.value|) else None;
    if n.Some? {
      InvokeSettled(m, n.value, m.ops[n.value], a.refs.value, a.st, f, g);
    }
  }

  lemma {:induction false} AssignOpSettled(m: Machine, name: Name, op: Name, exps: seq<Exp>, st: State, f: nat, g: nat)
    requires f <= g
    ensures Settled(ExecAssignOp(m, name, op, exps, st, f), ExecAssignOp(m, name, op, exps, st, g))
    decreases f, 0, 1
  {
    hide EvalArgs, InvokeRoOp, Store;
    var a := EvalArgs(m, seq(|exps|, i requires 0 <= i < |exps| => ExpArg(exps[i])), [], st);
    if a.refs.Some? && HasOp(m, op, true, |a.refs.value|) {
      InvokeSettled(m, op, m.ops[op], a.refs.value, a.st, f, g);
    }
  }
}
