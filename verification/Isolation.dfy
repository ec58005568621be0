/**
 * A called operator and the local variables of its caller (dli/interp_stmt.c): what it does does not depend on
 * the value at a location that no visible variable has, and it leaves that value alone.
 */
module Isolation {
  import opened ByteStrings
  import opened Options
  import opened TxStack
  import opened Statements

  predicate ScopeAvoids(s: Scope, l: nat) {
    forall n :: n in s ==> s[n].loc != l
  }

  predicate ScopesAvoid(scopes: seq<Scope>, l: nat) {
    scopes == [] || (ScopeAvoids(scopes[0], l) && ScopesAvoid(scopes[1..], l))
  }

  /** No variable that a statement could name has this location. */
  predicate Apart(st: State, l: nat) {
    l < |st.store| && ScopeAvoids(st.root, l) && ScopesAvoid(st.scopes, l)
  }

  /** The state with another value at this location. */
  function Poke(st: State, l: nat, v: Value): State
    requires l < |st.store|
  {
    st.(store := st.store[l := v])
  }

  /** The two results differ by the value at l only, and l is still out of reach. */
  ghost predicate Blind(l: nat, v: Value, r: Res, r': Res) {
    Apart(r.st, l) && r' == Res(r.out, Poke(r.st, l, v))
  }

  ghost predicate BlindEval(l: nat, v: Value, e: Eval, e': Eval) {
    Apart(e.st, l) && e' == Eval(e.val, Poke(e.st, l, v))
  }

  ghost predicate BlindArgs(l: nat, v: Value, a: Args, a': Args) {
    Apart(a.st, l) && a' == Args(a.refs, Poke(a.st, l, v)) && (a.refs.Some? ==> RefsAvoid(a.refs.value, l))
  }

  predicate RefsAvoid(refs: seq<Ref>, l: nat) {
    forall i :: 0 <= i < |refs| ==> refs[i].loc != l
  }

  // ----- Variables -----

  lemma {:induction false} VisibleBlind(scopes: seq<Scope>, root: Scope, store: seq<Value>, l: nat, v: Value)
    requires l < |store| && ScopeAvoids(root, l) && ScopesAvoid(scopes, l)
    ensures Visible(scopes, root, store[l := v]) == Visible(scopes, root, store)
  {
    if scopes == [] {
      assert Values(root, store[l := v]) == Values(root, store);
    } else {
      VisibleBlind(scopes[1..], root, store, l, v);
      assert Values(scopes[0], store[l := v]) == Values(scopes[0], store);
    }
  }

  lemma {:induction false} FoundApart(scopes: seq<Scope>, root: Scope, name: Name, l: nat)
    requires ScopeAvoids(root, l) && ScopesAvoid(scopes, l)
    ensures Lookup(scopes, root, name).Some? ==> Lookup(scopes, root, name).value.loc != l
  {
    if scopes != [] {
      FoundApart(scopes[1..], root, name, l);
    }
  }

  lemma StoreBlind(st: State, l: nat, v: Value)
    requires Apart(st, l)
    ensures forall loc, w {:trigger Set(st, loc, w)} | loc != l ::
      Apart(Set(st, loc, w), l) && Set(Poke(st, l, v), loc, w) == Poke(Set(st, loc, w), l, v) &&
      ValueAt(Poke(st, l, v).store, loc) == ValueAt(st.store, loc)
    ensures forall w {:trigger Alloc(st, w)} ::
      Apart(Alloc(st, w), l) && Alloc(Poke(st, l, v), w) == Poke(Alloc(st, w), l, v)
  {
    forall loc: nat, w | loc != l ensures Set(Poke(st, l, v), loc, w) == Poke(Set(st, loc, w), l, v) {
      if loc < |st.store| {
        assert st.store[l := v][loc := w] == st.store[loc := w][l := v];
      }
    }
    forall w ensures Alloc(Poke(st, l, v), w) == Poke(Alloc(st, w), l, v) {
      assert st.store[l := v] + [w] == (st.store + [w])[l := v];
    }
  }

  // ----- Expressions and simple statements -----

  lemma DbFailBlind(st: State, e: Error, l: nat, v: Value)
    requires Apart(st, l)
    ensures Blind(l, v, Res(ERROR, DbFail(Tick(st), e)), Res(ERROR, DbFail(Tick(Poke(st, l, v)), e)))
  {
    hide DbFail, ScopesAvoid, ScopeAvoids;
    assert Tick(Poke(st, l, v)) == Poke(Tick(st), l, v);
    FailedBlind(Tick(st), e, l, v);
  }

  lemma FailedBlind(st: State, e: Error, l: nat, v: Value)
    requires Apart(st, l)
    ensures Blind(l, v, Res(ERROR, DbFail(st, e)), Res(ERROR, DbFail(Poke(st, l, v), e)))
  {
    hide Step, ScopesAvoid, ScopeAvoids;
  }

  lemma FailBlind(st: State, typ: ErrorType, l: nat, v: Value)
    requires Apart(st, l)
    ensures Blind(l, v, Fail(st, typ), Fail(Poke(st, l, v), typ))
  {}

  lemma EvaluateBlind(m: Machine, e: Exp, st: State, l: nat, v: Value)
    requires Apart(st, l)
    ensures BlindEval(l, v, Evaluate(m, e, st), Evaluate(m, e, Poke(st, l, v)))
  {
    VisibleBlind(st.scopes, st.root, st.store, l, v);
    hide DbFail, Visible, ScopesAvoid, ScopeAvoids;
    match m.eval(e, Env(st), View(st), st.clock)
    case Ok(_) =>
    case Err(er) => DbFailBlind(st, er, l, v);
  }

  lemma EvalBoolBlind(m: Machine, e: Exp, st: State, l: nat, v: Value)
    requires Apart(st, l)
    ensures BlindEval(l, v, EvalBool(m, e, st), EvalBool(m, e, Poke(st, l, v)))
  {
    hide Evaluate, ScopesAvoid, ScopeAvoids;
    EvaluateBlind(m, e, st, l, v);
  }

  lemma EvalIntBlind(m: Machine, e: Exp, st: State, l: nat, v: Value)
    requires Apart(st, l)
    ensures BlindEval(l, v, EvalInt(m, e, st), EvalInt(m, e, Poke(st, l, v)))
  {
    hide Evaluate, ScopesAvoid, ScopeAvoids;
    EvaluateBlind(m, e, st, l, v);
  }

  lemma BeginBlind(m: Machine, st: State, l: nat, v: Value)
    requires Apart(st, l)
    ensures Blind(l, v, ExecBegin(m, st), ExecBegin(m, Poke(st, l, v)))
  {
    hide Step, ScopesAvoid, ScopeAvoids;
  }

  lemma DoBlind(st: State, e: Event, l: nat, v: Value)
    requires Apart(st, l)
    ensures Apart(Do(st, e), l) && Do(Poke(st, l, v), e) == Poke(Do(st, e), l, v)
    ensures Apart(Do(Tick(st), e), l) && Do(Tick(Poke(st, l, v)), e) == Poke(Do(Tick(st), e), l, v)
  {
    hide Step, ScopesAvoid, ScopeAvoids;
  }

  lemma CommitBlind(m: Machine, st: State, l: nat, v: Value)
    requires Apart(st, l)
    ensures Blind(l, v, ExecCommit(m, st), ExecCommit(m, Poke(st, l, v)))
  {
    DoBlind(st, Event.Pop, l, v);
    DoBlind(st, Commit, l, v);
    forall e ensures Blind(l, v, CommitFailed(DbFail(Tick(st), e), e),
                                 CommitFailed(DbFail(Tick(Poke(st, l, v)), e), e)) {
      CommitFailedBlind(st, e, l, v);
    }
    hide Do, DbFail, CommitFailed, ScopesAvoid, ScopeAvoids;
  }

  lemma CommitFailedBlind(st: State, e: Error, l: nat, v: Value)
    requires Apart(st, l)
    ensures Blind(l, v, CommitFailed(DbFail(Tick(st), e), e), CommitFailed(DbFail(Tick(Poke(st, l, v)), e), e))
  {
    DbFailBlind(st, e, l, v);
    DoBlind(DbFail(Tick(st), e), Event.Pop, l, v);
    hide Do, DbFail, ScopesAvoid, ScopeAvoids;
  }

  lemma RollbackBlind(m: Machine, st: State, l: nat, v: Value)
    requires Apart(st, l)
    ensures Blind(l, v, ExecRollback(m, st), ExecRollback(m, Poke(st, l, v)))
  {
    hide Step, ScopesAvoid, ScopeAvoids;
  }

  lemma VarDefBlind(m: Machine, name: Name, init: Exp, fixed: bool, st: State, l: nat, v: Value)
    requires Apart(st, l)
    ensures Blind(l, v, ExecVarDef(m, name, init, fixed, st), ExecVarDef(m, name, init, fixed, Poke(st, l, v)))
  {
    hide Evaluate;
    EvaluateBlind(m, init, st, l, v);
    var e := Evaluate(m, init, st);
    StoreBlind(e.st, l, v);
  }

  lemma VarDropBlind(m: Machine, name: Name, st: State, l: nat, v: Value)
    requires Apart(st, l)
    ensures Blind(l, v, ExecVarDrop(m, name, st), ExecVarDrop(m, name, Poke(st, l, v)))
  {
    hide DbFail, Step;
    forall e ensures Blind(l, v, Res(ERROR, DbFail(Tick(st), e)), Res(ERROR, DbFail(Tick(Poke(st, l, v)), e))) {
      DbFailBlind(st, e, l, v);
    }
  }

  lemma StoreVarBlind(st: State, name: Name, w: Value, l: nat, v: Value)
    requires Apart(st, l)
    ensures Blind(l, v, Store(st, name, w), Store(Poke(st, l, v), name, w))
  {
    FoundApart(st.scopes, st.root, name, l);
    StoreBlind(st, l, v);
  }

  lemma AssignBlind(m: Machine, name: Name, exp: Exp, st: State, l: nat, v: Value)
    requires Apart(st, l)
    ensures Blind(l, v, ExecAssign(m, name, exp, st), ExecAssign(m, name, exp, Poke(st, l, v)))
  {
    hide Evaluate, Store;
    EvaluateBlind(m, exp, st, l, v);
    var e := Evaluate(m, exp, st);
    if e.val.Some? {
      StoreVarBlind(e.st, name, e.val.value, l, v);
    }
  }

  lemma UpdateBlind(m: Machine, u: Exp, st: State, l: nat, v: Value)
    requires Apart(st, l)
    ensures Blind(l, v, ExecUpdate(m, u, st), ExecUpdate(m, u, Poke(st, l, v)))
  {
    VisibleBlind(st.scopes, st.root, st.store, l, v);
    hide DbFail, Visible, Step, ScopesAvoid, ScopeAvoids;
    if View(st).Some? {
      match m.update(u, Env(st), View(st).value, st.clock)
      case Ok(_) =>
      case Err(e) => DbFailBlind(st, e, l, v);
    }
  }

  lemma ReturnBlind(m: Machine, exp: Option<Exp>, ro: bool, st: State, l: nat, v: Value)
    requires Apart(st, l)
    ensures Blind(l, v, ExecReturn(m, exp, ro, st), ExecReturn(m, exp, ro, Poke(st, l, v)))
  {
    hide Evaluate;
    if exp.Some? {
      EvaluateBlind(m, exp.value, st, l, v);
    }
  }

  lemma ArgBlind(m: Machine, a: Arg, st: State, l: nat, v: Value)
    requires Apart(st, l)
    ensures BlindArgs(l, v, EvalArg(m, a, st), EvalArg(m, a, Poke(st, l, v)))
  {
    hide Evaluate;
    match a
    case VarArg(n) => FoundApart(st.scopes, st.root, n, l);
    case ExpArg(e) =>
      EvaluateBlind(m, e, st, l, v);
      StoreBlind(Evaluate(m, e, st).st, l, v);
  }

  lemma {:induction false} ArgsBlind(m: Machine, args: seq<Arg>, done: seq<Ref>, st: State, l: nat, v: Value)
    requires Apart(st, l) && RefsAvoid(done, l)
    ensures BlindArgs(l, v, EvalArgs(m, args, done, st), EvalArgs(m, args, done, Poke(st, l, v)))
    decreases |args|
  {
    hide EvalArg;
    if args != [] {
      ArgBlind(m, args[0], st, l, v);
      var a := EvalArg(m, args[0], st);
      if a.refs.Some? {
        ArgsBlind(m, args[1..], done + a.refs.value, a.st, l, v);
      }
    }
  }

  // ----- All statements -----

  lemma {:induction false} ExecBlind(m: Machine, s: Stmt, ro: bool, st: State, fuel: nat, l: nat, v: Value)
    requires Apart(st, l)
    ensures Blind(l, v, Exec(m, s, ro, st, fuel), Exec(m, s, ro, Poke(st, l, v), fuel))
    decreases fuel, 1, s, 2
  {
    hide Apart, Poke, EvalBool, ExecStmts, ExecCase, ExecWhile, ExecFor, ExecForeach, ExecCatches;
    hide ExecCall, ExecAssignOp, ExecVarDef, ExecVarDrop, ExecAssign, ExecUpdate, ExecReturn, ExecBegin, ExecCommit,
      ExecRollback;
    match s
    case Skip =>
    case Block(body) => StmtsBlind(m, body, ro, st, fuel, l, v);
    case If(cond, body, els) => IfBlind(m, s, ro, st, fuel, l, v);
    case Case(whens, els) => CaseBlind(m, s, 0, ro, st, fuel, l, v);
    case While(lab, cond, body) => WhileBlind(m, lab, cond, body, ro, st, fuel, l, v);
    case For(lab, name, first, last, body) => ForBlind(m, s, ro, st, fuel, l, v);
    case Foreach(lab, name, table, body) => ForeachBlind(m, s, ro, st, fuel, l, v);
    case Leave(target) => LeaveBlind(st, target, l, v);
    case Return(exp) => ReturnBlind(m, exp, ro, st, l, v);
    case Raise(typ) => FailBlind(st, typ, l, v);
    case Try(body, catches) => TryBlind(m, s, ro, st, fuel, l, v);
    case VarDef(name, init, fixed) => VarDefBlind(m, name, init, fixed, st, l, v);
    case VarDrop(name) => VarDropBlind(m, name, st, l, v);
    case Assign(name, exp) => AssignBlind(m, name, exp, st, l, v);
    case AssignOp(name, op, exps) => AssignOpBlind(m, name, op, exps, st, fuel, l, v);
    case Call(op, args) => CallBlind(m, op, args, st, fuel, l, v);
    case Update(u) => UpdateBlind(m, u, st, l, v);
    case BeginTx => BeginBlind(m, st, l, v);
    case CommitTx => CommitBlind(m, st, l, v);
    case RollbackTx => RollbackBlind(m, st, l, v);
  }

  lemma LeaveBlind(st: State, target: Option<Name>, l: nat, v: Value)
    requires Apart(st, l)
    ensures Blind(l, v, Res(LEAVE, st.(leave := target)), Res(LEAVE, Poke(st, l, v).(leave := target)))
  {}

  lemma {:induction false} StmtsBlind(m: Machine, ss: seq<Stmt>, ro: bool, st: State, fuel: nat, l: nat, v: Value)
    requires Apart(st, l)
    ensures Blind(l, v, ExecStmts(m, ss, ro, st, fuel), ExecStmts(m, ss, ro, Poke(st, l, v), fuel))
    decreases fuel, 1, ss, 0
  {
    hide Exec, ScopesAvoid, ScopeAvoids;
    if ss != [] {
      ExecBlind(m, ss[0], ro, st, fuel, l, v);
      var r := Exec(m, ss[0], ro, st, fuel);
      if r.out == OK {
        StmtsBlind(m, ss[1..], ro, r.st, fuel, l, v);
      }
    }
  }

  lemma {:induction false} ScopedBlind(m: Machine, ss: seq<Stmt>, ro: bool, st: State, s: Scope, fuel: nat, l: nat,
                                       v: Value)
    requires Apart(st, l) && ScopeAvoids(s, l)
    ensures Blind(l, v, ExecStmts(m, ss, ro, Enter(st, s), fuel), ExecStmts(m, ss, ro, Enter(Poke(st, l, v), s), fuel))
    ensures Blind(l, v, Exited(ExecStmts(m, ss, ro, Enter(st, s), fuel)), Exited(ExecStmts(m, ss, ro, Enter(Poke(st,
      l, v), s), fuel)))
    decreases fuel, 1, ss, 1
  {
    hide ExecStmts, ScopeAvoids;
    assert ([s] + st.scopes)[1..] == st.scopes;
    assert Poke(Enter(st, s), l, v) == Enter(Poke(st, l, v), s);
    StmtsBlind(m, ss, ro, Enter(st, s), fuel, l, v);
  }

  lemma {:induction false} IfBlind(m: Machine, s: Stmt, ro: bool, st: State, fuel: nat, l: nat, v: Value)
    requires s.If? && Apart(st, l)
    ensures Blind(l, v, Exec(m, s, ro, st, fuel), Exec(m, s, ro, Poke(st, l, v), fuel))
    decreases fuel, 1, s, 1
  {
    hide EvalBool, ExecStmts, ScopesAvoid, ScopeAvoids;
    EvalBoolBlind(m, s.cond, st, l, v);
    var c := EvalBool(m, s.cond, st);
    EmptyAvoids(l);
    if c.val.Some? {
      ScopedBlind(m, if c.val.value.b then s.body else s.els, ro, c.st, map[], fuel, l, v);
    }
  }

  lemma EmptyAvoids(l: nat)
    ensures ScopeAvoids(map[], l)
  {}

  lemma {:induction false} CaseBlind(m: Machine, s: Stmt, i: nat, ro: bool, st: State, fuel: nat, l: nat, v: Value)
    requires s.Case? && i <= |s.whens| && Apart(st, l)
    ensures Blind(l, v, ExecCase(m, s, i, ro, st, fuel), ExecCase(m, s, i, ro, Poke(st, l, v), fuel))
    decreases fuel, 1, s, 1, |s.whens| - i
  {
    hide EvalBool, ExecStmts, ScopesAvoid, ScopeAvoids;
    EmptyAvoids(l);
    if i == |s.whens| {
      ScopedBlind(m, s.els, ro, st, map[], fuel, l, v);
    } else {
      EvalBoolBlind(m, s.whens[i].cond, st, l, v);
      var c := EvalBool(m, s.whens[i].cond, st);
      if c.val.Some? {
        if c.val.value.b {
          ScopedBlind(m, s.whens[i].body, ro, c.st, map[], fuel, l, v);
        } else {
          CaseBlind(m, s, i + 1, ro, c.st, fuel, l, v);
        }
      }
    }
  }

  lemma LoopEndBlind(lab: Option<Name>, r: Res, r': Res, l: nat, v: Value)
    requires Blind(l, v, r, r')
    ensures Blind(l, v, Exited(LeaveLoop(lab, r)), Exited(LeaveLoop(lab, r')))
  {}

  lemma {:induction false} WhileBlind(m: Machine, lab: Option<Name>, cond: Exp, body: seq<Stmt>, ro: bool, st: State,
                                      fuel: nat, l: nat, v: Value)
    requires Apart(st, l)
    ensures Blind(l, v, ExecWhile(m, lab, cond, body, ro, st, fuel), ExecWhile(m, lab, cond, body, ro, Poke(st, l,
      v), fuel))
    decreases fuel, 1, body, 2
  {
    hide EvalBool, ExecStmts, ScopesAvoid, ScopeAvoids, LeaveLoop;
    EmptyAvoids(l);
    if fuel > 0 {
      EvalBoolBlind(m, cond, st, l, v);
      var c := EvalBool(m, cond, st);
      if c.val.Some? && c.val.value.b {
        ScopedBlind(m, body, ro, c.st, map[], fuel - 1, l, v);
        var r := ExecStmts(m, body, ro, Enter(c.st, map[]), fuel - 1);
        LoopEndBlind(lab, r, ExecStmts(m, body, ro, Enter(Poke(c.st, l, v), map[]), fuel - 1), l, v);
        if r.out == OK {
          WhileBlind(m, lab, cond, body, ro, Exit(r.st), fuel - 1, l, v);
        }
      }
    }
  }

  lemma {:induction false} ForBlind(m: Machine, s: Stmt, ro: bool, st: State, fuel: nat, l: nat, v: Value)
    requires s.For? && Apart(st, l)
    ensures Blind(l, v, ExecFor(m, s, ro, st, fuel), ExecFor(m, s, ro, Poke(st, l, v), fuel))
    decreases fuel, 1, s, 1
  {
    hide Evaluate, EvalInt, ForLoop, Set;
    FoundApart(st.scopes, st.root, s.name, l);
    hide ScopesAvoid, ScopeAvoids;
    StoreBlind(st, l, v);
    EvaluateBlind(m, s.first, st, l, v);
    var e, x := Find(st, s.name), Evaluate(m, s.first, st);
    if e.Some? && x.val.Some? {
      StoreBlind(x.st, l, v);
      var st1 := Set(x.st, e.value.loc, x.val.value);
      EvalIntBlind(m, s.last, st1, l, v);
      var w := EvalInt(m, s.last, st1);
      assert e.value.loc != l && ValueAt(Poke(st, l, v).store, e.value.loc) == ValueAt(st.store, e.value.loc);
      if w.val.Some? {
        ForLoopBlind(m, s.lab, s.name, e.value.loc, w.val.value.i, s.body, ro, w.st, fuel, l, v);
      }
    }
  }

  lemma {:induction false} ForLoopBlind(m: Machine, lab: Option<Name>, name: Name, loc: nat, last: int, body: seq<Stmt>,
                                        ro: bool, st: State, fuel: nat, l: nat, v: Value)
    requires Apart(st, l) && loc != l
    ensures Blind(l, v, ForLoop(m, lab, name, loc, last, body, ro, st, fuel),
                        ForLoop(m, lab, name, loc, last, body, ro, Poke(st, l, v), fuel))
    decreases fuel, 1, body, 2
  {
    hide ExecStmts, LeaveLoop, ForNext, ScopesAvoid, ScopeAvoids;
    EmptyAvoids(l);
    assert ValueAt(Poke(st, l, v).store, loc) == ValueAt(st.store, loc);
    if fuel > 0 && ValueAt(st.store, loc).Int? && ValueAt(st.store, loc).i <= last {
      ScopedBlind(m, body, ro, st, map[], fuel - 1, l, v);
      var r := ExecStmts(m, body, ro, Enter(st, map[]), fuel - 1);
      LoopEndBlind(lab, r, ExecStmts(m, body, ro, Enter(Poke(st, l, v), map[]), fuel - 1), l, v);
      if r.out == OK {
        ForNextBlind(m, lab, name, last, body, ro, Exit(r.st), fuel - 1, l, v);
      }
    }
  }

  lemma {:induction false} ForNextBlind(m: Machine, lab: Option<Name>, name: Name, last: int, body: seq<Stmt>, ro: bool,
                                        st: State, fuel: nat, l: nat, v: Value)
    requires Apart(st, l)
    ensures Blind(l, v, ForNext(m, lab, name, last, body, ro, st, fuel), ForNext(m, lab, name, last, body, ro,
      Poke(st, l, v), fuel))
    decreases fuel, 1, body, 3
  {
    hide ForLoop, Set, ScopesAvoid, ScopeAvoids, Lookup;
    FoundApart(st.scopes, st.root, name, l);
    StoreBlind(st, l, v);
    var e := Find(st, name);
    if e.Some? {
      var w := ValueAt(st.store, e.value.loc);
      assert ValueAt(Poke(st, l, v).store, e.value.loc) == w;
      if w.Int? {
        ForLoopBlind(m, lab, name, e.value.loc, last, body, ro, Set(st, e.value.loc, Int(w.i + 1)), fuel, l, v);
      }
    }
  }

  lemma {:induction false} ForeachBlind(m: Machine, s: Stmt, ro: bool, st: State, fuel: nat, l: nat, v: Value)
    requires s.Foreach? && Apart(st, l)
    ensures Blind(l, v, ExecForeach(m, s, ro, st, fuel), ExecForeach(m, s, ro, Poke(st, l, v), fuel))
    decreases fuel, 1, s, 1
  {
    hide ForeachLoop, DbFail;
    VisibleBlind(st.scopes, st.root, st.store, l, v);
    FoundApart(st.scopes, st.root, s.name, l);
    hide ScopesAvoid, ScopeAvoids, Visible;
    FailBlind(st, NameError, l, v);
    match m.rows(s.table, Env(st), View(st), st.clock)
    case Err(er) => DbFailBlind(st, er, l, v);
    case Ok(rows) =>
      var e := Find(st, s.name);
      if e.Some? {
        var st1 := Tick(st).(foreachs := [rows] + st.foreachs);
        assert Poke(st1, l, v) == Tick(Poke(st, l, v)).(foreachs := [rows] + st.foreachs);
        ForeachLoopBlind(m, s.lab, s.name, e.value.loc, s.body, ro, st1, fuel, l, v);
      }
  }

  lemma {:induction false} ForeachLoopBlind(m: Machine, lab: Option<Name>, name: Name, loc: nat, body: seq<Stmt>,
                                            ro: bool, st: State, fuel: nat, l: nat, v: Value)
    requires Apart(st, l) && loc != l
    ensures Blind(l, v, ForeachLoop(m, lab, name, loc, body, ro, st, fuel),
                        ForeachLoop(m, lab, name, loc, body, ro, Poke(st, l, v), fuel))
    decreases fuel, 1, body, 2
  {
    hide ExecStmts, ForeachNext, NextRow, DbFail, Tick, ScopesAvoid, ScopeAvoids;
    EmptyAvoids(l);
    if fuel > 0 {
      var fail := m.fetch(st.clock);
      FetchEndBlind(st, if fail.Some? then fail.value else Error(NotFound, false, EndsNone), l, v);
      match m.fetch(st.clock)
      case Some(_) =>
      case None =>
        if st.foreachs != [] && st.foreachs[0] != [] {
          NextRowBlind(st, loc, l, v);
          var st1 := NextRow(st, loc);
          ScopedBlind(m, body, ro, st1, map[], fuel - 1, l, v);
          var r := Exited(ExecStmts(m, body, ro, Enter(st1, map[]), fuel - 1));
          ForeachNextBlind(m, lab, name, body, ro, r, fuel - 1, l, v);
        }
    }
  }

  lemma FetchEndBlind(st: State, e: Error, l: nat, v: Value)
    requires Apart(st, l)
    ensures Blind(l, v, Res(OK, DbFail(Tick(st), e).(err := None)), Res(OK, DbFail(Tick(Poke(st, l, v)),
      e).(err := None)))
    ensures Blind(l, v, Res(OK, Tick(st).(err := None)), Res(OK, Tick(Poke(st, l, v)).(err := None)))
  {
    hide DbFail, ScopesAvoid, ScopeAvoids;
    DbFailBlind(st, e, l, v);
  }

  lemma NextRowBlind(st: State, loc: nat, l: nat, v: Value)
    requires Apart(st, l) && loc != l && st.foreachs != [] && st.foreachs[0] != []
    ensures Apart(NextRow(st, loc), l) && NextRow(Poke(st, l, v), loc) == Poke(NextRow(st, loc), l, v)
  {
    hide Set, ScopesAvoid, ScopeAvoids;
    StoreBlind(Tick(st), l, v);
    assert Tick(Poke(st, l, v)) == Poke(Tick(st), l, v);
    assert Apart(Set(Tick(st), loc, st.foreachs[0][0]), l);
  }

  lemma {:induction false} ForeachNextBlind(m: Machine, lab: Option<Name>, name: Name, body: seq<Stmt>, ro: bool,
                                            r: Res, fuel: nat, l: nat, v: Value)
    requires Apart(r.st, l)
    ensures Blind(l, v, ForeachNext(m, lab, name, body, ro, r, fuel),
                        ForeachNext(m, lab, name, body, ro, Res(r.out, Poke(r.st, l, v)), fuel))
    decreases fuel, 1, body, 3
  {
    hide ForeachLoop, ScopesAvoid, ScopeAvoids, Lookup;
    FoundApart(r.st.scopes, r.st.root, name, l);
    var e := Find(r.st, name);
    if r.out == OK && e.Some? {
      ForeachLoopBlind(m, lab, name, e.value.loc, body, ro, r.st, fuel, l, v);
    }
  }

  lemma {:induction false} TryBlind(m: Machine, s: Stmt, ro: bool, st: State, fuel: nat, l: nat, v: Value)
    requires s.Try? && Apart(st, l)
    ensures Blind(l, v, Exec(m, s, ro, st, fuel), Exec(m, s, ro, Poke(st, l, v), fuel))
    decreases fuel, 1, s, 1
  {
    hide ExecStmts, ExecCatches, ScopesAvoid, ScopeAvoids;
    EmptyAvoids(l);
    ScopedBlind(m, s.body, ro, st, map[], fuel, l, v);
    var r := Exited(ExecStmts(m, s.body, ro, Enter(st, map[]), fuel));
    if r.out == ERROR && r.st.err.Some? {
      CatchesBlind(m, s.catches, ro, r.st, fuel, l, v);
    }
  }

  lemma {:induction false} CatchesBlind(m: Machine, catches: seq<Catch>, ro: bool, st: State, fuel: nat, l: nat,
                                        v: Value)
    requires st.err.Some? && Apart(st, l)
    ensures Blind(l, v, ExecCatches(m, catches, ro, st, fuel), ExecCatches(m, catches, ro, Poke(st, l, v), fuel))
    decreases fuel, 1, catches, 1
  {
    hide ExecCatch, ScopesAvoid, ScopeAvoids;
    if catches != [] {
      CatchBlind(m, catches[0], ro, st, fuel, l, v);
      CatchesBlind(m, catches[1..], ro, st, fuel, l, v);
    }
  }

  lemma {:induction false} CatchBlind(m: Machine, c: Catch, ro: bool, st: State, fuel: nat, l: nat, v: Value)
    requires st.err.Some? && Apart(st, l)
    ensures Blind(l, v, ExecCatch(m, c, ro, st, fuel), ExecCatch(m, c, ro, Poke(st, l, v), fuel))
    decreases fuel, 1, c, 1
  {
    hide ExecStmts;
    StoreBlind(st, l, v);
    var w := ErrorVal(st.err.value.typ);
    assert Apart(Alloc(st, w), l) && Alloc(Poke(st, l, v), w) == Poke(Alloc(st, w), l, v);
    var st0 := Alloc(st, w).(retryable := st.err.value.retryable, err := None);
    ScopedBlind(m, c.body, ro, st0, map[c.name := Entry(|st.store|, false)], fuel, l, v);
  }

  // ----- Operators -----

  lemma {:induction false} ParamsAvoid(params: seq<Param>, refs: seq<Ref>, l: nat)
    requires |params| == |refs| && RefsAvoid(refs, l)
    ensures ScopeAvoids(ParamScope(params, refs), l)
  {
    if params != [] {
      ParamsAvoid(params[..|params| - 1], refs[..|refs| - 1], l);
    }
  }

  /**
   * A location that is neither that of an argument nor that of a global variable: what the operator does is the
   * same whatever value is there, and the value stays. Nor does it matter which scopes the caller has.
   */
  lemma {:induction false} OperatorSeesNoLocals(m: Machine, name: Name, refs: seq<Ref>, st: State, fuel: nat, l: nat,
                                                v: Value, scopes: seq<Scope>)
    requires name in m.ops && |refs| == |m.ops[name].params| && fuel > 0
    requires l < |st.store| && ScopeAvoids(st.root, l) && RefsAvoid(refs, l)
    ensures var r, op := RunBody(m, name, m.ops[name], refs, st, fuel), m.ops[name];
      l < |r.st.store| && ScopeAvoids(r.st.root, l) && r.st.store[l] == st.store[l] &&
      RunBody(m, name, op, refs, Poke(st, l, v), fuel) == Res(r.out, Poke(r.st, l, v)) &&
      RunBody(m, name, op, refs, st.(scopes := scopes), fuel) == Res(r.out, r.st.(scopes := scopes))
    decreases fuel - 1, 2
  {
    hide ExecStmts;
    var op := m.ops[name];
    ParamsAvoid(op.params, refs, l);
    hide ParamScope;
    var scope := ParamScope(op.params, refs);
    var st1 := st.(scopes := [scope], innerOp := Some(name));
    assert st1.scopes[1..] == [] && ScopesAvoid([scope], l);
    assert Apart(st1, l);
    StmtsBlind(m, op.body, op.readOnly, st1, fuel - 1, l, v);
    StmtsBlind(m, op.body, op.readOnly, st1, fuel - 1, l, st.store[l]);
    assert Poke(st1, l, st.store[l]) == st1;
    var r := ExecStmts(m, op.body, op.readOnly, st1, fuel - 1);
    assert r.st.store == r.st.store[l := st.store[l]];
    assert Poke(st, l, v).(scopes := st1.scopes, innerOp := Some(name)) == Poke(st1, l, v);
    assert st.(scopes := scopes).(scopes := st1.scopes, innerOp := Some(name)) == st1;
  }

  lemma {:induction false} InvokeBlind(m: Machine, name: Name, refs: seq<Ref>, st: State, fuel: nat, l: nat, v: Value)
    requires name in m.ops && |refs| == |m.ops[name].params| && Apart(st, l) && RefsAvoid(refs, l)
    ensures Blind(l, v, InvokeUpdateOp(m, name, m.ops[name], refs, st, fuel),
                        InvokeUpdateOp(m, name, m.ops[name], refs, Poke(st, l, v), fuel))
    ensures Blind(l, v, InvokeRoOp(m, name, m.ops[name], refs, st, fuel), InvokeRoOp(m, name, m.ops[name], refs,
      Poke(st, l, v), fuel))
    decreases fuel, 0, 0
  {
    if fuel > 0 {
      OperatorSeesNoLocals(m, name, refs, st, fuel, l, v, st.scopes);
      assert RunBody(m, name, m.ops[name], refs, st, fuel).st.scopes == st.scopes;
      hide RunBody;
    }
  }

  lemma {:induction false} CallBlind(m: Machine, name: Name, args: seq<Arg>, st: State, fuel: nat, l: nat, v: Value)
    requires Apart(st, l)
    ensures Blind(l, v, ExecCall(m, name, args, st, fuel), ExecCall(m, name, args, Poke(st, l, v), fuel))
    decreases fuel, 0, 1
  {
    hide EvalArgs, InvokeUpdateOp, ScopesAvoid, ScopeAvoids;
    ArgsBlind(m, args, [], st, l, v);
    var a := EvalArgs(m, args, [], st);
    var n := if a.refs.Some? then FindOp(m, name, a.st.innerOp, |a.refs.value|) else None;
    if n.Some? {
      InvokeBlind(m, n.value, a.refs.value, a.st, fuel, l, v);
    }
  }

  lemma {:induction false} AssignOpBlind(m: Machine, name: Name, op: Name, exps: seq<Exp>, st: State, fuel: nat, l: nat,
                                         v: Value)
    requires Apart(st, l)
    ensures Blind(l, v, ExecAssignOp(m, name, op, exps, st, fuel), ExecAssignOp(m, name, op, exps, Poke(st, l, v),
      fuel))
    decreases fuel, 0, 1
  {
    hide EvalArgs, InvokeRoOp, Store, ScopesAvoid, ScopeAvoids;
    var args := seq(|exps|, i requires 0 <= i < |exps| => ExpArg(exps[i]));
    ArgsBlind(m, args, [], st, l, v);
    var a := EvalArgs(m, args, [], st);
    if a.refs.Some? && HasOp(m, op, true, |a.refs.value|) {
      InvokeBlind(m, op, a.refs.value, a.st, fuel, l, v);
      var r := InvokeRoOp(m, op, m.ops[op], a.refs.value, a.st, fuel);
      if r.out == OK {
        StoreVarBlind(r.st, name, r.st.ret, l, v);
      }
    }
  }
}
