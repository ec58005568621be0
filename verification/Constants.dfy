/**
 * When constants keep their values (duro/dli/interp_stmt.c). Assignment and update parameters refuse constants, but
 * FOR and FOREACH do not, and a variable may be visible under a constant and under another name at once.
 */
module Constants {
  import opened ByteStrings
  import opened Options
  import opened TxStack
  import opened Statements

  /** The names that FOR and FOREACH loops in a statement take as their variables. */
  function LoopVars(s: Stmt): set<Name>
    decreases s, 1
  {
    match s
    case Block(body) => AllLoopVars(body)
    case If(_, body, els) => AllLoopVars(body) + AllLoopVars(els)
    case Case(whens, els) => WhenLoopVars(whens) + AllLoopVars(els)
    case While(_, _, body) => AllLoopVars(body)
    case For(_, name, _, _, body) => {name} + AllLoopVars(body)
    case Foreach(_, name, _, body) => {name} + AllLoopVars(body)
    case Try(body, catches) => AllLoopVars(body) + CatchLoopVars(catches)
    case _ => {}
  }

  function AllLoopVars(ss: seq<Stmt>): set<Name>
    decreases ss, 0
  {
    if ss == [] then {} else LoopVars(ss[0]) + AllLoopVars(ss[1..])
  }

  function WhenLoopVars(whens: seq<When>): set<Name>
    decreases whens, 0
  {
    if whens == [] then {} else AllLoopVars(whens[0].body) + WhenLoopVars(whens[1..])
  }

  function CatchLoopVars(catches: seq<Catch>): set<Name>
    decreases catches, 0
  {
    if catches == [] then {} else AllLoopVars(catches[0].body) + CatchLoopVars(catches[1..])
  }

  /** Every name of this location is a constant and none of these names. */
  predicate ScopeGuards(s: Scope, l: nat, names: set<Name>) {
    forall n :: n in s && s[n].loc == l ==> s[n].fixed && n !in names
  }

  predicate ScopesGuard(scopes: seq<Scope>, l: nat, names: set<Name>) {
    scopes == [] || (ScopeGuards(scopes[0], l, names) && ScopesGuard(scopes[1..], l, names))
  }

  /** All loop variables of operators are in g, and none is a parameter of its operator that is not for update. */
  predicate OpsSpare(m: Machine, g: set<Name>) {
    forall o :: o in m.ops ==> AllLoopVars(m.ops[o].body) <= g && ParamsSpared(m.ops[o])
  }

  predicate ParamsSpared(op: Operator) {
    forall i :: 0 <= i < |op.params| && !op.params[i].update ==> op.params[i].name !in AllLoopVars(op.body)
  }

  /**
   * The location has this value, and only constants have the location: no global one with a name in g, and no
   * local one with one of these names.
   */
  predicate Holds(g: set<Name>, names: set<Name>, st: State, l: nat, v: Value) {
    l < |st.store| && st.store[l] == v && names <= g && ScopeGuards(st.root, l, g) && ScopesGuard(st.scopes, l, names)
  }

  /** An argument at this location cannot be updated. */
  predicate RefsGuard(refs: seq<Ref>, l: nat) {
    forall i :: 0 <= i < |refs| ==> refs[i].loc == l ==> refs[i].isVar && refs[i].fixed
  }

  lemma {:induction false} FoundGuarded(scopes: seq<Scope>, root: Scope, name: Name, l: nat, g: set<Name>,
                                        names: set<Name>)
    requires names <= g && ScopeGuards(root, l, g) && ScopesGuard(scopes, l, names)
    ensures var e := Lookup(scopes, root, name); e.Some? && e.value.loc == l ==> e.value.fixed && name !in names
  {
    if scopes != [] {
      FoundGuarded(scopes[1..], root, name, l, g, names);
    }
  }

  // ----- Expressions and simple statements -----

  predicate SameVars(st: State, st': State) {
    st'.scopes == st.scopes && st'.root == st.root && st'.store == st.store
  }

  /** Holds looks at the variables and their values only. */
  lemma SameVarsHold(g: set<Name>, names: set<Name>, st: State, st': State, l: nat, v: Value)
    requires Holds(g, names, st, l, v) && SameVars(st, st')
    ensures Holds(g, names, st', l, v)
  {}

  lemma EvaluateHolds(m: Machine, g: set<Name>, names: set<Name>, e: Exp, st: State, l: nat, v: Value)
    requires Holds(g, names, st, l, v)
    ensures Holds(g, names, Evaluate(m, e, st).st, l, v) && Holds(g, names, EvalBool(m, e, st).st, l, v) &&
      Holds(g, names, EvalInt(m, e, st).st, l, v)
  {
    forall st': State | SameVars(st, st') ensures Holds(g, names, st', l, v) {
      SameVarsHold(g, names, st, st', l, v);
    }
    hide Holds, Step, Env;
  }

  lemma SetHolds(g: set<Name>, names: set<Name>, st: State, l: nat, v: Value)
    requires Holds(g, names, st, l, v)
    ensures forall loc, w {:trigger Set(st, loc, w)} | loc != l :: Holds(g, names, Set(st, loc, w), l, v)
    ensures forall w {:trigger Alloc(st, w)} :: Holds(g, names, Alloc(st, w), l, v)
  {}

  lemma BeginSameVars(m: Machine, st: State)
    ensures SameVars(st, ExecBegin(m, st).st) && SameVars(st, ExecRollback(m, st).st)
  {
    hide Step;
  }

  lemma CommitSameVars(m: Machine, st: State)
    ensures SameVars(st, ExecCommit(m, st).st)
  {
    hide Step, DbFail;
    if Running(st.tx) && m.commit(st.clock).Some? {
      var e := m.commit(st.clock).value;
      DbFailSameVars(Tick(st), e);
    }
  }

  lemma DbFailSameVars(st: State, e: Error)
    ensures SameVars(st, DbFail(st, e))
  {
    hide Step;
  }

  lemma TxHolds(m: Machine, g: set<Name>, names: set<Name>, st: State, l: nat, v: Value)
    requires Holds(g, names, st, l, v)
    ensures Holds(g, names, ExecBegin(m, st).st, l, v) && Holds(g, names, ExecCommit(m, st).st, l, v) &&
      Holds(g, names, ExecRollback(m, st).st, l, v)
  {
    BeginSameVars(m, st);
    CommitSameVars(m, st);
    hide ExecBegin, ExecCommit, ExecRollback;
    SameVarsHold(g, names, st, ExecBegin(m, st).st, l, v);
    SameVarsHold(g, names, st, ExecCommit(m, st).st, l, v);
    SameVarsHold(g, names, st, ExecRollback(m, st).st, l, v);
  }

  lemma UpdateHolds(m: Machine, g: set<Name>, names: set<Name>, u: Exp, st: State, l: nat, v: Value)
    requires Holds(g, names, st, l, v)
    ensures Holds(g, names, ExecUpdate(m, u, st).st, l, v)
  {
    forall st': State | SameVars(st, st') ensures Holds(g, names, st', l, v) {
      SameVarsHold(g, names, st, st', l, v);
    }
    hide Holds, Step, Env;
  }

  lemma ReturnHolds(m: Machine, g: set<Name>, names: set<Name>, exp: Option<Exp>, ro: bool, st: State, l: nat, v: Value)
    requires Holds(g, names, st, l, v)
    ensures Holds(g, names, ExecReturn(m, exp, ro, st).st, l, v)
  {
    hide Evaluate;
    if exp.Some? {
      EvaluateHolds(m, g, names, exp.value, st, l, v);
    }
  }

  lemma DefineHolds(g: set<Name>, names: set<Name>, st: State, name: Name, e: Entry, l: nat, v: Value)
    requires Holds(g, names, st, l, v) && e.loc != l
    ensures Holds(g, names, Define(st, name, e), l, v)
  {}

  lemma VarDefHolds(m: Machine, g: set<Name>, names: set<Name>, name: Name, init: Exp, fixed: bool, st: State, l: nat,
                    v: Value)
    requires Holds(g, names, st, l, v)
    ensures Holds(g, names, ExecVarDef(m, name, init, fixed, st).st, l, v)
  {
    EvaluateHolds(m, g, names, init, st, l, v);
    var x := Evaluate(m, init, st);
    if x.val.Some? {
      SetHolds(g, names, x.st, l, v);
      DefineHolds(g, names, Alloc(x.st, x.val.value), name, Entry(|x.st.store|, fixed), l, v);
    }
    hide Holds, Evaluate;
  }

  lemma DroppedHolds(g: set<Name>, names: set<Name>, st: State, name: Name, l: nat, v: Value)
    requires Holds(g, names, st, l, v)
    ensures Holds(g, names, st.(root := st.root - {name}), l, v)
    ensures st.scopes != [] ==> Holds(g, names, st.(scopes := [st.scopes[0] - {name}] + st.scopes[1..]), l, v)
  {}

  lemma VarDropHolds(m: Machine, g: set<Name>, names: set<Name>, name: Name, st: State, l: nat, v: Value)
    requires Holds(g, names, st, l, v)
    ensures Holds(g, names, ExecVarDrop(m, name, st).st, l, v)
  {
    forall st': State | SameVars(st, st') ensures Holds(g, names, st', l, v) {
      SameVarsHold(g, names, st, st', l, v);
    }
    DroppedHolds(g, names, st, name, l, v);
    hide Holds, Step;
  }

  lemma StoreHolds(g: set<Name>, names: set<Name>, st: State, name: Name, w: Value, l: nat, v: Value)
    requires Holds(g, names, st, l, v)
    ensures Holds(g, names, Store(st, name, w).st, l, v)
  {
    FoundGuarded(st.scopes, st.root, name, l, g, names);
    SetHolds(g, names, st, l, v);
  }

  lemma AssignHolds(m: Machine, g: set<Name>, names: set<Name>, name: Name, exp: Exp, st: State, l: nat, v: Value)
    requires Holds(g, names, st, l, v)
    ensures Holds(g, names, ExecAssign(m, name, exp, st).st, l, v)
  {
    hide Evaluate, Store, Holds;
    EvaluateHolds(m, g, names, exp, st, l, v);
    var x := Evaluate(m, exp, st);
    if x.val.Some? {
      StoreHolds(g, names, x.st, name, x.val.value, l, v);
    }
  }

  ghost predicate ArgsHold(g: set<Name>, names: set<Name>, a: Args, l: nat, v: Value) {
    Holds(g, names, a.st, l, v) && (a.refs.Some? ==> RefsGuard(a.refs.value, l))
  }

  lemma ArgHolds(m: Machine, g: set<Name>, names: set<Name>, a: Arg, st: State, l: nat, v: Value)
    requires Holds(g, names, st, l, v)
    ensures ArgsHold(g, names, EvalArg(m, a, st), l, v)
  {
    hide Evaluate;
    match a
    case VarArg(n) => FoundGuarded(st.scopes, st.root, n, l, g, names);
    case ExpArg(e) =>
      EvaluateHolds(m, g, names, e, st, l, v);
      SetHolds(g, names, Evaluate(m, e, st).st, l, v);
  }

  lemma {:induction false} ArgumentsHold(m: Machine, g: set<Name>, names: set<Name>, args: seq<Arg>, done: seq<Ref>,
                                         st: State, l: nat, v: Value)
    requires Holds(g, names, st, l, v) && RefsGuard(done, l)
    ensures ArgsHold(g, names, EvalArgs(m, args, done, st), l, v)
    decreases |args|
  {
    hide EvalArg, Holds;
    if args != [] {
      ArgHolds(m, g, names, args[0], st, l, v);
      var a := EvalArg(m, args[0], st);
      if a.refs.Some? {
        ArgumentsHold(m, g, names, args[1..], done + a.refs.value, a.st, l, v);
      }
    }
  }

  // ----- All statements -----

  /**
   * A value at a location that only constants have stays there, whatever a statement does and however it ends, if
   * no FOR or FOREACH loop in the statement names such a constant, and no loop in an operator names such a global
   * constant or a parameter that is not for update.
   */
  lemma {:induction false} ConstantsKept(m: Machine, g: set<Name>, names: set<Name>, s: Stmt, ro: bool, st: State,
                                         fuel: nat, l: nat, v: Value)
    requires OpsSpare(m, g) && LoopVars(s) <= names && Holds(g, names, st, l, v)
    ensures Holds(g, names, Exec(m, s, ro, st, fuel).st, l, v)
    decreases fuel, 1, s, 2
  {
    hide Holds, OpsSpare, AllLoopVars, WhenLoopVars, CatchLoopVars, EvalBool, ExecStmts, ExecCase, ExecWhile,
      ExecFor, ExecForeach, ExecCatches;
    hide ExecCall, ExecAssignOp, ExecVarDef, ExecVarDrop, ExecAssign, ExecUpdate, ExecReturn, ExecBegin, ExecCommit,
      ExecRollback;
    match s
    case Skip =>
    case Block(body) => StmtsHold(m, g, names, body, ro, st, fuel, l, v);
    case If(cond, body, els) => IfHolds(m, g, names, s, ro, st, fuel, l, v);
    case Case(whens, els) => CaseHolds(m, g, names, s, 0, ro, st, fuel, l, v);
    case While(lab, cond, body) => WhileHolds(m, g, names, lab, cond, body, ro, st, fuel, l, v);
    case For(lab, name, first, last, body) => ForHolds(m, g, names, s, ro, st, fuel, l, v);
    case Foreach(lab, name, table, body) => ForeachHolds(m, g, names, s, ro, st, fuel, l, v);
    case Leave(target) => SameVarsHold(g, names, st, st.(leave := target), l, v);
    case Return(exp) => ReturnHolds(m, g, names, exp, ro, st, l, v);
    case Raise(typ) => SameVarsHold(g, names, st, Fail(st, typ).st, l, v);
    case Try(body, catches) => TryHolds(m, g, names, s, ro, st, fuel, l, v);
    case VarDef(name, init, fixed) => VarDefHolds(m, g, names, name, init, fixed, st, l, v);
    case VarDrop(name) => VarDropHolds(m, g, names, name, st, l, v);
    case Assign(name, exp) => AssignHolds(m, g, names, name, exp, st, l, v);
    case AssignOp(name, op, exps) => AssignOpHolds(m, g, names, name, op, exps, st, fuel, l, v);
    case Call(op, args) => CallHolds(m, g, names, op, args, st, fuel, l, v);
    case Update(u) => UpdateHolds(m, g, names, u, st, l, v);
    case BeginTx => TxHolds(m, g, names, st, l, v);
    case CommitTx => TxHolds(m, g, names, st, l, v);
    case RollbackTx => TxHolds(m, g, names, st, l, v);
  }

  lemma {:induction false} StmtsHold(m: Machine, g: set<Name>, names: set<Name>, ss: seq<Stmt>, ro: bool, st: State,
                                     fuel: nat, l: nat, v: Value)
    requires OpsSpare(m, g) && AllLoopVars(ss) <= names && Holds(g, names, st, l, v)
    ensures Holds(g, names, ExecStmts(m, ss, ro, st, fuel).st, l, v)
    decreases fuel, 1, ss, 0
  {
    hide Exec, Holds, LoopVars, OpsSpare;
    if ss != [] {
      ConstantsKept(m, g, names, ss[0], ro, st, fuel, l, v);
      var r := Exec(m, ss[0], ro, st, fuel);
      if r.out == OK {
        StmtsHold(m, g, names, ss[1..], ro, r.st, fuel, l, v);
      }
    }
  }

  /** A list of statements in a scope of its own. */
  lemma {:induction false} ScopedHold(m: Machine, g: set<Name>, names: set<Name>, ss: seq<Stmt>, ro: bool, st: State,
                                      s: Scope, fuel: nat, l: nat, v: Value)
    requires OpsSpare(m, g) && AllLoopVars(ss) <= names && Holds(g, names, st, l, v) && ScopeGuards(s, l, names)
    ensures Holds(g, names, Exited(ExecStmts(m, ss, ro, Enter(st, s), fuel)).st, l, v)
    decreases fuel, 1, ss, 1
  {
    hide ExecStmts, ScopeGuards, OpsSpare, AllLoopVars;
    assert ([s] + st.scopes)[1..] == st.scopes;
    StmtsHold(m, g, names, ss, ro, Enter(st, s), fuel, l, v);
  }

  lemma EmptyGuards(l: nat, names: set<Name>)
    ensures ScopeGuards(map[], l, names)
  {}

  lemma {:induction false} IfHolds(m: Machine, g: set<Name>, names: set<Name>, s: Stmt, ro: bool, st: State, fuel: nat,
                                   l: nat, v: Value)
    requires s.If? && OpsSpare(m, g) && LoopVars(s) <= names && Holds(g, names, st, l, v)
    ensures Holds(g, names, Exec(m, s, ro, st, fuel).st, l, v)
    decreases fuel, 1, s, 1
  {
    hide EvalBool, ExecStmts, Holds, AllLoopVars, OpsSpare;
    EvaluateHolds(m, g, names, s.cond, st, l, v);
    EmptyGuards(l, names);
    var c := EvalBool(m, s.cond, st);
    if c.val.Some? {
      ScopedHold(m, g, names, if c.val.value.b then s.body else s.els, ro, c.st, map[], fuel, l, v);
    }
  }

  lemma {:induction false} WhenVarsIn(whens: seq<When>, i: nat)
    requires i < |whens|
    ensures AllLoopVars(whens[i].body) <= WhenLoopVars(whens)
  {
    if i > 0 {
      WhenVarsIn(whens[1..], i - 1);
    }
  }

  lemma {:induction false} CaseHolds(m: Machine, g: set<Name>, names: set<Name>, s: Stmt, i: nat, ro: bool, st: State,
                                     fuel: nat, l: nat, v: Value)
    requires s.Case? && i <= |s.whens| && OpsSpare(m, g) && LoopVars(s) <= names && Holds(g, names, st, l, v)
    ensures Holds(g, names, ExecCase(m, s, i, ro, st, fuel).st, l, v)
    decreases fuel, 1, s, 1, |s.whens| - i
  {
    hide EvalBool, ExecStmts, Holds, AllLoopVars, WhenLoopVars, OpsSpare;
    EmptyGuards(l, names);
    if i == |s.whens| {
      ScopedHold(m, g, names, s.els, ro, st, map[], fuel, l, v);
    } else {
      EvaluateHolds(m, g, names, s.whens[i].cond, st, l, v);
      var c := EvalBool(m, s.whens[i].cond, st);
      if c.val.Some? {
        if c.val.value.b {
          WhenVarsIn(s.whens, i);
          ScopedHold(m, g, names, s.whens[i].body, ro, c.st, map[], fuel, l, v);
        } else {
          CaseHolds(m, g, names, s, i + 1, ro, c.st, fuel, l, v);
        }
      }
    }
  }

  lemma LoopEndHolds(g: set<Name>, names: set<Name>, lab: Option<Name>, r: Res, l: nat, v: Value)
    requires Holds(g, names, Exited(r).st, l, v)
    ensures Holds(g, names, Exited(LeaveLoop(lab, r)).st, l, v)
  {}

  lemma FailHolds(g: set<Name>, names: set<Name>, st: State, typ: ErrorType, l: nat, v: Value)
    requires Holds(g, names, st, l, v)
    ensures Holds(g, names, Fail(st, typ).st, l, v)
  {}

  lemma {:induction false} WhileHolds(m: Machine, g: set<Name>, names: set<Name>, lab: Option<Name>, cond: Exp,
                                      body: seq<Stmt>, ro: bool, st: State, fuel: nat, l: nat, v: Value)
    requires OpsSpare(m, g) && AllLoopVars(body) <= names && Holds(g, names, st, l, v)
    ensures Holds(g, names, ExecWhile(m, lab, cond, body, ro, st, fuel).st, l, v)
    decreases fuel, 1, body, 2
  {
    hide EvalBool, ExecStmts, Holds, AllLoopVars, OpsSpare, LeaveLoop;
    EmptyGuards(l, names);
    if fuel > 0 {
      EvaluateHolds(m, g, names, cond, st, l, v);
      var c := EvalBool(m, cond, st);
      if c.val.Some? && c.val.value.b {
        ScopedHold(m, g, names, body, ro, c.st, map[], fuel - 1, l, v);
        var r := ExecStmts(m, body, ro, Enter(c.st, map[]), fuel - 1);
        LoopEndHolds(g, names, lab, r, l, v);
        if r.out == OK {
          FailHolds(g, names, Exit(r.st), SystemError, l, v);
          WhileHolds(m, g, names, lab, cond, body, ro, Exit(r.st), fuel - 1, l, v);
        }
      }
    }
  }

  lemma {:induction false} ForHolds(m: Machine, g: set<Name>, names: set<Name>, s: Stmt, ro: bool, st: State, fuel: nat,
                                    l: nat, v: Value)
    requires s.For? && OpsSpare(m, g) && LoopVars(s) <= names && Holds(g, names, st, l, v)
    ensures Holds(g, names, ExecFor(m, s, ro, st, fuel).st, l, v)
    decreases fuel, 1, s, 1
  {
    FoundGuarded(st.scopes, st.root, s.name, l, g, names);
    hide Evaluate, EvalInt, ForLoop, Holds, AllLoopVars, OpsSpare, Lookup, Set;
    FailHolds(g, names, st, NameError, l, v);
    FailHolds(g, names, st, TypeMismatch, l, v);
    EvaluateHolds(m, g, names, s.first, st, l, v);
    var e, x := Find(st, s.name), Evaluate(m, s.first, st);
    if e.Some? && x.val.Some? {
      SetHolds(g, names, x.st, l, v);
      var st1 := Set(x.st, e.value.loc, x.val.value);
      EvaluateHolds(m, g, names, s.last, st1, l, v);
      var w := EvalInt(m, s.last, st1);
      if w.val.Some? {
        ForLoopHolds(m, g, names, s.lab, s.name, e.value.loc, w.val.value.i, s.body, ro, w.st, fuel, l, v);
      }
    }
  }

  lemma {:induction false} ForLoopHolds(m: Machine, g: set<Name>, names: set<Name>, lab: Option<Name>, name: Name,
                                        loc: nat, last: int, body: seq<Stmt>, ro: bool, st: State, fuel: nat, l: nat,
                                        v: Value)
    requires OpsSpare(m, g) && name in names && AllLoopVars(body) <= names && Holds(g, names, st, l, v)
    ensures Holds(g, names, ForLoop(m, lab, name, loc, last, body, ro, st, fuel).st, l, v)
    decreases fuel, 1, body, 2
  {
    hide ExecStmts, Holds, AllLoopVars, OpsSpare, LeaveLoop, ForNext;
    EmptyGuards(l, names);
    if fuel > 0 {
      ScopedHold(m, g, names, body, ro, st, map[], fuel - 1, l, v);
      var r := ExecStmts(m, body, ro, Enter(st, map[]), fuel - 1);
      LoopEndHolds(g, names, lab, r, l, v);
      ForNextHolds(m, g, names, lab, name, last, body, ro, Exit(r.st), fuel - 1, l, v);
    }
  }

  lemma {:induction false} ForNextHolds(m: Machine, g: set<Name>, names: set<Name>, lab: Option<Name>, name: Name,
                                        last: int, body: seq<Stmt>, ro: bool, st: State, fuel: nat, l: nat, v: Value)
    requires OpsSpare(m, g) && name in names && AllLoopVars(body) <= names && Holds(g, names, st, l, v)
    ensures Holds(g, names, ForNext(m, lab, name, last, body, ro, st, fuel).st, l, v)
    decreases fuel, 1, body, 3
  {
    FoundGuarded(st.scopes, st.root, name, l, g, names);
    hide ForLoop, Holds, AllLoopVars, OpsSpare, Lookup, Set;
    FailHolds(g, names, st, NameError, l, v);
    FailHolds(g, names, st, SystemError, l, v);
    SetHolds(g, names, st, l, v);
    var e := Find(st, name);
    if e.Some? && ValueAt(st.store, e.value.loc).Int? {
      ForLoopHolds(m, g, names, lab, name, e.value.loc, last, body, ro,
        Set(st, e.value.loc, Int(ValueAt(st.store, e.value.loc).i + 1)), fuel, l, v);
    }
  }

  lemma {:induction false} ForeachHolds(m: Machine, g: set<Name>, names: set<Name>, s: Stmt, ro: bool, st: State,
                                        fuel: nat, l: nat, v: Value)
    requires s.Foreach? && OpsSpare(m, g) && LoopVars(s) <= names && Holds(g, names, st, l, v)
    ensures Holds(g, names, ExecForeach(m, s, ro, st, fuel).st, l, v)
    decreases fuel, 1, s, 1
  {
    FoundGuarded(st.scopes, st.root, s.name, l, g, names);
    hide ForeachLoop, Holds, AllLoopVars, OpsSpare, Lookup, Env, DbFail;
    FailHolds(g, names, st, NameError, l, v);
    match m.rows(s.table, Env(st), View(st), st.clock)
    case Err(er) => DbFailHolds(g, names, st, er, l, v);
    case Ok(rows) =>
      var e := Find(st, s.name);
      if e.Some? {
        var st1 := Tick(st).(foreachs := [rows] + st.foreachs);
        SameVarsHold(g, names, st, st1, l, v);
        ForeachLoopHolds(m, g, names, s.lab, s.name, e.value.loc, s.body, ro, st1, fuel, l, v);
        var r := ForeachLoop(m, s.lab, s.name, e.value.loc, s.body, ro, st1, fuel);
        SameVarsHold(g, names, r.st, EndForeach(r).st, l, v);
      }
  }

  lemma DbFailHolds(g: set<Name>, names: set<Name>, st: State, e: Error, l: nat, v: Value)
    requires Holds(g, names, st, l, v)
    ensures Holds(g, names, DbFail(Tick(st), e), l, v)
  {
    hide Step, ScopesGuard, ScopeGuards;
  }

  lemma FetchEndHolds(g: set<Name>, names: set<Name>, st: State, e: Error, l: nat, v: Value)
    requires Holds(g, names, st, l, v)
    ensures Holds(g, names, DbFail(Tick(st), e).(err := None), l, v) && Holds(g, names, Tick(st).(err := None), l, v)
  {
    hide Step, ScopesGuard, ScopeGuards;
  }

  lemma NextRowHolds(g: set<Name>, names: set<Name>, st: State, loc: nat, l: nat, v: Value)
    requires st.foreachs != [] && st.foreachs[0] != [] && loc != l && Holds(g, names, st, l, v)
    ensures Holds(g, names, NextRow(st, loc), l, v)
  {}

  lemma {:induction false} ForeachLoopHolds(m: Machine, g: set<Name>, names: set<Name>, lab: Option<Name>, name: Name,
                                            loc: nat, body: seq<Stmt>, ro: bool, st: State, fuel: nat, l: nat, v: Value)
    requires OpsSpare(m, g) && name in names && AllLoopVars(body) <= names && Holds(g, names, st, l, v) && loc != l
    ensures Holds(g, names, ForeachLoop(m, lab, name, loc, body, ro, st, fuel).st, l, v)
    decreases fuel, 1, body, 2
  {
    hide ExecStmts, ForeachNext, NextRow, DbFail, Holds, AllLoopVars, OpsSpare;
    EmptyGuards(l, names);
    if fuel > 0 {
      var fail := m.fetch(st.clock);
      FetchEndHolds(g, names, st, if fail.Some? then fail.value else Error(NotFound, false, EndsNone), l, v);
      if st.foreachs != [] && st.foreachs[0] != [] {
        NextRowHolds(g, names, st, loc, l, v);
        ScopedHold(m, g, names, body, ro, NextRow(st, loc), map[], fuel - 1, l, v);
        var r := Exited(ExecStmts(m, body, ro, Enter(NextRow(st, loc), map[]), fuel - 1));
        ForeachNextHolds(m, g, names, lab, name, body, ro, r, fuel - 1, l, v);
      }
    }
  }

  lemma {:induction false} ForeachNextHolds(m: Machine, g: set<Name>, names: set<Name>, lab: Option<Name>, name: Name,
                                            body: seq<Stmt>, ro: bool, r: Res, fuel: nat, l: nat, v: Value)
    requires OpsSpare(m, g) && name in names && AllLoopVars(body) <= names && Holds(g, names, r.st, l, v)
    ensures Holds(g, names, ForeachNext(m, lab, name, body, ro, r, fuel).st, l, v)
    decreases fuel, 1, body, 3
  {
    FoundGuarded(r.st.scopes, r.st.root, name, l, g, names);
    SameVarsHold(g, names, r.st, r.st.(err := None), l, v);
    hide ForeachLoop, Holds, AllLoopVars, OpsSpare, Lookup;
    FailHolds(g, names, r.st, NameError, l, v);
    FailHolds(g, names, r.st, SystemError, l, v);
    var e := Find(r.st, name);
    if r.out == OK && e.Some? {
      ForeachLoopHolds(m, g, names, lab, name, e.value.loc, body, ro, r.st, fuel, l, v);
    }
  }

  lemma {:induction false} TryHolds(m: Machine, g: set<Name>, names: set<Name>, s: Stmt, ro: bool, st: State, fuel: nat,
                                    l: nat, v: Value)
    requires s.Try? && OpsSpare(m, g) && LoopVars(s) <= names && Holds(g, names, st, l, v)
    ensures Holds(g, names, Exec(m, s, ro, st, fuel).st, l, v)
    decreases fuel, 1, s, 1
  {
    hide ExecStmts, ExecCatches, Holds, AllLoopVars, CatchLoopVars, OpsSpare;
    EmptyGuards(l, names);
    ScopedHold(m, g, names, s.body, ro, st, map[], fuel, l, v);
    var r := Exited(ExecStmts(m, s.body, ro, Enter(st, map[]), fuel));
    if r.out == ERROR && r.st.err.Some? {
      CatchesHold(m, g, names, s.catches, ro, r.st, fuel, l, v);
    }
  }

  lemma {:induction false} CatchesHold(m: Machine, g: set<Name>, names: set<Name>, catches: seq<Catch>, ro: bool,
                                       st: State, fuel: nat, l: nat, v: Value)
    requires st.err.Some? && OpsSpare(m, g) && CatchLoopVars(catches) <= names && Holds(g, names, st, l, v)
    ensures Holds(g, names, ExecCatches(m, catches, ro, st, fuel).st, l, v)
    decreases fuel, 1, catches, 1
  {
    hide ExecCatch, Holds, AllLoopVars, OpsSpare;
    if catches != [] {
      CatchHolds(m, g, names, catches[0], ro, st, fuel, l, v);
      CatchesHold(m, g, names, catches[1..], ro, st, fuel, l, v);
    }
  }

  lemma {:induction false} CatchHolds(m: Machine, g: set<Name>, names: set<Name>, c: Catch, ro: bool, st: State,
                                      fuel: nat, l: nat, v: Value)
    requires st.err.Some? && OpsSpare(m, g) && AllLoopVars(c.body) <= names && Holds(g, names, st, l, v)
    ensures Holds(g, names, ExecCatch(m, c, ro, st, fuel).st, l, v)
    decreases fuel, 1, c, 1
  {
    hide ExecStmts, AllLoopVars, OpsSpare;
    SetHolds(g, names, st, l, v);
    var st0 := Alloc(st, ErrorVal(st.err.value.typ)).(retryable := st.err.value.retryable, err := None);
    ScopedHold(m, g, names, c.body, ro, st0, map[c.name := Entry(|st.store|, false)], fuel, l, v);
  }

  // ----- Operators -----

  lemma {:induction false} ParamsGuard(params: seq<Param>, refs: seq<Ref>, l: nat, names: set<Name>)
    requires |params| == |refs|
    requires forall i :: 0 <= i < |params| ==> refs[i].loc == l ==> !params[i].update
    requires forall i :: 0 <= i < |params| ==> !params[i].update ==> params[i].name !in names
    ensures ScopeGuards(ParamScope(params, refs), l, names)
  {
    if params != [] {
      ParamsGuard(params[..|params| - 1], refs[..|refs| - 1], l, names);
    }
  }

  /** None of the arguments is at this location, or it is for a parameter that is not for update. */
  predicate RefsFit(m: Machine, name: Name, refs: seq<Ref>, l: nat) {
    name in m.ops && |refs| == |m.ops[name].params| &&
    forall i :: 0 <= i < |refs| ==> refs[i].loc == l ==> !m.ops[name].params[i].update
  }

  lemma {:induction false} BodyHolds(m: Machine, g: set<Name>, names: set<Name>, name: Name, refs: seq<Ref>, st: State,
                                     fuel: nat, l: nat, v: Value)
    requires OpsSpare(m, g) && RefsFit(m, name, refs, l) && fuel > 0 && Holds(g, names, st, l, v)
    ensures Holds(g, names, RunBody(m, name, m.ops[name], refs, st, fuel).st, l, v)
    decreases fuel - 1, 2
  {
    hide ExecStmts, AllLoopVars;
    var op := m.ops[name];
    var vars := AllLoopVars(op.body);
    assert vars <= g && ParamsSpared(op);
    ParamsGuard(op.params, refs, l, vars);
    hide ParamScope, OpsSpare;
    var scope := ParamScope(op.params, refs);
    var st1 := st.(scopes := [scope], innerOp := Some(name));
    assert st1.scopes[1..] == [];
    assert ScopesGuard([scope], l, vars) by { assert [scope][1..] == []; }
    assert Holds(g, vars, st1, l, v);
    StmtsHold(m, g, vars, op.body, op.readOnly, st1, fuel - 1, l, v);
  }

  lemma {:induction false} InvokeHolds(m: Machine, g: set<Name>, names: set<Name>, name: Name, refs: seq<Ref>,
                                       st: State, fuel: nat, l: nat, v: Value)
    requires OpsSpare(m, g) && RefsFit(m, name, refs, l) && Holds(g, names, st, l, v)
    ensures Holds(g, names, InvokeUpdateOp(m, name, m.ops[name], refs, st, fuel).st, l, v)
    ensures Holds(g, names, InvokeRoOp(m, name, m.ops[name], refs, st, fuel).st, l, v)
    decreases fuel, 0, 0
  {
    FailHolds(g, names, st, SystemError, l, v);
    if fuel > 0 {
      BodyHolds(m, g, names, name, refs, st, fuel, l, v);
      FailHolds(g, names, RunBody(m, name, m.ops[name], refs, st, fuel).st, SyntaxError, l, v);
    }
    hide RunBody, Holds;
  }

  lemma {:induction false} CallHolds(m: Machine, g: set<Name>, names: set<Name>, name: Name, args: seq<Arg>, st: State,
                                     fuel: nat, l: nat, v: Value)
    requires OpsSpare(m, g) && Holds(g, names, st, l, v)
    ensures Holds(g, names, ExecCall(m, name, args, st, fuel).st, l, v)
    decreases fuel, 0, 1
  {
    hide EvalArgs, InvokeUpdateOp, Holds, OpsSpare;
    ArgumentsHold(m, g, names, args, [], st, l, v);
    var a := EvalArgs(m, args, [], st);
    FailHolds(g, names, a.st, OperatorNotFound, l, v);
    FailHolds(g, names, a.st, InvalidArgument, l, v);
    var n := if a.refs.Some? then FindOp(m, name, a.st.innerOp, |a.refs.value|) else None;
    if n.Some? && UpdateArgsOk(m.ops[n.value].params, a.refs.value) {
      InvokeHolds(m, g, names, n.value, a.refs.value, a.st, fuel, l, v);
    }
  }

  lemma {:induction false} AssignOpHolds(m: Machine, g: set<Name>, names: set<Name>, name: Name, op: Name,
                                         exps: seq<Exp>, st: State, fuel: nat, l: nat, v: Value)
    requires OpsSpare(m, g) && Holds(g, names, st, l, v)
    ensures Holds(g, names, ExecAssignOp(m, name, op, exps, st, fuel).st, l, v)
    decreases fuel, 0, 1
  {
    hide EvalArgs, InvokeRoOp, Holds, OpsSpare, Store;
    var args := seq(|exps|, i requires 0 <= i < |exps| => ExpArg(exps[i]));
    ArgumentsHold(m, g, names, args, [], st, l, v);
    var a := EvalArgs(m, args, [], st);
    FailHolds(g, names, a.st, OperatorNotFound, l, v);
    if a.refs.Some? && HasOp(m, op, true, |a.refs.value|) {
      TempsAreNoVars(m, args, [], st);
      InvokeHolds(m, g, names, op, a.refs.value, a.st, fuel, l, v);
      var r := InvokeRoOp(m, op, m.ops[op], a.refs.value, a.st, fuel);
      StoreHolds(g, names, r.st, name, r.st.ret, l, v);
    }
  }

  lemma {:induction false} TempsAreNoVars(m: Machine, args: seq<Arg>, done: seq<Ref>, st: State)
    requires forall i :: 0 <= i < |args| ==> args[i].ExpArg?
    requires forall i :: 0 <= i < |done| ==> !done[i].isVar
    ensures var a := EvalArgs(m, args, done, st);
      a.refs.Some? ==> forall i :: 0 <= i < |a.refs.value| ==> !a.refs.value[i].isVar
    decreases |args|
  {
    hide Evaluate;
    if args != [] {
      var a := EvalArg(m, args[0], st);
      if a.refs.Some? {
        assert |a.refs.value| == 1 && !a.refs.value[0].isVar;
        TempsAreNoVars(m, args[1..], done + a.refs.value, a.st);
      }
    }
  }

  // ----- How constants lose their values -----

  /** A constant cannot be the target of an assignment, but FOR takes it as its variable and overwrites it. */
  lemma ForOverwritesConstant(m: Machine, name: Name, first: Exp, last: Exp, loc: nat, i: int, j: int, body: seq<Stmt>,
                              ro: bool, st: State, fuel: nat)
    requires fuel > 0 && Find(st, name) == Some(Entry(loc, true)) && loc < |st.store| && st.store[loc].Int?
    requires Evaluate(m, first, st).val == Some(Int(i)) && j < i
    requires Evaluate(m, last, Set(Tick(st), loc, Int(i))).val == Some(Int(j))
    ensures forall v :: Store(st, name, v).out == ERROR
    ensures var r := Exec(m, For(None, name, first, last, body), ro, st, fuel);
      r.out == OK && r.st.store == st.store[loc := Int(i)]
  {
    hide Visible, Lookup;
    var s, st1 := For(None, name, first, last, body), Set(Tick(st), loc, Int(i));
    assert Evaluate(m, first, st).st == Tick(st) && EvalInt(m, last, st1) == Eval(Some(Int(j)), Tick(st1));
    assert ExecFor(m, s, ro, st, fuel) == ForLoop(m, None, name, loc, j, body, ro, Tick(st1), fuel);
    assert ValueAt(Tick(st1).store, loc) == Int(i);
  }

  /** A machine on which evaluation succeeds at one time only, with this value. */
  function EvalOnce(v: Value, time: nat): Machine {
    Machine(
      (e, env, db, clock) => if clock == time then Ok(v) else Err(Error(InvalidArgument, false, EndsNone)),
      (e, env, db, clock) => Err(Error(InvalidArgument, false, EndsNone)), clock => None,
      (u, env, db, clock) => Ok(db), (n, db, clock) => Ok(db), clock => None, clock => None, clock => None,
      clock => false, true, map[], (n, n') => n)
  }

  /**
   * FOR with a constant as its variable stores any int there on some machine, whatever its body is, iff the constant
   * is an int; otherwise it changes nothing.
   */
  lemma ForSetsConstant(s: Stmt, loc: nat, i: int, ro: bool, st: State, fuel: nat)
    requires s.For? && Find(st, s.name) == Some(Entry(loc, true)) && loc < |st.store|
    ensures (exists m :: Exec(m, s, ro, st, fuel).st.store == st.store[loc := Int(i)]) <==>
            st.store[loc].Int?
    ensures !st.store[loc].Int? ==> forall m :: Exec(m, s, ro, st, fuel).st.store == st.store
  {
    if st.store[loc].Int? {
      var m := EvalOnce(Int(i), st.clock);
      hide Lookup, Visible, Step, ForLoop;
      assert Evaluate(m, s.first, st) == Eval(Some(Int(i)), Tick(st));
      var st1 := Set(Tick(st), loc, Int(i));
      assert EvalInt(m, s.last, st1).val == None && EvalInt(m, s.last, st1).st.store == st1.store;
      assert Exec(m, s, ro, st, fuel).st.store == st.store[loc := Int(i)];
    } else {
      hide Lookup, Visible, Step, ForLoop;
      forall m ensures Exec(m, s, ro, st, fuel).st.store == st.store {
        assert Exec(m, s, ro, st, fuel) == ExecFor(m, s, ro, st, fuel) == Fail(st, TypeMismatch);
      }
      assert st.store[loc := Int(i)][loc] == Int(i);
    }
  }

  // ----- FOREACH -----

  /** A machine on which the table of a FOREACH loop has one tuple at one time, and nothing else can be evaluated. */
  function OneTuple(v: Value, time: nat): Machine {
    EvalOnce(v, time).(
      eval := (e, env, db, clock) => Err(Error(InvalidArgument, false, EndsNone)),
      rows := (e, env, db, clock) => if clock == time then Ok([v]) else Err(Error(InvalidArgument, false, EndsNone)))
  }

  /** From this time on no expression and no table can be evaluated, and there are no operators. */
  ghost predicate Frozen(m: Machine, time: nat) {
    m.ops == map[] && (forall e, env, db, clock :: m.eval(e, env, db, clock).Err?) &&
    forall e, env, db, clock :: clock >= time ==> m.rows(e, env, db, clock).Err?
  }

  /** All values that were there are still there, and the FOREACH loops still have the same to visit. */
  predicate Still(st: State, st': State) {
    st.store <= st'.store && st'.foreachs == st.foreachs && st'.clock >= st.clock
  }

  lemma FailsStill(m: Machine, time: nat, e: Exp, st: State)
    requires Frozen(m, time)
    ensures Evaluate(m, e, st).val == EvalBool(m, e, st).val == None && Still(st, Evaluate(m, e, st).st) &&
      EvalBool(m, e, st).st == Evaluate(m, e, st).st
  {
    hide Step, Visible;
    assert m.eval(e, Env(st), View(st), st.clock).Err?;
  }

  lemma {:induction false} ArgsStill(m: Machine, time: nat, args: seq<Arg>, done: seq<Ref>, st: State)
    requires Frozen(m, time)
    ensures Still(st, EvalArgs(m, args, done, st).st)
    decreases |args|
  {
    hide Frozen, Evaluate, Lookup;
    if args != [] {
      match args[0]
      case VarArg(n) =>
        var a := EvalArg(m, args[0], st);
        if a.refs.Some? {
          ArgsStill(m, time, args[1..], done + a.refs.value, a.st);
        }
      case ExpArg(e) => FailsStill(m, time, e, st);
    }
  }

  lemma DbFailStill(st: State, e: Error)
    ensures Still(st, DbFail(Tick(st), e))
  {
    hide Step;
  }

  lemma TxStill(m: Machine, st: State)
    ensures Still(st, ExecBegin(m, st).st) && Still(st, ExecCommit(m, st).st) && Still(st, ExecRollback(m, st).st)
  {
    forall e ensures Still(st, DbFail(Tick(st), e)) {
      DbFailStill(st, e);
    }
    hide Step, DbFail;
  }

  lemma UpdateStill(m: Machine, st: State, u: Exp)
    ensures Still(st, ExecUpdate(m, u, st).st)
  {
    hide Step, DbFail, Visible;
    if View(st).Some? && m.update(u, Env(st), View(st).value, st.clock).Err? {
      DbFailStill(st, m.update(u, Env(st), View(st).value, st.clock).error);
    }
  }

  lemma DropStill(m: Machine, st: State, name: Name)
    ensures Still(st, ExecVarDrop(m, name, st).st)
  {
    hide Step, DbFail;
    if Running(st.tx) && m.drop(name, st.tx.stack[0].view, st.clock).Err? {
      DbFailStill(st, m.drop(name, st.tx.stack[0].view, st.clock).error);
    }
  }

  lemma {:induction false} StmtStill(m: Machine, time: nat, s: Stmt, ro: bool, st: State, fuel: nat)
    requires Frozen(m, time) && st.clock >= time
    ensures Still(st, Exec(m, s, ro, st, fuel).st)
    decreases s, 1
  {
    hide Frozen, Evaluate, EvalBool, EvalInt, ExecStmts, ExecCatches, ExecUpdate, ExecVarDrop, ExecBegin, ExecCommit,
      ExecRollback, EvalArgs, Lookup;
    match s
    case Block(body) => StmtsStill(m, time, body, ro, st, fuel);
    case If(cond, _, _) => FailsStill(m, time, cond, st);
    case Case(whens, els) => CaseStill(m, time, s, ro, st, fuel);
    case While(_, cond, _) => FailsStill(m, time, cond, st);
    case For(_, _, first, _, _) => FailsStill(m, time, first, st);
    case Foreach(_, _, _, _) => LoopStill(m, time, s, ro, st, fuel);
    case Return(exp) => if exp.Some? { FailsStill(m, time, exp.value, st); }
    case Try(body, catches) => TryStill(m, time, s, ro, st, fuel);
    case VarDef(_, init, _) => FailsStill(m, time, init, st);
    case VarDrop(name) => DropStill(m, st, name);
    case Assign(_, exp) => FailsStill(m, time, exp, st);
    case AssignOp(_, _, exps) => CallsStill(m, time, s, ro, st, fuel);
    case Call(_, _) => CallsStill(m, time, s, ro, st, fuel);
    case Update(u) => UpdateStill(m, st, u);
    case BeginTx => TxStill(m, st);
    case CommitTx => TxStill(m, st);
    case RollbackTx => TxStill(m, st);
    case _ =>
  }

  lemma LoopStill(m: Machine, time: nat, s: Stmt, ro: bool, st: State, fuel: nat)
    requires s.Foreach? && Frozen(m, time) && st.clock >= time
    ensures Still(st, Exec(m, s, ro, st, fuel).st)
  {
    hide Step, DbFail, Lookup, Visible;
    assert m.rows(s.table, Env(st), View(st), st.clock).Err?;
    DbFailStill(st, m.rows(s.table, Env(st), View(st), st.clock).error);
  }

  lemma CallsStill(m: Machine, time: nat, s: Stmt, ro: bool, st: State, fuel: nat)
    requires (s.Call? || s.AssignOp?) && Frozen(m, time)
    ensures Still(st, Exec(m, s, ro, st, fuel).st)
  {
    var args := if s.Call? then s.args else seq(|s.exps|, i requires 0 <= i < |s.exps| => ExpArg(s.exps[i]));
    ArgsStill(m, time, args, [], st);
    hide EvalArgs;
    assert m.ops == map[];
  }

  lemma {:induction false} StmtsStill(m: Machine, time: nat, ss: seq<Stmt>, ro: bool, st: State, fuel: nat)
    requires Frozen(m, time) && st.clock >= time
    ensures Still(st, ExecStmts(m, ss, ro, st, fuel).st)
    decreases ss, 0
  {
    hide Exec, Frozen;
    if ss != [] {
      StmtStill(m, time, ss[0], ro, st, fuel);
      StmtsStill(m, time, ss[1..], ro, Exec(m, ss[0], ro, st, fuel).st, fuel);
    }
  }

  lemma {:induction false} CaseStill(m: Machine, time: nat, s: Stmt, ro: bool, st: State, fuel: nat)
    requires s.Case? && Frozen(m, time) && st.clock >= time
    ensures Still(st, Exec(m, s, ro, st, fuel).st)
    decreases s, 0
  {
    hide EvalBool, ExecStmts, Frozen;
    if s.whens == [] {
      StmtsStill(m, time, s.els, ro, Enter(st, map[]), fuel);
    } else {
      FailsStill(m, time, s.whens[0].cond, st);
    }
  }

  lemma {:induction false} TryStill(m: Machine, time: nat, s: Stmt, ro: bool, st: State, fuel: nat)
    requires s.Try? && Frozen(m, time) && st.clock >= time
    ensures Still(st, Exec(m, s, ro, st, fuel).st)
    decreases s, 0
  {
    hide ExecStmts, ExecCatches, Frozen;
    StmtsStill(m, time, s.body, ro, Enter(st, map[]), fuel);
    var r := Exited(ExecStmts(m, s.body, ro, Enter(st, map[]), fuel));
    if r.out == ERROR && r.st.err.Some? {
      CatchesStill(m, time, s.catches, ro, r.st, fuel);
    }
  }

  lemma {:induction false} CatchesStill(m: Machine, time: nat, catches: seq<Catch>, ro: bool, st: State, fuel: nat)
    requires st.err.Some? && Frozen(m, time) && st.clock >= time
    ensures Still(st, ExecCatches(m, catches, ro, st, fuel).st)
    decreases catches
  {
    hide ExecStmts, Frozen;
    if catches != [] {
      var c := catches[0];
      var st1 := Enter(Alloc(st, ErrorVal(st.err.value.typ)), map[c.name := Entry(|st.store|, false)]);
      StmtsStill(m, time, c.body, ro, st1.(retryable := st.err.value.retryable, err := None), fuel);
      CatchesStill(m, time, catches[1..], ro, st, fuel);
    }
  }

  /** The statement leaves this value at the location. */
  predicate LeavesValue(m: Machine, s: Stmt, ro: bool, st: State, fuel: nat, loc: nat, v: Value) {
    ValueAt(Exec(m, s, ro, st, fuel).st.store, loc) == v
  }

  /** FOREACH with a constant as its variable leaves any value there on some machine, whatever its body is. */
  lemma ForeachSetsConstant(s: Stmt, loc: nat, v: Value, ro: bool, st: State, fuel: nat)
    requires s.Foreach? && fuel > 0 && Find(st, s.name) == Some(Entry(loc, true)) && loc < |st.store|
    ensures exists m :: LeavesValue(m, s, ro, st, fuel, loc, v)
  {
    var m := OneTuple(v, st.clock);
    var st1 := Tick(st).(foreachs := [[v]] + st.foreachs);
    hide Lookup, Visible, Step, ForeachLoop;
    assert m.rows(s.table, Env(st), View(st), st.clock) == Ok([v]);
    assert Frozen(m, st.clock + 1);
    OneRound(m, s, loc, v, ro, st1, fuel);
    assert Exec(m, s, ro, st, fuel) == EndForeach(ForeachLoop(m, s.lab, s.name, loc, s.body, ro, st1, fuel));
    assert LeavesValue(m, s, ro, st, fuel, loc, v);
  }

  lemma OneRound(m: Machine, s: Stmt, loc: nat, v: Value, ro: bool, st: State, fuel: nat)
    requires s.Foreach? && fuel > 0 && loc < |st.store| && st.foreachs != [] && st.foreachs[0] == [v]
    requires Frozen(m, st.clock) && forall clock :: m.fetch(clock) == None
    ensures ValueAt(ForeachLoop(m, s.lab, s.name, loc, s.body, ro, st, fuel).st.store, loc) == v
  {
    hide ExecStmts, Lookup;
    var st1 := NextRow(st, loc);
    StmtsStill(m, st.clock, s.body, ro, Enter(st1, map[]), fuel - 1);
    var r := Exited(ExecStmts(m, s.body, ro, Enter(st1, map[]), fuel - 1));
    assert Still(st1, r.st) && r.st.store[loc] == st1.store[loc] == v;
    hide Frozen, Exited;
    assert r.st.foreachs[0] == [];
    var e := Find(r.st, s.name);
    if e.Some? {
      assert ForeachLoop(m, s.lab, s.name, e.value.loc, s.body, ro, r.st, fuel - 1).st.store == r.st.store;
    }
  }

  // ----- Aliases -----

  /**
   * The other way for a constant to change: a variable that is an argument for update and another argument as well
   * changes under its constant name.
   */
  lemma AliasedParameter(params: seq<Param>, a: Name, b: Name, r: Ref, v: Value, st: State)
    requires params == [Param(a, true), Param(b, false)] && a != b
    requires r.isVar && !r.fixed && r.loc < |st.store| && SameType(st.store[r.loc], v)
    ensures UpdateArgsOk(params, [r, r])
    ensures var st1 := st.(scopes := [ParamScope(params, [r, r])]);
      Find(st1, b) == Some(Entry(r.loc, true)) && Store(st1, b, v).out == ERROR &&
      Store(st1, a, v) == Res(OK, Set(st1, r.loc, v))
  {
    assert ParamScope(params[..1], [r, r][..1]) == map[a := Entry(r.loc, false)] by {
      assert params[..1][..0] == [] && [r, r][..1][..0] == [];
    }
    assert ParamScope(params, [r, r]) == map[a := Entry(r.loc, false), b := Entry(r.loc, true)];
  }
}
