/**
 * How LEAVE gets to its loop and RETURN out of an operator (duro/dli/interp_stmt.c): when execution reaches a LEAVE,
 * it ends every statement up to the nearest WHILE or FOR loop with that label, and RETURN ends all of them, but
 * neither beyond a FOREACH loop.
 */
module Reaching {
  import opened ByteStrings
  import opened Options
  import opened Statements
  import opened Discipline
  import opened Leaving

  // ----- Executions that reach a LEAVE or RETURN -----

  /**
   * The execution of s reaches this LEAVE or RETURN in the state at, inside WHILE and FOR loops with these labels, the
   * outermost first, and inside no FOREACH loop.
   */
  predicate Reaches(m: Machine, s: Stmt, ro: bool, st: State, fuel: nat, leaf: Stmt, at: State, labs: seq<Option<Name>>)
    decreases fuel, s, 2
  {
    match s
    case Leave(_) => leaf == s && at == st && labs == []
    case Return(_) => leaf == s && at == st && labs == []
    case Block(body) => ReachesIn(m, body, ro, st, fuel, leaf, at, labs)
    case If(cond, body, els) =>
      var c := EvalBool(m, cond, st);
      c.val.Some? &&
      if c.val.value.b then ReachesIn(m, body, ro, Enter(c.st, map[]), fuel, leaf, at, labs)
      else ReachesIn(m, els, ro, Enter(c.st, map[]), fuel, leaf, at, labs)
    case Case(whens, els) => ReachesCase(m, s, 0, ro, st, fuel, leaf, at, labs)
    case While(lab, cond, body) =>
      labs != [] && labs[0] == lab && ReachesWhile(m, cond, body, ro, st, fuel, leaf, at, labs[1..])
    case For(lab, name, first, last, body) =>
      labs != [] && labs[0] == lab && ReachesFor(m, s, ro, st, fuel, leaf, at, labs[1..])
    case Try(body, catches) =>
      ReachesIn(m, body, ro, Enter(st, map[]), fuel, leaf, at, labs) ||
      (var r := Exited(ExecStmts(m, body, ro, Enter(st, map[]), fuel));
       r.out == ERROR && r.st.err.Some? && ReachesCatches(m, catches, ro, r.st, fuel, leaf, at, labs))
    case _ => false
  }

  predicate ReachesIn(m: Machine, ss: seq<Stmt>, ro: bool, st: State, fuel: nat, leaf: Stmt, at: State,
                      labs: seq<Option<Name>>)
    decreases fuel, ss, 0
  {
    ss != [] &&
    (Reaches(m, ss[0], ro, st, fuel, leaf, at, labs) ||
     (var r := Exec(m, ss[0], ro, st, fuel); r.out == OK && ReachesIn(m, ss[1..], ro, r.st, fuel, leaf, at, labs)))
  }

  predicate ReachesCase(m: Machine, s: Stmt, i: nat, ro: bool, st: State, fuel: nat, leaf: Stmt, at: State,
                        labs: seq<Option<Name>>)
    requires s.Case? && i <= |s.whens|
    decreases fuel, s, 1, |s.whens| - i
  {
    if i == |s.whens| then ReachesIn(m, s.els, ro, Enter(st, map[]), fuel, leaf, at, labs)
    else
      var c := EvalBool(m, s.whens[i].cond, st);
      c.val.Some? &&
      if c.val.value.b then ReachesIn(m, s.whens[i].body, ro, Enter(c.st, map[]), fuel, leaf, at, labs)
      else ReachesCase(m, s, i + 1, ro, c.st, fuel, leaf, at, labs)
  }

  /** In some iteration of the loop. */
  predicate ReachesWhile(m: Machine, cond: Exp, body: seq<Stmt>, ro: bool, st: State, fuel: nat, leaf: Stmt, at: State,
                         labs: seq<Option<Name>>)
    decreases fuel, body, 0
  {
    fuel > 0 &&
    var c := EvalBool(m, cond, st);
    c.val.Some? && c.val.value.b &&
    (ReachesIn(m, body, ro, Enter(c.st, map[]), fuel - 1, leaf, at, labs) ||
     (var r := ExecStmts(m, body, ro, Enter(c.st, map[]), fuel - 1);
      r.out == OK && !m.interrupted(r.st.clock) &&
      ReachesWhile(m, cond, body, ro, Exit(r.st), fuel - 1, leaf, at, labs)))
  }

  predicate ReachesFor(m: Machine, s: Stmt, ro: bool, st: State, fuel: nat, leaf: Stmt, at: State,
                       labs: seq<Option<Name>>)
    requires s.For?
    decreases fuel, s, 1
  {
    var e := Find(st, s.name);
    e.Some? && ValueAt(st.store, e.value.loc).Int? &&
    var v := Evaluate(m, s.first, st);
    v.val.Some? &&
    var w := EvalInt(m, s.last, Set(v.st, e.value.loc, v.val.value));
    w.val.Some? && ReachesForLoop(m, s.name, e.value.loc, w.val.value.i, s.body, ro, w.st, fuel, leaf, at, labs)
  }

  predicate ReachesForLoop(m: Machine, name: Name, loc: nat, last: int, body: seq<Stmt>, ro: bool, st: State, fuel: nat,
                           leaf: Stmt, at: State, labs: seq<Option<Name>>)
    decreases fuel, body, 0
  {
    fuel > 0 && ValueAt(st.store, loc).Int? && ValueAt(st.store, loc).i <= last &&
    (ReachesIn(m, body, ro, Enter(st, map[]), fuel - 1, leaf, at, labs) ||
     (var r := ExecStmts(m, body, ro, Enter(st, map[]), fuel - 1);
      r.out == OK && ReachesForNext(m, name, last, body, ro, Exit(r.st), fuel - 1, leaf, at, labs)))
  }

  predicate ReachesForNext(m: Machine, name: Name, last: int, body: seq<Stmt>, ro: bool, st: State, fuel: nat,
                           leaf: Stmt, at: State, labs: seq<Option<Name>>)
    decreases fuel, body, 1
  {
    var e := Find(st, name);
    e.Some? && !m.interrupted(st.clock) && ValueAt(st.store, e.value.loc).Int? &&
    ValueAt(st.store, e.value.loc).i != MAX_INT &&
    ReachesForLoop(m, name, e.value.loc, last, body, ro,
      Set(st, e.value.loc, Int(ValueAt(st.store, e.value.loc).i + 1)), fuel, leaf, at, labs)
  }

  predicate ReachesCatches(m: Machine, catches: seq<Catch>, ro: bool, st: State, fuel: nat, leaf: Stmt, at: State,
                           labs: seq<Option<Name>>)
    requires st.err.Some?
    decreases fuel, catches, 0
  {
    catches != [] &&
    if catches[0].typ.None? || catches[0].typ.value == st.err.value.typ then
      ReachesCatch(m, catches[0], ro, st, fuel, leaf, at, labs)
    else ReachesCatches(m, catches[1..], ro, st, fuel, leaf, at, labs)
  }

  predicate ReachesCatch(m: Machine, c: Catch, ro: bool, st: State, fuel: nat, leaf: Stmt, at: State,
                         labs: seq<Option<Name>>)
    requires st.err.Some?
    decreases fuel, c, 0
  {
    var st1 := Enter(Alloc(st, ErrorVal(st.err.value.typ)), map[c.name := Entry(|st.store|, false)]);
    ReachesIn(m, c.body, ro, st1.(retryable := st.err.value.retryable, err := None), fuel, leaf, at, labs)
  }

  // ----- LEAVE gets past every loop but its own, RETURN past all -----

  /** What a LEAVE or RETURN does by itself. */
  function End(m: Machine, leaf: Stmt, ro: bool, at: State): Res {
    match leaf
    case Leave(target) => Res(LEAVE, at.(leave := target))
    case Return(exp) => ExecReturn(m, exp, ro, at)
    case _ => Res(OK, at)
  }

  /** No loop with one of these labels stops what ends like q. */
  predicate Passes(q: Res, labs: seq<Option<Name>>) {
    q.out == RETURN || (q.out == LEAVE && (labs == [] || (q.st.leave.Some? && q.st.leave !in labs)))
  }

  /** r ends like q, only with the scopes of other statements. */
  predicate Left(r: Res, q: Res) {
    r == Res(q.out, q.st.(scopes := r.st.scopes))
  }

  lemma LeafEnds(m: Machine, leaf: Stmt, ro: bool, at: State, fuel: nat)
    requires leaf.Leave? || leaf.Return?
    ensures Exec(m, leaf, ro, at, fuel) == End(m, leaf, ro, at) && Left(End(m, leaf, ro, at), End(m, leaf, ro, at))
  {
    hide ExecReturn;
  }

  /**
   * When execution reaches a LEAVE and no loop around it up to s has that label, s ends with LEAVE: blocks, IF,
   * CASE, TRY, CATCH and loops with other labels let it through. So does every loop with a RETURN.
   */
  lemma {:induction false} LeavePasses(m: Machine, s: Stmt, ro: bool, st: State, fuel: nat, leaf: Stmt, at: State,
                                       labs: seq<Option<Name>>)
    requires Reaches(m, s, ro, st, fuel, leaf, at, labs) && Passes(End(m, leaf, ro, at), labs)
    ensures Left(Exec(m, s, ro, st, fuel), End(m, leaf, ro, at))
    decreases fuel, s, 2
  {
    hide ExecStmts, ExecCase, ExecWhile, ExecFor, ReachesIn, ReachesCase, ReachesWhile, ReachesFor, ExecCatches,
      ReachesCatches, EvalBool, End, ExecReturn, Left, Passes;
    match s
    case Leave(_) => LeafEnds(m, s, ro, st, fuel);
    case Return(_) => LeafEnds(m, s, ro, st, fuel);
    case Block(body) => InPasses(m, body, ro, st, fuel, leaf, at, labs);
    case If(_, _, _) => IfPasses(m, s, ro, st, fuel, leaf, at, labs);
    case Case(_, _) => CasePasses(m, s, 0, ro, st, fuel, leaf, at, labs);
    case While(_, _, _) => LoopPasses(m, s, ro, st, fuel, leaf, at, labs);
    case For(_, _, _, _, _) => LoopPasses(m, s, ro, st, fuel, leaf, at, labs);
    case Try(_, _) => TryPasses(m, s, ro, st, fuel, leaf, at, labs);
  }

  lemma {:induction false} IfPasses(m: Machine, s: Stmt, ro: bool, st: State, fuel: nat, leaf: Stmt, at: State,
                                    labs: seq<Option<Name>>)
    requires s.If? && Reaches(m, s, ro, st, fuel, leaf, at, labs) && Passes(End(m, leaf, ro, at), labs)
    ensures Left(Exec(m, s, ro, st, fuel), End(m, leaf, ro, at))
    decreases fuel, s, 1
  {
    hide ExecStmts, ReachesIn, EvalBool, End, Passes;
    var c := EvalBool(m, s.cond, st);
    InPasses(m, if c.val.value.b then s.body else s.els, ro, Enter(c.st, map[]), fuel, leaf, at, labs);
  }

  lemma {:induction false} LoopPasses(m: Machine, s: Stmt, ro: bool, st: State, fuel: nat, leaf: Stmt, at: State,
                                      labs: seq<Option<Name>>)
    requires (s.While? || s.For?) && Reaches(m, s, ro, st, fuel, leaf, at, labs)
    requires Passes(End(m, leaf, ro, at), labs)
    ensures Left(Exec(m, s, ro, st, fuel), End(m, leaf, ro, at))
    decreases fuel, s, 1
  {
    hide ExecWhile, ExecFor, ReachesWhile, ReachesFor, End;
    if s.While? {
      WhileStops(m, s.lab, s.cond, s.body, ro, st, fuel, leaf, at, labs[1..]);
    } else {
      ForStops(m, s, ro, st, fuel, leaf, at, labs[1..]);
    }
  }

  lemma {:induction false} TryPasses(m: Machine, s: Stmt, ro: bool, st: State, fuel: nat, leaf: Stmt, at: State,
                                     labs: seq<Option<Name>>)
    requires s.Try? && Reaches(m, s, ro, st, fuel, leaf, at, labs) && Passes(End(m, leaf, ro, at), labs)
    ensures Left(Exec(m, s, ro, st, fuel), End(m, leaf, ro, at))
    decreases fuel, s, 1
  {
    hide ExecStmts, ReachesIn, ExecCatches, ReachesCatches, End;
    if ReachesIn(m, s.body, ro, Enter(st, map[]), fuel, leaf, at, labs) {
      InPasses(m, s.body, ro, Enter(st, map[]), fuel, leaf, at, labs);
    } else {
      CatchesPass(m, s.catches, ro, Exited(ExecStmts(m, s.body, ro, Enter(st, map[]), fuel)).st, fuel, leaf, at, labs);
    }
  }

  lemma {:induction false} InPasses(m: Machine, ss: seq<Stmt>, ro: bool, st: State, fuel: nat, leaf: Stmt, at: State,
                                    labs: seq<Option<Name>>)
    requires ReachesIn(m, ss, ro, st, fuel, leaf, at, labs) && Passes(End(m, leaf, ro, at), labs)
    ensures Left(ExecStmts(m, ss, ro, st, fuel), End(m, leaf, ro, at))
    decreases fuel, ss, 0
  {
    hide Exec, Reaches;
    if Reaches(m, ss[0], ro, st, fuel, leaf, at, labs) {
      LeavePasses(m, ss[0], ro, st, fuel, leaf, at, labs);
    } else {
      InPasses(m, ss[1..], ro, Exec(m, ss[0], ro, st, fuel).st, fuel, leaf, at, labs);
    }
  }

  lemma {:induction false} CasePasses(m: Machine, s: Stmt, i: nat, ro: bool, st: State, fuel: nat, leaf: Stmt,
                                      at: State, labs: seq<Option<Name>>)
    requires s.Case? && i <= |s.whens| && ReachesCase(m, s, i, ro, st, fuel, leaf, at, labs)
    requires Passes(End(m, leaf, ro, at), labs)
    ensures Left(ExecCase(m, s, i, ro, st, fuel), End(m, leaf, ro, at))
    decreases fuel, s, 1, |s.whens| - i
  {
    hide EvalBool, ExecStmts, ReachesIn;
    if i == |s.whens| {
      InPasses(m, s.els, ro, Enter(st, map[]), fuel, leaf, at, labs);
    } else {
      var c := EvalBool(m, s.whens[i].cond, st);
      if c.val.value.b {
        InPasses(m, s.whens[i].body, ro, Enter(c.st, map[]), fuel, leaf, at, labs);
      } else {
        CasePasses(m, s, i + 1, ro, c.st, fuel, leaf, at, labs);
      }
    }
  }

  /** How a loop with this label ends when a LEAVE or RETURN like q reaches it. */
  predicate Stopped(r: Res, lab: Option<Name>, q: Res) {
    if q.out == RETURN then Left(r, q)
    else if q.st.leave == lab then r == Res(OK, q.st.(scopes := r.st.scopes))
    else if q.st.leave.None? then r.out == UNDEFINED(NullTarget)
    else Left(r, q)
  }

  lemma {:induction false} WhileStops(m: Machine, lab: Option<Name>, cond: Exp, body: seq<Stmt>, ro: bool, st: State,
                                      fuel: nat, leaf: Stmt, at: State, labs: seq<Option<Name>>)
    requires ReachesWhile(m, cond, body, ro, st, fuel, leaf, at, labs) && Passes(End(m, leaf, ro, at), labs)
    ensures Stopped(ExecWhile(m, lab, cond, body, ro, st, fuel), lab, End(m, leaf, ro, at))
    decreases fuel, body, 1
  {
    hide EvalBool, ExecStmts, ReachesIn;
    var c := EvalBool(m, cond, st);
    if ReachesIn(m, body, ro, Enter(c.st, map[]), fuel - 1, leaf, at, labs) {
      InPasses(m, body, ro, Enter(c.st, map[]), fuel - 1, leaf, at, labs);
    } else {
      var r := ExecStmts(m, body, ro, Enter(c.st, map[]), fuel - 1);
      WhileStops(m, lab, cond, body, ro, Exit(r.st), fuel - 1, leaf, at, labs);
    }
  }

  lemma {:induction false} ForStops(m: Machine, s: Stmt, ro: bool, st: State, fuel: nat, leaf: Stmt, at: State,
                                    labs: seq<Option<Name>>)
    requires s.For? && ReachesFor(m, s, ro, st, fuel, leaf, at, labs) && Passes(End(m, leaf, ro, at), labs)
    ensures Stopped(ExecFor(m, s, ro, st, fuel), s.lab, End(m, leaf, ro, at))
    decreases fuel, s, 0
  {
    hide Evaluate, EvalInt, ForLoop, ReachesForLoop, Lookup, Set;
    var e, v := Find(st, s.name), Evaluate(m, s.first, st);
    var w := EvalInt(m, s.last, Set(v.st, e.value.loc, v.val.value));
    ForLoopStops(m, s.lab, s.name, e.value.loc, w.val.value.i, s.body, ro, w.st, fuel, leaf, at, labs);
  }

  lemma {:induction false} ForLoopStops(m: Machine, lab: Option<Name>, name: Name, loc: nat, last: int, body: seq<Stmt>,
                                        ro: bool, st: State, fuel: nat, leaf: Stmt, at: State, labs: seq<Option<Name>>)
    requires ReachesForLoop(m, name, loc, last, body, ro, st, fuel, leaf, at, labs)
    requires Passes(End(m, leaf, ro, at), labs)
    ensures Stopped(ForLoop(m, lab, name, loc, last, body, ro, st, fuel), lab, End(m, leaf, ro, at))
    decreases fuel, body, 1
  {
    hide ExecStmts, ReachesIn, ForNext, ReachesForNext;
    if ReachesIn(m, body, ro, Enter(st, map[]), fuel - 1, leaf, at, labs) {
      InPasses(m, body, ro, Enter(st, map[]), fuel - 1, leaf, at, labs);
    } else {
      var r := ExecStmts(m, body, ro, Enter(st, map[]), fuel - 1);
      ForNextStops(m, lab, name, last, body, ro, Exit(r.st), fuel - 1, leaf, at, labs);
    }
  }

  lemma {:induction false} ForNextStops(m: Machine, lab: Option<Name>, name: Name, last: int, body: seq<Stmt>, ro: bool,
                                        st: State, fuel: nat, leaf: Stmt, at: State, labs: seq<Option<Name>>)
    requires ReachesForNext(m, name, last, body, ro, st, fuel, leaf, at, labs) && Passes(End(m, leaf, ro, at), labs)
    ensures Stopped(ForNext(m, lab, name, last, body, ro, st, fuel), lab, End(m, leaf, ro, at))
    decreases fuel, body, 2
  {
    hide ForLoop, ReachesForLoop, Lookup, Set;
    var e := Find(st, name);
    ForLoopStops(m, lab, name, e.value.loc, last, body, ro,
      Set(st, e.value.loc, Int(ValueAt(st.store, e.value.loc).i + 1)), fuel, leaf, at, labs);
  }

  lemma {:induction false} CatchesPass(m: Machine, catches: seq<Catch>, ro: bool, st: State, fuel: nat, leaf: Stmt,
                                       at: State, labs: seq<Option<Name>>)
    requires st.err.Some? && ReachesCatches(m, catches, ro, st, fuel, leaf, at, labs)
    requires Passes(End(m, leaf, ro, at), labs)
    ensures Left(ExecCatches(m, catches, ro, st, fuel), End(m, leaf, ro, at))
    decreases fuel, catches, 0
  {
    hide ExecStmts, ReachesIn;
    if catches[0].typ.None? || catches[0].typ.value == st.err.value.typ {
      var c := catches[0];
      var st1 := Enter(Alloc(st, ErrorVal(st.err.value.typ)), map[c.name := Entry(|st.store|, false)]);
      InPasses(m, c.body, ro, st1.(retryable := st.err.value.retryable, err := None), fuel, leaf, at, labs);
    } else {
      CatchesPass(m, catches[1..], ro, st, fuel, leaf, at, labs);
    }
  }

  /**
   * When execution reaches a LEAVE inside a WHILE or FOR loop s and no loop between them has that label, s ends
   * normally if its own label is the target, passes the LEAVE on if not, and compares a null pointer with its label
   * if there is no target. It passes a RETURN on.
   */
  lemma LeaveStops(m: Machine, s: Stmt, ro: bool, st: State, fuel: nat, leaf: Stmt, at: State, labs: seq<Option<Name>>)
    requires (s.While? || s.For?) && Reaches(m, s, ro, st, fuel, leaf, at, [s.lab] + labs)
    requires Passes(End(m, leaf, ro, at), labs)
    ensures Stopped(Exec(m, s, ro, st, fuel), s.lab, End(m, leaf, ro, at))
  {
    hide ExecWhile, ExecFor, ReachesWhile, ReachesFor;
    assert ([s.lab] + labs)[1..] == labs;
    if s.While? {
      WhileStops(m, s.lab, s.cond, s.body, ro, st, fuel, leaf, at, labs);
    } else {
      ForStops(m, s, ro, st, fuel, leaf, at, labs);
    }
  }

  // ----- And nothing else ends a statement with LEAVE or RETURN -----

  /** If s ends with LEAVE or RETURN, then execution has reached it, and no loop on the way has the label of a LEAVE. */
  lemma {:induction false} LeaveReached(m: Machine, s: Stmt, ro: bool, st: State, fuel: nat)
    returns (leaf: Stmt, at: State, labs: seq<Option<Name>>)
    requires Exec(m, s, ro, st, fuel).out in {LEAVE, RETURN}
    ensures Reaches(m, s, ro, st, fuel, leaf, at, labs) && Passes(End(m, leaf, ro, at), labs)
    ensures Left(Exec(m, s, ro, st, fuel), End(m, leaf, ro, at))
    decreases fuel, s, 2
  {
    hide EvalBool, ExecStmts, ExecCase, ExecWhile, ExecFor, ExecForeach, ExecCatches, ReachesIn, ReachesCase,
      ReachesWhile, ReachesFor, ReachesCatches, ExecCall, ExecAssignOp, ExecVarDef, ExecVarDrop, ExecAssign,
      ExecUpdate, ExecReturn, ExecBegin, ExecCommit, ExecRollback;
    leaf, at, labs := s, st, [];
    match s
    case Leave(_) =>
    case Return(exp) => ReturnLeaf(m, exp, ro, st);
    case Block(body) => leaf, at, labs := InReached(m, body, ro, st, fuel);
    case If(cond, body, els) =>
      var c := EvalBool(m, cond, st);
      leaf, at, labs := InReached(m, if c.val.value.b then body else els, ro, Enter(c.st, map[]), fuel);
    case Case(whens, els) => leaf, at, labs := CaseReached(m, s, 0, ro, st, fuel);
    case While(lab, cond, body) =>
      leaf, at, labs := WhileReached(m, lab, cond, body, ro, st, fuel);
      PassedToo(End(m, leaf, ro, at), lab, labs);
      labs := [lab] + labs;
    case For(lab, name, first, last, body) =>
      leaf, at, labs := ForReached(m, s, ro, st, fuel);
      PassedToo(End(m, leaf, ro, at), lab, labs);
      labs := [lab] + labs;
    case Try(body, catches) =>
      var r := Exited(ExecStmts(m, body, ro, Enter(st, map[]), fuel));
      if r.out in {LEAVE, RETURN} {
        leaf, at, labs := InReached(m, body, ro, Enter(st, map[]), fuel);
      } else {
        leaf, at, labs := CatchesReached(m, catches, ro, r.st, fuel);
      }
    case _ => NoLeave(m, s, ro, st, fuel);
  }

  /** The loop with this label does not stop it either. */
  predicate PassesLoop(q: Res, lab: Option<Name>) {
    q.out == RETURN || (q.st.leave.Some? && q.st.leave != lab)
  }

  lemma PassedToo(q: Res, lab: Option<Name>, labs: seq<Option<Name>>)
    requires Passes(q, labs) && PassesLoop(q, lab)
    ensures Passes(q, [lab] + labs) && ([lab] + labs)[1..] == labs
  {}

  lemma ReturnLeaf(m: Machine, exp: Option<Exp>, ro: bool, st: State)
    ensures ExecReturn(m, exp, ro, st).out in {RETURN, ERROR}
  {
    hide Evaluate;
  }

  lemma NoLeave(m: Machine, s: Stmt, ro: bool, st: State, fuel: nat)
    requires !s.Leave? && !s.Return? && !s.Block? && !s.If? && !s.Case? && !s.While? && !s.For? && !s.Try?
    ensures Exec(m, s, ro, st, fuel).out !in {LEAVE, RETURN}
  {
    hide Exec, Decent;
    ExecContained(false, m, s, ro, st, fuel);
  }

  lemma {:induction false} InReached(m: Machine, ss: seq<Stmt>, ro: bool, st: State, fuel: nat)
    returns (leaf: Stmt, at: State, labs: seq<Option<Name>>)
    requires ExecStmts(m, ss, ro, st, fuel).out in {LEAVE, RETURN}
    ensures ReachesIn(m, ss, ro, st, fuel, leaf, at, labs) && Passes(End(m, leaf, ro, at), labs)
    ensures Left(ExecStmts(m, ss, ro, st, fuel), End(m, leaf, ro, at))
    decreases fuel, ss, 0
  {
    hide Exec, Reaches;
    var r := Exec(m, ss[0], ro, st, fuel);
    if r.out in {LEAVE, RETURN} {
      leaf, at, labs := LeaveReached(m, ss[0], ro, st, fuel);
    } else {
      leaf, at, labs := InReached(m, ss[1..], ro, r.st, fuel);
    }
  }

  lemma {:induction false} CaseReached(m: Machine, s: Stmt, i: nat, ro: bool, st: State, fuel: nat)
    returns (leaf: Stmt, at: State, labs: seq<Option<Name>>)
    requires s.Case? && i <= |s.whens| && ExecCase(m, s, i, ro, st, fuel).out in {LEAVE, RETURN}
    ensures ReachesCase(m, s, i, ro, st, fuel, leaf, at, labs) && Passes(End(m, leaf, ro, at), labs)
    ensures Left(ExecCase(m, s, i, ro, st, fuel), End(m, leaf, ro, at))
    decreases fuel, s, 1, |s.whens| - i
  {
    hide EvalBool, ExecStmts, ReachesIn;
    if i == |s.whens| {
      leaf, at, labs := InReached(m, s.els, ro, Enter(st, map[]), fuel);
    } else {
      var c := EvalBool(m, s.whens[i].cond, st);
      if c.val.value.b {
        leaf, at, labs := InReached(m, s.whens[i].body, ro, Enter(c.st, map[]), fuel);
      } else {
        leaf, at, labs := CaseReached(m, s, i + 1, ro, c.st, fuel);
      }
    }
  }

  lemma {:induction false} WhileReached(m: Machine, lab: Option<Name>, cond: Exp, body: seq<Stmt>, ro: bool, st: State,
                                        fuel: nat) returns (leaf: Stmt, at: State, labs: seq<Option<Name>>)
    requires ExecWhile(m, lab, cond, body, ro, st, fuel).out in {LEAVE, RETURN}
    ensures ReachesWhile(m, cond, body, ro, st, fuel, leaf, at, labs) && Passes(End(m, leaf, ro, at), labs)
    ensures Left(ExecWhile(m, lab, cond, body, ro, st, fuel), End(m, leaf, ro, at))
    ensures PassesLoop(End(m, leaf, ro, at), lab)
    decreases fuel, body, 1
  {
    hide EvalBool, ExecStmts, ReachesIn;
    var c := EvalBool(m, cond, st);
    var r := ExecStmts(m, body, ro, Enter(c.st, map[]), fuel - 1);
    if r.out in {LEAVE, RETURN} {
      leaf, at, labs := InReached(m, body, ro, Enter(c.st, map[]), fuel - 1);
    } else {
      leaf, at, labs := WhileReached(m, lab, cond, body, ro, Exit(r.st), fuel - 1);
    }
  }

  lemma {:induction false} ForReached(m: Machine, s: Stmt, ro: bool, st: State, fuel: nat)
    returns (leaf: Stmt, at: State, labs: seq<Option<Name>>)
    requires s.For? && ExecFor(m, s, ro, st, fuel).out in {LEAVE, RETURN}
    ensures ReachesFor(m, s, ro, st, fuel, leaf, at, labs) && Passes(End(m, leaf, ro, at), labs)
    ensures Left(ExecFor(m, s, ro, st, fuel), End(m, leaf, ro, at)) && PassesLoop(End(m, leaf, ro, at), s.lab)
    decreases fuel, s, 1
  {
    hide Evaluate, EvalInt, ForLoop, ReachesForLoop, Lookup, Set;
    var e, v := Find(st, s.name), Evaluate(m, s.first, st);
    var w := EvalInt(m, s.last, Set(v.st, e.value.loc, v.val.value));
    leaf, at, labs := ForLoopReached(m, s.lab, s.name, e.value.loc, w.val.value.i, s.body, ro, w.st, fuel);
  }

  lemma {:induction false} ForLoopReached(m: Machine, lab: Option<Name>, name: Name, loc: nat, last: int,
                                          body: seq<Stmt>, ro: bool, st: State, fuel: nat)
    returns (leaf: Stmt, at: State, labs: seq<Option<Name>>)
    requires ForLoop(m, lab, name, loc, last, body, ro, st, fuel).out in {LEAVE, RETURN}
    ensures ReachesForLoop(m, name, loc, last, body, ro, st, fuel, leaf, at, labs)
    ensures Passes(End(m, leaf, ro, at), labs)
    ensures Left(ForLoop(m, lab, name, loc, last, body, ro, st, fuel), End(m, leaf, ro, at))
    ensures PassesLoop(End(m, leaf, ro, at), lab)
    decreases fuel, body, 1
  {
    hide ExecStmts, ReachesIn, ForNext, ReachesForNext;
    var r := ExecStmts(m, body, ro, Enter(st, map[]), fuel - 1);
    if r.out in {LEAVE, RETURN} {
      leaf, at, labs := InReached(m, body, ro, Enter(st, map[]), fuel - 1);
    } else {
      leaf, at, labs := ForNextReached(m, lab, name, last, body, ro, Exit(r.st), fuel - 1);
    }
  }

  lemma {:induction false} ForNextReached(m: Machine, lab: Option<Name>, name: Name, last: int, body: seq<Stmt>,
                                          ro: bool, st: State, fuel: nat)
    returns (leaf: Stmt, at: State, labs: seq<Option<Name>>)
    requires ForNext(m, lab, name, last, body, ro, st, fuel).out in {LEAVE, RETURN}
    ensures ReachesForNext(m, name, last, body, ro, st, fuel, leaf, at, labs) && Passes(End(m, leaf, ro, at), labs)
    ensures Left(ForNext(m, lab, name, last, body, ro, st, fuel), End(m, leaf, ro, at))
    ensures PassesLoop(End(m, leaf, ro, at), lab)
    decreases fuel, body, 2
  {
    hide ForLoop, ReachesForLoop, Lookup, Set;
    var e := Find(st, name);
    leaf, at, labs := ForLoopReached(m, lab, name, e.value.loc, last, body, ro,
      Set(st, e.value.loc, Int(ValueAt(st.store, e.value.loc).i + 1)), fuel);
  }

  lemma {:induction false} CatchesReached(m: Machine, catches: seq<Catch>, ro: bool, st: State, fuel: nat)
    returns (leaf: Stmt, at: State, labs: seq<Option<Name>>)
    requires st.err.Some? && ExecCatches(m, catches, ro, st, fuel).out in {LEAVE, RETURN}
    ensures ReachesCatches(m, catches, ro, st, fuel, leaf, at, labs) && Passes(End(m, leaf, ro, at), labs)
    ensures Left(ExecCatches(m, catches, ro, st, fuel), End(m, leaf, ro, at))
    decreases fuel, catches, 0
  {
    hide ExecStmts, ReachesIn;
    if catches[0].typ.None? || catches[0].typ.value == st.err.value.typ {
      var c := catches[0];
      var st1 := Enter(Alloc(st, ErrorVal(st.err.value.typ)), map[c.name := Entry(|st.store|, false)]);
      leaf, at, labs := InReached(m, c.body, ro, st1.(retryable := st.err.value.retryable, err := None), fuel);
    } else {
      leaf, at, labs := CatchesReached(m, catches[1..], ro, st, fuel);
    }
  }

  /** The execution of s reaches this LEAVE or RETURN, and no WHILE or FOR loop on the way stops it. */
  ghost predicate GetsOut(m: Machine, s: Stmt, ro: bool, st: State, fuel: nat, leaf: Stmt, at: State) {
    exists labs {:trigger Passes(End(m, leaf, ro, at), labs)} ::
      Passes(End(m, leaf, ro, at), labs) && Reaches(m, s, ro, st, fuel, leaf, at, labs)
  }

  lemma {:induction false} GetsOutEnds(m: Machine, s: Stmt, ro: bool, st: State, fuel: nat, leaf: Stmt, at: State)
    requires GetsOut(m, s, ro, st, fuel, leaf, at)
    ensures Left(Exec(m, s, ro, st, fuel), End(m, leaf, ro, at))
  {
    hide Exec, Reaches, End;
    var labs {:trigger Passes(End(m, leaf, ro, at), labs)} :|
      Passes(End(m, leaf, ro, at), labs) && Reaches(m, s, ro, st, fuel, leaf, at, labs);
    LeavePasses(m, s, ro, st, fuel, leaf, at, labs);
  }

  /** A statement ends with LEAVE iff its execution reaches that LEAVE and no WHILE or FOR loop on the way stops it. */
  lemma EndsWithLeave(m: Machine, s: Stmt, ro: bool, st: State, fuel: nat, t: Option<Name>)
    ensures Exec(m, s, ro, st, fuel).out == LEAVE && Exec(m, s, ro, st, fuel).st.leave == t <==>
            exists at :: GetsOut(m, s, ro, st, fuel, Leave(t), at)
  {
    hide Exec, Reaches;
    var r := Exec(m, s, ro, st, fuel);
    if r.out == LEAVE && r.st.leave == t {
      var leaf, at, labs := LeaveReached(m, s, ro, st, fuel);
      LeafKind(m, leaf, ro, at);
      assert GetsOut(m, s, ro, st, fuel, leaf, at);
    }
    forall at | GetsOut(m, s, ro, st, fuel, Leave(t), at) ensures r.out == LEAVE && r.st.leave == t {
      GetsOutEnds(m, s, ro, st, fuel, Leave(t), at);
    }
  }

  lemma LeafKind(m: Machine, leaf: Stmt, ro: bool, at: State)
    ensures End(m, leaf, ro, at).out == LEAVE ==> leaf == Leave(End(m, leaf, ro, at).st.leave)
    ensures End(m, leaf, ro, at).out == RETURN ==> leaf.Return?
  {
    hide Evaluate;
  }

  /**
   * A statement in a read-only operator ends with RETURN iff its execution reaches a RETURN, not inside FOREACH, whose
   * expression can be computed; the value that is returned is that of the expression, in the state of that RETURN.
   */
  lemma EndsWithReturn(m: Machine, s: Stmt, st: State, fuel: nat, v: Value)
    ensures Exec(m, s, true, st, fuel).out == RETURN && Exec(m, s, true, st, fuel).st.ret == v <==>
            exists e, at :: GetsOut(m, s, true, st, fuel, Return(Some(e)), at) &&
              m.eval(e, Env(at), View(at), at.clock) == Ok(v)
  {
    hide Exec, Reaches;
    var r := Exec(m, s, true, st, fuel);
    if r.out == RETURN && r.st.ret == v {
      var leaf, at, labs := LeaveReached(m, s, true, st, fuel);
      LeafKind(m, leaf, true, at);
      ReturnValue(m, leaf.exp, at);
      assert GetsOut(m, s, true, st, fuel, Return(leaf.exp), at);
    }
    forall e, at | GetsOut(m, s, true, st, fuel, Return(Some(e)), at) &&
      m.eval(e, Env(at), View(at), at.clock) == Ok(v) ensures r.out == RETURN && r.st.ret == v {
      GetsOutEnds(m, s, true, st, fuel, Return(Some(e)), at);
      ReturnValue(m, Some(e), at);
    }
  }

  /** RETURN in a read-only operator returns the value of its expression, and fails without one. */
  lemma ReturnValue(m: Machine, exp: Option<Exp>, at: State)
    ensures var q := ExecReturn(m, exp, true, at);
      if exp.Some? && m.eval(exp.value, Env(at), View(at), at.clock).Ok? then
        q.out == RETURN && q.st.ret == m.eval(exp.value, Env(at), View(at), at.clock).value
      else q.out == ERROR
  {
    hide Visible, DbFail;
  }

  // ----- FOREACH -----

  /** An iteration of a FOREACH loop, whose body starts in st1 with this fuel. */
  predicate Round(m: Machine, name: Name, loc: nat, body: seq<Stmt>, ro: bool, st: State, fuel: nat, st1: State, f: nat)
    decreases fuel
  {
    fuel > 0 && m.fetch(st.clock) == None && st.foreachs != [] && st.foreachs[0] != [] &&
    ((st1 == Enter(NextRow(st, loc), map[]) && f == fuel - 1) ||
     (var r := Exited(ExecStmts(m, body, ro, Enter(NextRow(st, loc), map[]), fuel - 1));
      r.out == OK && Find(r.st, name).Some? && !m.interrupted(r.st.clock) &&
      Round(m, name, Find(r.st, name).value.loc, body, ro, r.st, fuel - 1, st1, f)))
  }

  /** An iteration of the FOREACH statement. */
  predicate RoundOf(m: Machine, s: Stmt, ro: bool, st: State, fuel: nat, st1: State, f: nat)
    requires s.Foreach?
  {
    var rows := m.rows(s.table, Env(st), View(st), st.clock);
    Find(st, s.name).Some? && rows.Ok? &&
    Round(m, s.name, Find(st, s.name).value.loc, s.body, ro, Tick(st).(foreachs := [rows.value] + st.foreachs), fuel,
      st1, f)
  }

  /** How a FOREACH loop with this label ends when its body has ended like r. */
  predicate Swallowed(lab: Option<Name>, r: Res, r': Res) {
    (r.out == RETURN ==> r'.out == ERROR && r'.st.err == r.st.err) &&
    (r.out == LEAVE ==> r'.out == if lab.Some? && r.st.leave.None? then UNDEFINED(NullTarget) else OK)
  }

  lemma {:induction false} RoundSwallows(m: Machine, lab: Option<Name>, name: Name, loc: nat, body: seq<Stmt>, ro: bool,
                                         st: State, fuel: nat, st1: State, f: nat)
    requires Round(m, name, loc, body, ro, st, fuel, st1, f)
    ensures Swallowed(lab, ExecStmts(m, body, ro, st1, f), ForeachLoop(m, lab, name, loc, body, ro, st, fuel))
    decreases fuel
  {
    hide ExecStmts, NextRow, Lookup;
    var r := Exited(ExecStmts(m, body, ro, Enter(NextRow(st, loc), map[]), fuel - 1));
    if !(st1 == Enter(NextRow(st, loc), map[]) && f == fuel - 1) {
      RoundSwallows(m, lab, name, Find(r.st, name).value.loc, body, ro, r.st, fuel - 1, st1, f);
    }
  }

  lemma SoundFresh(st: State, r: Res)
    requires Sound(false, st, r)
    ensures r.out in {OK, RETURN, LEAVE} ==> r.st.err == None
  {}

  lemma {:induction false} RoundFresh(m: Machine, name: Name, loc: nat, body: seq<Stmt>, ro: bool, st: State, fuel: nat,
                                      st1: State, f: nat)
    requires st.err == None && Round(m, name, loc, body, ro, st, fuel, st1, f)
    ensures st1.err == None
    decreases fuel
  {
    hide ExecStmts, Lookup, Sound;
    var st0 := Enter(NextRow(st, loc), map[]);
    if !(st1 == st0 && f == fuel - 1) {
      StmtsSound(false, m, body, ro, st0, fuel - 1);
      var r := ExecStmts(m, body, ro, st0, fuel - 1);
      SoundFresh(st0, r);
      RoundFresh(m, name, Find(Exit(r.st), name).value.loc, body, ro, Exit(r.st), fuel - 1, st1, f);
    }
  }

  /**
   * A FOREACH loop stops every LEAVE that ends its body in some iteration, whatever its target, and turns a RETURN
   * into a failure without an error. So WHILE and FOR loops would end otherwise iff the target is another label.
   */
  lemma ForeachSwallows(m: Machine, s: Stmt, ro: bool, st: State, fuel: nat, st1: State, f: nat)
    requires s.Foreach? && st.err == None && RoundOf(m, s, ro, st, fuel, st1, f)
    ensures var r, r' := ExecStmts(m, s.body, ro, st1, f), Exec(m, s, ro, st, fuel);
      (r.out == RETURN ==> r'.out == ERROR && r'.st.err == None) &&
      (r.out == LEAVE ==>
         r'.out == (if s.lab.Some? && r.st.leave.None? then UNDEFINED(NullTarget) else OK) &&
         (r'.out == LeaveLoop(s.lab, r).out <==> r.st.leave == None || r.st.leave == s.lab))
  {
    hide Sound, ExecStmts, ForeachLoop, Round;
    var loc, rows := Find(st, s.name).value.loc, m.rows(s.table, Env(st), View(st), st.clock).value;
    var st' := Tick(st).(foreachs := [rows] + st.foreachs);
    RoundSwallows(m, s.lab, s.name, loc, s.body, ro, st', fuel, st1, f);
    RoundFresh(m, s.name, loc, s.body, ro, st', fuel, st1, f);
    StmtsSound(false, m, s.body, ro, st1, f);
    SoundFresh(st1, ExecStmts(m, s.body, ro, st1, f));
  }

  /** In particular it stops every LEAVE that execution reaches in its body and that no loop in the body stops. */
  lemma ForeachStopsLeave(m: Machine, s: Stmt, ro: bool, st: State, fuel: nat, st1: State, f: nat, t: Option<Name>,
                          at: State, labs: seq<Option<Name>>)
    requires s.Foreach? && st.err == None && RoundOf(m, s, ro, st, fuel, st1, f)
    requires ReachesIn(m, s.body, ro, st1, f, Leave(t), at, labs) && Passes(End(m, Leave(t), ro, at), labs)
    ensures Exec(m, s, ro, st, fuel).out == if s.lab.Some? && t.None? then UNDEFINED(NullTarget) else OK
  {
    InPasses(m, s.body, ro, st1, f, Leave(t), at, labs);
    hide Exec, RoundOf, ReachesIn, ExecStmts;
    ForeachSwallows(m, s, ro, st, fuel, st1, f);
  }
}
