/**
 * What a call gives to an operator and what it gets back (dli/interp_stmt.c): parameters stand for their own
 * arguments, and the value of RETURN is what an assignment stores.
 */
module Calls {
  import opened ByteStrings
  import opened Options
  import opened Statements
  import opened Reaching

  // ----- Arguments -----

  /** How many of the arguments are expressions, whose values get locations of their own. */
  function Temps(args: seq<Arg>): (n: nat)
    ensures n <= |args|
  {
    if args == [] then 0 else (if args[|args| - 1].ExpArg? then 1 else 0) + Temps(args[..|args| - 1])
  }

  /** The state in which an argument is evaluated after n expressions before it, if their values are these. */
  function After(st: State, vals: seq<Value>, n: nat): State
    requires n <= |vals|
  {
    st.(store := st.store + vals[..n], clock := st.clock + n)
  }

  /**
   * A variable is passed as itself, an expression as a new location with the value that it has after the expressions
   * before it were evaluated.
   */
  ghost predicate Passed(m: Machine, arg: Arg, n: nat, vals: seq<Value>, st: State, r: Ref)
    requires n <= |vals|
  {
    match arg
    case VarArg(name) =>
      Find(st, name).Some? && r == Ref(Find(st, name).value.loc, true, Find(st, name).value.fixed)
    case ExpArg(e) =>
      n < |vals| && r == Ref(|st.store| + n, false, false) &&
      var at := After(st, vals, n);
      m.eval(e, Env(at), View(at), at.clock) == Ok(vals[n])
  }

  ghost predicate AllPassed(m: Machine, args: seq<Arg>, vals: seq<Value>, st: State, refs: seq<Ref>) {
    |refs| == |args| && |vals| == Temps(args) &&
    forall i {:trigger refs[i]} :: 0 <= i < |args| ==>
      Temps(args[..i]) <= |vals| && Passed(m, args[i], Temps(args[..i]), vals, st, refs[i])
  }

  lemma {:induction false} TempsUpTo(args: seq<Arg>, i: nat)
    requires i <= |args|
    ensures Temps(args[..i]) <= Temps(args)
    decreases |args|
  {
    if i < |args| {
      assert args[..|args| - 1][..i] == args[..i];
      TempsUpTo(args[..|args| - 1], i);
    } else {
      assert args[..i] == args;
    }
  }

  /** The arguments were passed, with these values of expressions. */
  ghost predicate Yields(m: Machine, args: seq<Arg>, vals: seq<Value>, st: State, a: Args) {
    a.refs.Some? && AllPassed(m, args, vals, st, a.refs.value) && a.st == After(st, vals, |vals|)
  }

  lemma PassedLater(m: Machine, arg: Arg, n: nat, vals: seq<Value>, more: seq<Value>, st: State, r: Ref)
    requires n <= |vals| && Passed(m, arg, n, vals, st, r)
    ensures Passed(m, arg, n, vals + more, st, r)
  {
    assert (vals + more)[..n] == vals[..n];
    hide Visible, Lookup;
  }

  /** The next argument, after those in done. */
  lemma PassedOne(m: Machine, done: seq<Arg>, arg: Arg, vals: seq<Value>, st: State, refs: seq<Ref>)
    requires AllPassed(m, done, vals, st, refs)
    ensures var a := EvalArg(m, arg, After(st, vals, |vals|));
      a.refs.Some? ==> exists vals' :: Yields(m, done + [arg], vals', st, Args(Some(refs + a.refs.value), a.st))
  {
    var a := EvalArg(m, arg, After(st, vals, |vals|));
    if a.refs.Some? {
      var more := ArgPassed(m, arg, vals, st);
      hide EvalArg, After;
      MorePassed(m, done, arg, vals, more, st, refs, a.refs.value[0]);
      assert a.refs.value == [a.refs.value[0]];
      assert Yields(m, done + [arg], vals + more, st, Args(Some(refs + a.refs.value), a.st));
    }
  }

  lemma ArgPassed(m: Machine, arg: Arg, vals: seq<Value>, st: State) returns (more: seq<Value>)
    requires EvalArg(m, arg, After(st, vals, |vals|)).refs.Some?
    ensures var a := EvalArg(m, arg, After(st, vals, |vals|));
      |a.refs.value| == 1 && |more| == (if arg.ExpArg? then 1 else 0) &&
      Passed(m, arg, |vals|, vals + more, st, a.refs.value[0]) && a.st == After(st, vals + more, |vals + more|)
  {
    hide Visible, Lookup, DbFail;
    var at := After(st, vals, |vals|);
    more := if arg.ExpArg? then [m.eval(arg.exp, Env(at), View(at), at.clock).value] else [];
    assert (vals + more)[..|vals|] == vals && (vals + more)[..|vals + more|] == vals + more && vals[..|vals|] == vals;
    assert st.store + (vals + more) == st.store + vals + more;
    assert st.store + vals + [] == st.store + vals;
  }

  lemma MorePassed(m: Machine, done: seq<Arg>, arg: Arg, vals: seq<Value>, more: seq<Value>, st: State, refs: seq<Ref>,
                   r: Ref)
    requires AllPassed(m, done, vals, st, refs) && |more| == (if arg.ExpArg? then 1 else 0)
    requires Passed(m, arg, |vals|, vals + more, st, r)
    ensures AllPassed(m, done + [arg], vals + more, st, refs + [r])
  {
    hide Passed;
    assert (done + [arg])[..|done|] == done;
    forall i | 0 <= i < |done| + 1
      ensures Temps((done + [arg])[..i]) <= |vals + more| &&
        Passed(m, (done + [arg])[i], Temps((done + [arg])[..i]), vals + more, st, (refs + [r])[i]) {
      if i < |done| {
        assert (done + [arg])[..i] == done[..i];
        var before := refs[i];
        PassedLater(m, done[i], Temps(done[..i]), vals, more, st, before);
      }
    }
  }

  lemma {:induction false} ArgsPassed(m: Machine, done: seq<Arg>, args: seq<Arg>, vals: seq<Value>, st: State,
                                      refs: seq<Ref>)
    requires AllPassed(m, done, vals, st, refs)
    ensures var a := EvalArgs(m, args, refs, After(st, vals, |vals|));
      a.refs.Some? ==> exists vals' :: Yields(m, done + args, vals', st, a)
    decreases |args|
  {
    hide AllPassed, EvalArg, After;
    if args == [] {
      assert done + args == done;
      assert Yields(m, done, vals, st, Args(Some(refs), After(st, vals, |vals|)));
    } else {
      var a := EvalArg(m, args[0], After(st, vals, |vals|));
      PassedOne(m, done, args[0], vals, st, refs);
      if a.refs.Some? {
        var vals' :| Yields(m, done + [args[0]], vals', st, Args(Some(refs + a.refs.value), a.st));
        ArgsPassed(m, done + [args[0]], args[1..], vals', st, refs + a.refs.value);
        assert done + [args[0]] + args[1..] == done + args;
      }
    }
  }

  lemma {:induction false} ArgsSucceed(m: Machine, args: seq<Arg>, vals: seq<Value>, st: State, refs: seq<Ref>, i: nat)
    requires AllPassed(m, args, vals, st, refs) && i <= |args| && Temps(args[..i]) <= |vals|
    ensures EvalArgs(m, args[i..], refs[..i], After(st, vals, Temps(args[..i]))) ==
      Args(Some(refs), After(st, vals, |vals|))
    decreases |args| - i
  {
    if i == |args| {
      assert args[..i] == args && refs[..i] == refs;
    } else {
      TempsUpTo(args, i + 1);
      assert args[..i + 1][..i] == args[..i];
      assert args[i..][1..] == args[i + 1..];
      var r, at := refs[i], After(st, vals, Temps(args[..i]));
      assert Passed(m, args[i], Temps(args[..i]), vals, st, r);
      hide AllPassed, Visible;
      if args[i].ExpArg? {
        var n := Temps(args[..i]);
        assert st.store + vals[..n] + [vals[n]] == st.store + vals[..n + 1];
      }
      assert EvalArg(m, args[i], at) == Args(Some([r]), After(st, vals, Temps(args[..i + 1])));
      assert refs[..i] + [r] == refs[..i + 1];
      hide EvalArg;
      ArgsSucceed(m, args, vals, st, refs, i + 1);
    }
  }

  /**
   * The arguments of a call can be evaluated iff every variable is there and every expression has a value after those
   * before it; they are then passed like that, and nothing else changes.
   */
  lemma ArgsMean(m: Machine, args: seq<Arg>, st: State)
    ensures var a := EvalArgs(m, args, [], st);
      (a.refs.Some? <==> exists vals :: Yields(m, args, vals, st, a)) &&
      forall vals, refs :: AllPassed(m, args, vals, st, refs) ==> a == Args(Some(refs), After(st, vals, |vals|))
  {
    var a := EvalArgs(m, args, [], st);
    assert After(st, [], 0) == st by { assert st.store + [] == st.store; }
    assert AllPassed(m, [], [], st, []);
    ArgsPassed(m, [], args, [], st, []);
    assert [] + args == args;
    forall vals, refs | AllPassed(m, args, vals, st, refs) ensures a == Args(Some(refs), After(st, vals, |vals|)) {
      assert args[..0] == [] && args[0..] == args && vals[..0] == [];
      assert After(st, vals, 0) == st by { assert st.store + [] == st.store; }
      ArgsSucceed(m, args, vals, st, refs, 0);
    }
  }

  // ----- Parameters -----

  predicate DistinctParams(params: seq<Param>) {
    forall i, j :: 0 <= i < j < |params| ==> params[i].name != params[j].name
  }

  /** The scope in which exactly the parameters stand for their own arguments, as constants unless for update. */
  ghost predicate Stands(params: seq<Param>, refs: seq<Ref>, scope: Scope)
    requires |params| == |refs|
  {
    (forall i :: 0 <= i < |params| ==>
       params[i].name in scope && scope[params[i].name] == Entry(refs[i].loc, !params[i].update)) &&
    forall n :: n in scope ==> exists i :: 0 <= i < |params| && params[i].name == n
  }

  lemma {:induction false} ParamsStand(params: seq<Param>, refs: seq<Ref>)
    requires |params| == |refs| && DistinctParams(params)
    ensures Stands(params, refs, ParamScope(params, refs))
  {
    if params != [] {
      var k := |params| - 1;
      ParamsStand(params[..k], refs[..k]);
      StandsOneMore(params, refs, ParamScope(params[..k], refs[..k]));
    }
  }

  lemma StandsOneMore(params: seq<Param>, refs: seq<Ref>, before: Scope)
    requires |params| == |refs| && params != [] && DistinctParams(params)
    requires Stands(params[..|params| - 1], refs[..|params| - 1], before)
    ensures var p, r := params[|params| - 1], refs[|params| - 1];
      Stands(params, refs, before[p.name := Entry(r.loc, !p.update)])
  {
    var k := |params| - 1;
    forall n | n in before ensures exists i :: 0 <= i < |params| && params[i].name == n {
      var i :| 0 <= i < k && params[..k][i].name == n;
      assert params[i].name == n;
    }
    forall i | 0 <= i < k
      ensures params[i].name in before && before[params[i].name] == Entry(refs[i].loc, !params[i].update) {
      assert params[..k][i] == params[i] && refs[..k][i] == refs[i];
    }
  }

  // ----- Calls -----

  /** An operator for updates with this name and number of parameters. */
  predicate Callable(m: Machine, o: Name, argc: nat) {
    o in m.ops && !m.ops[o].readOnly && |m.ops[o].params| == argc
  }

  /** The operator of this name is called, or the one of the same package as the running operator if there is none. */
  predicate Chosen(m: Machine, name: Name, inner: Option<Name>, argc: nat, o: Name) {
    Callable(m, o, argc) &&
    (o == name || (!Callable(m, name, argc) && inner.Some? && o == m.qualify(inner.value, name)))
  }

  /** A parameter for update has an argument that is a variable and no constant. */
  predicate Updatable(params: seq<Param>, refs: seq<Ref>)
    requires |params| == |refs|
  {
    forall i :: 0 <= i < |params| && params[i].update ==> refs[i].isVar && !refs[i].fixed
  }

  /**
   * The state in which the body of an operator starts: the parameters stand for their arguments, any other name for
   * the global variable of that name, and everything else is as after the evaluation of the arguments.
   */
  ghost predicate BodyStarts(op: Operator, o: Name, refs: seq<Ref>, st: State, start: State)
    requires |refs| == |op.params|
  {
    (forall i :: 0 <= i < |op.params| ==>
       Find(start, op.params[i].name) == Some(Entry(refs[i].loc, !op.params[i].update))) &&
    (forall n :: (forall i :: 0 <= i < |op.params| ==> op.params[i].name != n) ==>
       Find(start, n) == if n in st.root then Some(st.root[n]) else None) &&
    start.innerOp == Some(o) && start == st.(scopes := start.scopes, innerOp := start.innerOp)
  }

  /** What the caller sees when the body has ended like r: its own scopes, and an error if that is not allowed. */
  function Returned(readOnly: bool, st: State, r: Res): Res {
    var st' := r.st.(scopes := st.scopes, innerOp := st.innerOp);
    match r.out
    case LEAVE => Res(ERROR, st'.(err := Some(Error(SyntaxError, false, EndsNone))))
    case RETURN => Res(OK, st')
    case OK => if readOnly then Res(ERROR, st'.(err := Some(Error(SyntaxError, false, EndsNone)))) else Res(OK, st')
    case _ => Res(r.out, st')
  }

  /** The operator runs from a state in which its parameters stand for these arguments. */
  ghost predicate Runs(m: Machine, o: Name, refs: seq<Ref>, st: State, start: State, fuel: nat, r: Res) {
    fuel > 0 && o in m.ops && |refs| == |m.ops[o].params| && BodyStarts(m.ops[o], o, refs, st, start) &&
    r == Returned(m.ops[o].readOnly, st, ExecStmts(m, m.ops[o].body, m.ops[o].readOnly, start, fuel - 1))
  }

  lemma FoundInOne(scope: Scope, root: Scope, n: Name)
    ensures Lookup([scope], root, n) ==
      if n in scope then Some(scope[n]) else if n in root then Some(root[n]) else None
  {
    var scopes: seq<Scope> := [scope];
    assert scopes[1..] == [];
  }

  lemma Starts(op: Operator, o: Name, refs: seq<Ref>, st: State)
    requires |refs| == |op.params| && DistinctParams(op.params)
    ensures BodyStarts(op, o, refs, st, st.(scopes := [ParamScope(op.params, refs)], innerOp := Some(o)))
  {
    hide ParamScope, Lookup, DistinctParams;
    ParamsStand(op.params, refs);
    var scope := ParamScope(op.params, refs);
    forall n ensures Lookup([scope], st.root, n) ==
      if n in scope then Some(scope[n]) else if n in st.root then Some(st.root[n]) else None {
      FoundInOne(scope, st.root, n);
    }
  }

  lemma InvokeRuns(m: Machine, o: Name, refs: seq<Ref>, st: State, fuel: nat)
    requires o in m.ops && |refs| == |m.ops[o].params| && DistinctParams(m.ops[o].params)
    requires fuel > 0 && !m.interrupted(st.clock)
    ensures var r := if m.ops[o].readOnly then InvokeRoOp(m, o, m.ops[o], refs, st, fuel)
        else InvokeUpdateOp(m, o, m.ops[o], refs, st, fuel);
      exists start :: Runs(m, o, refs, st, start, fuel, r)
  {
    hide ParamScope, ExecStmts, BodyStarts;
    var op := m.ops[o];
    Starts(op, o, refs, st);
    var start := st.(scopes := [ParamScope(op.params, refs)], innerOp := Some(o));
    var b := ExecStmts(m, op.body, op.readOnly, start, fuel - 1);
    assert RunBody(m, o, op, refs, st, fuel) == Res(b.out, b.st.(scopes := st.scopes, innerOp := st.innerOp));
    hide RunBody;
    if op.readOnly {
      assert Runs(m, o, refs, st, start, fuel, InvokeRoOp(m, o, op, refs, st, fuel));
    } else {
      assert Runs(m, o, refs, st, start, fuel, InvokeUpdateOp(m, o, op, refs, st, fuel));
    }
  }

  lemma Interrupted(m: Machine, o: Name, refs: seq<Ref>, st: State, fuel: nat)
    requires o in m.ops && |refs| == |m.ops[o].params|
    ensures fuel > 0 && m.interrupted(st.clock) ==>
      InvokeUpdateOp(m, o, m.ops[o], refs, st, fuel) == Fail(st, SystemError) &&
      InvokeRoOp(m, o, m.ops[o], refs, st, fuel) == Fail(st, SystemError)
  {
    hide RunBody;
  }

  lemma ChosenIsFound(m: Machine, name: Name, inner: Option<Name>, argc: nat)
    ensures forall o :: Chosen(m, name, inner, argc, o) <==> FindOp(m, name, inner, argc) == Some(o)
  {}

  /**
   * A call runs the body of the operator that its name and the number of arguments choose, with every parameter
   * standing for its own argument; it fails without running anything if an argument cannot be evaluated, if there is
   * no operator, or if an argument for update is no variable or a constant, or if it is interrupted before.
   */
  lemma CallMeans(m: Machine, name: Name, args: seq<Arg>, st: State, fuel: nat, o: Name)
    ensures var a, r := EvalArgs(m, args, [], st), ExecCall(m, name, args, st, fuel);
      (a.refs.None? ==> r == Res(ERROR, a.st)) &&
      (a.refs.Some? && Chosen(m, name, a.st.innerOp, |args|, o) && DistinctParams(m.ops[o].params) &&
       fuel > 0 && !m.interrupted(a.st.clock) ==>
         |a.refs.value| == |args| &&
         if Updatable(m.ops[o].params, a.refs.value) then
           exists start :: Runs(m, o, a.refs.value, a.st, start, fuel, r)
         else r == Fail(a.st, InvalidArgument)) &&
      (a.refs.Some? && Chosen(m, name, a.st.innerOp, |args|, o) && |a.refs.value| == |args| &&
       Updatable(m.ops[o].params, a.refs.value) && fuel > 0 && m.interrupted(a.st.clock) ==>
         r == Fail(a.st, SystemError)) &&
      (a.refs.Some? && (forall o' :: !Chosen(m, name, a.st.innerOp, |args|, o')) ==> r == Fail(a.st, OperatorNotFound))
  {
    hide EvalArgs, InvokeUpdateOp, Runs, FindOp, Chosen, DistinctParams;
    var a := EvalArgs(m, args, [], st);
    if a.refs.Some? {
      CountKept(m, args, st);
      ChosenIsFound(m, name, a.st.innerOp, |args|);
      var found := FindOp(m, name, a.st.innerOp, |args|);
      if found.Some? {
        Interrupted(m, found.value, a.refs.value, a.st, fuel);
        UpdatableIs(m.ops[found.value].params, a.refs.value);
        if DistinctParams(m.ops[found.value].params) && fuel > 0 && !m.interrupted(a.st.clock) {
          var r := InvokeUpdateOp(m, found.value, m.ops[found.value], a.refs.value, a.st, fuel);
          InvokeRuns(m, found.value, a.refs.value, a.st, fuel);
          assert exists start :: Runs(m, found.value, a.refs.value, a.st, start, fuel, r);
          assert UpdateArgsOk(m.ops[found.value].params, a.refs.value) ==> ExecCall(m, name, args, st, fuel) == r;
        }
      }
    }
  }

  lemma UpdatableIs(params: seq<Param>, refs: seq<Ref>)
    requires |params| == |refs|
    ensures Updatable(params, refs) <==> UpdateArgsOk(params, refs)
  {
    assert forall i :: 0 <= i < |params| ==>
      (BadUpdateArg(params[i], refs[i]) <==> params[i].update && !(refs[i].isVar && !refs[i].fixed));
  }

  lemma CountKept(m: Machine, args: seq<Arg>, st: State)
    ensures var a := EvalArgs(m, args, [], st); a.refs.Some? ==> |a.refs.value| == |args|
  {
    ArgsMean(m, args, st);
  }

  /**
   * At the start of the body, a parameter whose argument is a variable stands for that variable, and one whose argument
   * is an expression has the value of that expression.
   */
  lemma ParametersHold(m: Machine, args: seq<Arg>, vals: seq<Value>, st: State, a: Args, op: Operator, o: Name,
                       start: State, i: nat)
    requires Yields(m, args, vals, st, a) && |op.params| == |args| && i < |args|
    requires BodyStarts(op, o, a.refs.value, a.st, start)
    ensures var e, n := Find(start, op.params[i].name), Temps(args[..i]);
      e.Some? && n <= |vals| &&
      match args[i]
      case VarArg(name) => Find(st, name).Some? && e.value == Entry(Find(st, name).value.loc, !op.params[i].update)
      case ExpArg(exp) =>
        e.value == Entry(|st.store| + n, !op.params[i].update) && e.value.loc < |start.store| &&
        var at := After(st, vals, n);
        m.eval(exp, Env(at), View(at), at.clock) == Ok(start.store[e.value.loc])
  {
    hide Lookup, Visible;
    StartFinds(op, o, a.refs.value, a.st, start, i);
    hide BodyStarts;
    var r := a.refs.value[i];
    assert Passed(m, args[i], Temps(args[..i]), vals, st, r);
    assert vals[..|vals|] == vals;
  }

  lemma StartFinds(op: Operator, o: Name, refs: seq<Ref>, st: State, start: State, i: nat)
    requires |refs| == |op.params| && i < |refs| && BodyStarts(op, o, refs, st, start)
    ensures Find(start, op.params[i].name) == Some(Entry(refs[i].loc, !op.params[i].update))
    ensures start.store == st.store
  {}

  // ----- The value of a read-only operator -----

  /**
   * The execution of a list of statements reaches RETURN with this expression, not inside FOREACH, and the expression
   * has this value there.
   */
  ghost predicate ReturnsValue(m: Machine, body: seq<Stmt>, start: State, fuel: nat, v: Value) {
    exists e, at :: GetsOut(m, Block(body), true, start, fuel, Return(Some(e)), at) &&
      m.eval(e, Env(at), View(at), at.clock) == Ok(v)
  }

  /**
   * An assignment from a read-only operator succeeds only if the body, started with the parameters standing for the
   * arguments, reaches a RETURN whose expression has a value; that value is what the variable gets.
   */
  lemma AssignedIsReturned(m: Machine, name: Name, op: Name, exps: seq<Exp>, st: State, fuel: nat)
    requires op in m.ops && DistinctParams(m.ops[op].params)
    requires ExecAssignOp(m, name, op, exps, st, fuel).out == OK
    ensures var args := seq(|exps|, i requires 0 <= i < |exps| => ExpArg(exps[i]));
      var a := EvalArgs(m, args, [], st);
      m.ops[op].readOnly && a.refs.Some? && |exps| == |a.refs.value| == |m.ops[op].params| && fuel > 0 &&
      exists start, v, st' :: BodyStarts(m.ops[op], op, a.refs.value, a.st, start) &&
        ReturnsValue(m, m.ops[op].body, start, fuel - 1, v) &&
        ExecAssignOp(m, name, op, exps, st, fuel) == Store(st', name, v)
  {
    hide EvalArgs, ExecStmts, ParamScope, InvokeRoOp, BodyStarts, ReturnsValue, DistinctParams, Store;
    var args := seq(|exps|, i requires 0 <= i < |exps| => ExpArg(exps[i]));
    var a := EvalArgs(m, args, [], st);
    CountKept(m, args, st);
    var r := InvokeRoOp(m, op, m.ops[op], a.refs.value, a.st, fuel);
    assert ExecAssignOp(m, name, op, exps, st, fuel) == Store(r.st, name, r.st.ret) && r.out == OK;
    NotInterrupted(m, op, a.refs.value, a.st, fuel);
    InvokeRuns(m, op, a.refs.value, a.st, fuel);
    var start :| Runs(m, op, a.refs.value, a.st, start, fuel, r);
    BodyReturns(m, m.ops[op].body, start, fuel - 1);
  }

  lemma NotInterrupted(m: Machine, op: Name, refs: seq<Ref>, st: State, fuel: nat)
    requires op in m.ops && |refs| == |m.ops[op].params| && InvokeRoOp(m, op, m.ops[op], refs, st, fuel).out == OK
    ensures fuel > 0 && !m.interrupted(st.clock)
  {
    hide RunBody;
  }

  lemma BodyReturns(m: Machine, body: seq<Stmt>, start: State, fuel: nat)
    ensures var b := ExecStmts(m, body, true, start, fuel);
      b.out == RETURN ==> ReturnsValue(m, body, start, fuel, b.st.ret)
  {
    hide ExecStmts;
    var b := ExecStmts(m, body, true, start, fuel);
    assert Exec(m, Block(body), true, start, fuel) == b;
    hide Exec;
    EndsWithReturn(m, Block(body), start, fuel, b.st.ret);
  }

  /** What an assignment does when the operator has ended like r: it stores the value that was returned. */
  function Assigned(name: Name, r: Res): Res {
    if r.out != OK then r else Store(r.st, name, r.st.ret)
  }

  /**
   * An assignment from an operator runs the read-only operator of that name with that number of parameters, with every
   * parameter standing for its own argument, and stores what it returns; it fails without running anything if an
   * argument cannot be evaluated, if there is no such operator or if it is interrupted before.
   */
  lemma AssignOpMeans(m: Machine, name: Name, op: Name, exps: seq<Exp>, st: State, fuel: nat)
    ensures var args := seq(|exps|, i requires 0 <= i < |exps| => ExpArg(exps[i]));
      var a, r := EvalArgs(m, args, [], st), ExecAssignOp(m, name, op, exps, st, fuel);
      if a.refs.None? then r == Res(ERROR, a.st)
      else if !(op in m.ops && m.ops[op].readOnly && |m.ops[op].params| == |exps|) then
        r == Fail(a.st, OperatorNotFound)
      else if fuel > 0 && m.interrupted(a.st.clock) then r == Fail(a.st, SystemError)
      else
        fuel > 0 && DistinctParams(m.ops[op].params) ==>
          exists start, q :: Runs(m, op, a.refs.value, a.st, start, fuel, q) && r == Assigned(name, q)
  {
    hide EvalArgs, InvokeRoOp, Runs, Store, DistinctParams;
    var args := seq(|exps|, i requires 0 <= i < |exps| => ExpArg(exps[i]));
    var a := EvalArgs(m, args, [], st);
    CountKept(m, args, st);
    if a.refs.Some? && op in m.ops && |a.refs.value| == |m.ops[op].params| {
      Interrupted(m, op, a.refs.value, a.st, fuel);
    }
    if a.refs.Some? && op in m.ops && m.ops[op].readOnly && |m.ops[op].params| == |exps| && fuel > 0 &&
      !m.interrupted(a.st.clock) && DistinctParams(m.ops[op].params) {
      var q := InvokeRoOp(m, op, m.ops[op], a.refs.value, a.st, fuel);
      InvokeRuns(m, op, a.refs.value, a.st, fuel);
      assert exists start :: Runs(m, op, a.refs.value, a.st, start, fuel, q);
      assert ExecAssignOp(m, name, op, exps, st, fuel) == Assigned(name, q);
    }
  }
}
