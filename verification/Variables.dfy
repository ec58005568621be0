/**
 * Variables and scopes (dli/interp_core.c, dli/interp_stmt.c): what expressions see is what a lookup finds, and what
 * VAR, DROP and assignments do to it.
 */
module Variables {
  import opened ByteStrings
  import opened Options
  import opened TxStack
  import opened Statements

  /** An expression sees the value at the location that the lookup from the innermost scope outwards finds. */
  lemma {:induction false} VisibleIsFound(scopes: seq<Scope>, root: Scope, store: seq<Value>, name: Name)
    ensures var e, env := Lookup(scopes, root, name), Visible(scopes, root, store);
      (name in env <==> e.Some?) && (e.Some? ==> env[name] == ValueAt(store, e.value.loc))
  {
    if scopes != [] {
      VisibleIsFound(scopes[1..], root, store, name);
    }
  }

  /** The innermost scope that has the name decides, and the global variables if none has it. */
  lemma {:induction false} FoundInnermost(scopes: seq<Scope>, root: Scope, name: Name, i: nat)
    requires i <= |scopes| && (forall j :: 0 <= j < i ==> name !in scopes[j]) && (i < |scopes| ==> name in scopes[i])
    ensures Lookup(scopes, root, name) ==
      if i < |scopes| then Some(scopes[i][name]) else if name in root then Some(root[name]) else None
    decreases i
  {
    if i > 0 {
      FoundInnermost(scopes[1..], root, name, i - 1);
    }
  }

  /** What an expression yields from what it sees: a value, or an error that leaves all variables alone. */
  lemma EvaluateMeans(m: Machine, exp: Exp, st: State)
    ensures var v, x := Evaluate(m, exp, st), m.eval(exp, Env(st), View(st), st.clock);
      if x.Ok? then v == Eval(Some(x.value), st.(clock := st.clock + 1))
      else v.val == None && v.st.scopes == st.scopes && v.st.root == st.root && v.st.store == st.store && v.st.err.Some?
  {
    hide Visible, Ended;
  }

  lemma SeenIsFound(st: State, name: Name)
    ensures name in Env(st) <==> Find(st, name).Some?
    ensures name in Env(st) ==> Env(st)[name] == ValueAt(st.store, Find(st, name).value.loc)
  {
    VisibleIsFound(st.scopes, st.root, st.store, name);
  }

  /** Two names of the same variable. */
  predicate SameVar(st: State, n: Name, name: Name) {
    Find(st, n).Some? && Find(st, name).Some? && Find(st, n).value.loc == Find(st, name).value.loc
  }

  /** The expressions see the value v under every name of the variable, and under all others what they saw before. */
  ghost predicate SeenAs(st: State, name: Name, v: Value, st': State) {
    Env(st').Keys == Env(st).Keys &&
    forall n :: n in Env(st) ==> Env(st')[n] == if SameVar(st, n, name) then v else Env(st)[n]
  }

  datatype ValueType = IntType | BoolType | TypeOfError(typ: ErrorType) | OtherType(no: nat)

  function TypeOf(v: Value): ValueType {
    match v
    case Int(_) => IntType
    case Bool(_) => BoolType
    case ErrorVal(typ) => TypeOfError(typ)
    case Other(typ, _) => OtherType(typ)
  }

  /**
   * An assignment succeeds iff its value can be computed and the name is that of a variable of the same type, not a
   * constant. Then the variable is seen to have the value, under every name that it has, and nothing else changes;
   * if it fails, no variable has changed.
   */
  lemma AssignMeans(m: Machine, name: Name, exp: Exp, st: State)
    ensures var r, v, e := ExecAssign(m, name, exp, st), m.eval(exp, Env(st), View(st), st.clock), Find(st, name);
      (r.out == OK <==>
        v.Ok? && e.Some? && !e.value.fixed && TypeOf(ValueAt(st.store, e.value.loc)) == TypeOf(v.value)) &&
      (r.out == OK && e.value.loc < |st.store| ==> SeenAs(st, name, v.value, r.st)) &&
      (r.out != OK ==> r.out == ERROR && r.st.err.Some? && Env(r.st) == Env(st))
  {
    EvaluateMeans(m, exp, st);
    hide Evaluate, Visible, Lookup;
    var r, e := ExecAssign(m, name, exp, st), Find(st, name);
    if r.out == OK && e.value.loc < |st.store| {
      var v := Evaluate(m, exp, st).val.value;
      forall n ensures n in Env(r.st) <==> n in Env(st) {
        SeenIsFound(st, n);
        SeenIsFound(r.st, n);
      }
      forall n | n in Env(st) ensures Env(r.st)[n] == if SameVar(st, n, name) then v else Env(st)[n] {
        SeenIsFound(st, n);
        SeenIsFound(r.st, n);
      }
    }
  }

  lemma EvaluateKeepsVars(m: Machine, exp: Exp, st: State)
    ensures var v := Evaluate(m, exp, st);
      v.st.scopes == st.scopes && v.st.root == st.root && v.st.store == st.store && v.st.foreachs == st.foreachs &&
      (v.val.None? ==> v.st.err.Some?)
  {
    hide Visible, Step;
  }

  /** The names of the current scope. */
  function InnerScope(st: State): Scope {
    if st.scopes == [] then st.root else st.scopes[0]
  }

  lemma DefinedIsFound(st: State, name: Name, e: Entry, n: Name)
    ensures Find(Define(st, name, e), n) == if n == name then Some(e) else Find(st, n)
  {
    if st.scopes != [] {
      assert Define(st, name, e).scopes[1..] == st.scopes[1..];
    }
  }

  /** The name stands for a new location with this value, and no other name and no other value changes. */
  ghost predicate Defined(st: State, name: Name, v: Value, fixed: bool, st': State) {
    st'.store == st.store + [v] &&
    forall n :: Find(st', n) == if n == name then Some(Entry(|st.store|, fixed)) else Find(st, n)
  }

  predicate SameScopes(st: State, st': State) {
    st'.scopes == st.scopes && st'.root == st.root
  }

  /**
   * VAR succeeds iff the name is not defined in the current scope and the initial value can be computed. Then the
   * name stands for a new variable, hiding any other one of that name, and nothing else changes. DROP of the name
   * makes all names stand again for what they did before VAR; of a constant it does not.
   */
  lemma VarMeans(m: Machine, name: Name, init: Exp, fixed: bool, st: State)
    ensures var r, v := ExecVarDef(m, name, init, fixed, st), m.eval(init, Env(st), View(st), st.clock);
      (r.out == OK <==> name !in InnerScope(st) && v.Ok?) &&
      (r.out == OK ==> Defined(st, name, v.value, fixed, r.st)) &&
      (r.out != OK ==> r.out == ERROR && r.st.err.Some? && SameScopes(st, r.st))
    ensures var r := ExecVarDef(m, name, init, fixed, st);
      var d := ExecVarDrop(m, name, r.st);
      (r.out == OK && st.foreachs == [] && fixed ==> SameScopes(r.st, d.st)) &&
      (r.out == OK && st.foreachs == [] && !fixed ==> d.out == OK && SameScopes(st, d.st) && d.st.store == r.st.store)
  {
    EvaluateKeepsVars(m, init, st);
    EvaluateMeans(m, init, st);
    var v := Evaluate(m, init, st);
    hide Evaluate, Step;
    if name !in InnerScope(st) && v.val.Some? {
      var st1, e := Alloc(v.st, v.val.value), Entry(|st.store|, fixed);
      forall n ensures Find(Define(st1, name, e), n) == if n == name then Some(e) else Find(st, n) {
        DefinedIsFound(st1, name, e, n);
      }
      if st.foreachs == [] {
        DroppedAgain(m, st1, name, e);
      }
    }
  }

  lemma DroppedAgain(m: Machine, st: State, name: Name, e: Entry)
    requires name !in InnerScope(st) && st.foreachs == []
    ensures var d := ExecVarDrop(m, name, Define(st, name, e));
      if e.fixed then SameScopes(Define(st, name, e), d.st)
      else d.out == OK && SameScopes(st, d.st) && d.st.store == st.store
  {
    forall st', er ensures SameScopes(st', DbFail(st', er)) {
      hide Step;
    }
    hide Step, DbFail;
    assert st.root[name := e] - {name} == st.root - {name};
    if st.scopes != [] {
      assert st.scopes[0][name := e] - {name} == st.scopes[0];
      assert [st.scopes[0]] + st.scopes[1..] == st.scopes;
    }
  }
}
