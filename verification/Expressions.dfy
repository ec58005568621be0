/**
 * Expressions and their rewriting (obj/expression.c).
 *
 * Two kinds of names are stored like variables although they are none: the attribute after "." is not evaluated at
 * all, and WHERE, EXTEND, UPDATE, SUMMARIZE and the aggregates evaluate some of their arguments for each tuple of
 * another one, where the names of its attributes stand for their values (rel/expressionx.c). The substitutions
 * rewrite them like any other variable.
 */
module Expressions {
  import opened ByteStrings

  const DOT: Name := [46]

  /** Bind is an operator that evaluates the arguments in scoped for each of some tuples with attributes bound. */
  datatype Expr =
    | Obj(value: nat)
    | Tbp(table: nat)
    | Var(name: Name)
    | Op(opname: Name, args: seq<Expr>)
    | Bind(opname: Name, args: seq<Expr>, bound: set<Name>, scoped: seq<Expr>)
  {
    /** An attribute access: the second argument is the name of an attribute. */
    predicate IsDot() {
      Op? && opname == DOT && |args| == 2 && args[1].Var?
    }
  }

  // ----- Meaning -----

  /**
   * What constants, tables and operators mean; unbound gives the outcome of a reference to no variable, and rows
   * the tuples for which an operator evaluates its scoped arguments.
   */
  datatype Algebra<!T> = Algebra(
    obj: nat -> T,
    tbp: nat -> T,
    op: (Name, seq<T>) -> T,
    dot: (T, Name) -> T,
    unbound: Name -> T,
    rows: (Name, set<Name>, seq<T>) -> seq<map<Name, T>>,
    bind: (Name, set<Name>, seq<T>, seq<seq<T>>) -> T)

  function Look<T>(a: Algebra<T>, env: map<Name, T>, n: Name): T {
    if n in env then env[n] else a.unbound(n)
  }

  /** Every tuple has the attributes that are bound. */
  function Rows<T>(a: Algebra<T>, opname: Name, bound: set<Name>, vs: seq<T>): (r: seq<map<Name, T>>)
    ensures forall row :: row in r ==> row.Keys == bound
  {
    var rows := a.rows(opname, bound, vs);
    seq(|rows|, i requires 0 <= i < |rows| => map k | k in bound :: Look(a, rows[i], k))
  }

  function Eval<T>(a: Algebra<T>, e: Expr, env: map<Name, T>): T
    decreases e, 0
  {
    match e
    case Obj(v) => a.obj(v)
    case Tbp(t) => a.tbp(t)
    case Var(n) => Look(a, env, n)
    case Op(n, args) =>
      if e.IsDot() then a.dot(Eval(a, args[0], env), args[1].name) else a.op(n, EvalArgs(a, args, env))
    case Bind(n, args, bound, scoped) =>
      var vs := EvalArgs(a, args, env);
      a.bind(n, bound, vs, EvalRows(a, scoped, Rows(a, n, bound, vs), env))
  }

  function EvalArgs<T>(a: Algebra<T>, args: seq<Expr>, env: map<Name, T>): seq<T>
    decreases args, 0
  {
    if args == [] then [] else [Eval(a, args[0], env)] + EvalArgs(a, args[1..], env)
  }

  /** The scoped arguments for every tuple, whose attributes hide the variables outside. */
  function EvalRows<T>(a: Algebra<T>, scoped: seq<Expr>, rows: seq<map<Name, T>>, env: map<Name, T>): seq<seq<T>>
    decreases scoped, 1, |rows|
  {
    if rows == [] then [] else [EvalArgs(a, scoped, env + rows[0])] + EvalRows(a, scoped, rows[1..], env)
  }

  // ----- Occurrences of names -----

  /** The name occurs as a variable that is evaluated outside of all operators that bind it. */
  predicate Uses(e: Expr, name: Name)
    decreases e, 0
  {
    match e
    case Var(n) => n == name
    case Op(_, args) => if e.IsDot() then Uses(args[0], name) else ArgsUse(args, name)
    case Bind(_, args, bound, scoped) => ArgsUse(args, name) || (name !in bound && ArgsUse(scoped, name))
    case _ => false
  }

  predicate ArgsUse(args: seq<Expr>, name: Name)
    decreases args, 0
  {
    args != [] && (Uses(args[0], name) || ArgsUse(args[1..], name))
  }

  /** The name occurs as that of an attribute, after a dot or where an operator binds it. */
  predicate AsAttr(e: Expr, name: Name)
    decreases e, 0
  {
    match e
    case Op(_, args) => if e.IsDot() then args[1].name == name || AsAttr(args[0], name) else ArgsAsAttr(args, name)
    case Bind(_, args, bound, scoped) =>
      ArgsAsAttr(args, name) || ArgsAsAttr(scoped, name) || (name in bound && ArgsUse(scoped, name))
    case _ => false
  }

  predicate ArgsAsAttr(args: seq<Expr>, name: Name)
    decreases args, 0
  {
    args != [] && (AsAttr(args[0], name) || ArgsAsAttr(args[1..], name))
  }

  /** RDB_expr_refers_var: does not tell the kinds of occurrences apart. */
  predicate RefersVar(e: Expr, name: Name)
    decreases e, 0
  {
    match e
    case Var(n) => n == name
    case Op(_, args) => AnyRefersVar(args, name)
    case Bind(_, args, _, scoped) => AnyRefersVar(args, name) || AnyRefersVar(scoped, name)
    case _ => false
  }

  predicate AnyRefersVar(args: seq<Expr>, name: Name)
    decreases args, 0
  {
    args != [] && (RefersVar(args[0], name) || AnyRefersVar(args[1..], name))
  }

  lemma {:induction false} RefersIsUsesOrAttr(e: Expr, name: Name)
    ensures RefersVar(e, name) <==> Uses(e, name) || AsAttr(e, name)
    decreases e, 0
  {
    match e
    case Op(_, args) =>
      if e.IsDot() {
        RefersIsUsesOrAttr(args[0], name);
        assert args[1..][0] == args[1] && args[1..][1..] == [];
        assert AnyRefersVar(args[1..], name) <==> RefersVar(args[1], name);
      } else {
        AnyRefersIs(args, name);
      }
    case Bind(_, args, _, scoped) =>
      AnyRefersIs(args, name);
      AnyRefersIs(scoped, name);
    case _ =>
  }

  lemma {:induction false} AnyRefersIs(args: seq<Expr>, name: Name)
    ensures AnyRefersVar(args, name) <==> ArgsUse(args, name) || ArgsAsAttr(args, name)
    decreases args, 0
  {
    if args != [] {
      RefersIsUsesOrAttr(args[0], name);
      AnyRefersIs(args[1..], name);
    }
  }

  /** Evaluation depends only on the variables that the expression uses. */
  lemma {:induction false} EvalAgrees<T>(a: Algebra<T>, e: Expr, env: map<Name, T>, env': map<Name, T>)
    requires forall n :: Uses(e, n) ==> Look(a, env, n) == Look(a, env', n)
    ensures Eval(a, e, env) == Eval(a, e, env')
    decreases e, 0
  {
    match e
    case Var(n) => assert Uses(e, n);
    case Op(n, args) =>
      if e.IsDot() {
        EvalAgrees(a, args[0], env, env');
      } else {
        EvalArgsAgree(a, args, env, env');
      }
    case Bind(n, args, bound, scoped) =>
      EvalArgsAgree(a, args, env, env');
      EvalRowsAgree(a, bound, scoped, Rows(a, n, bound, EvalArgs(a, args, env)), env, env');
    case _ =>
  }

  lemma {:induction false} EvalArgsAgree<T>(a: Algebra<T>, args: seq<Expr>, env: map<Name, T>, env': map<Name, T>)
    requires forall n :: ArgsUse(args, n) ==> Look(a, env, n) == Look(a, env', n)
    ensures EvalArgs(a, args, env) == EvalArgs(a, args, env')
    decreases args, 0
  {
    if args != [] {
      EvalAgrees(a, args[0], env, env');
      EvalArgsAgree(a, args[1..], env, env');
    }
  }

  lemma {:induction false} EvalRowsAgree<T>(a: Algebra<T>, bound: set<Name>, scoped: seq<Expr>, rows: seq<map<Name, T>>,
                                            env: map<Name, T>, env': map<Name, T>)
    requires forall row :: row in rows ==> row.Keys == bound
    requires forall n :: n !in bound && ArgsUse(scoped, n) ==> Look(a, env, n) == Look(a, env', n)
    ensures EvalRows(a, scoped, rows, env) == EvalRows(a, scoped, rows, env')
    decreases scoped, 1, |rows|
  {
    if rows != [] {
      assert rows[0] in rows;
      EvalArgsAgree(a, scoped, env + rows[0], env' + rows[0]);
      EvalRowsAgree(a, bound, scoped, rows[1..], env, env');
    }
  }

  // ----- Substitution -----

  /** Every variable node with a name of s, wherever it stands, becomes the expression of that name. */
  function Subst(e: Expr, s: map<Name, Expr>): Expr
    decreases e, 0
  {
    match e
    case Var(n) => if n in s then s[n] else e
    case Op(n, args) => Op(n, SubstArgs(args, s))
    case Bind(n, args, bound, scoped) => Bind(n, SubstArgs(args, s), bound, SubstArgs(scoped, s))
    case _ => e
  }

  function SubstArgs(args: seq<Expr>, s: map<Name, Expr>): (r: seq<Expr>)
    ensures |r| == |args| && forall i :: 0 <= i < |args| ==> r[i] == Subst(args[i], s)
    decreases args, 0
  {
    if args == [] then [] else [Subst(args[0], s)] + SubstArgs(args[1..], s)
  }

  /**
   * Inside operators that bind these names: no name of an attribute is rewritten to something else, after a dot or
   * where it is bound, and what is put in place of another name uses none of the bound names.
   */
  ghost predicate Respects(e: Expr, s: map<Name, Expr>, names: set<Name>)
    decreases e, 0
  {
    match e
    case Var(n) => n in s ==> if n in names then s[n] == e else forall k :: k in names ==> !Uses(s[n], k)
    case Op(_, args) =>
      if e.IsDot() then (args[1].name in s ==> s[args[1].name] == args[1]) && Respects(args[0], s, names)
      else ArgsRespect(args, s, names)
    case Bind(_, args, bound, scoped) => ArgsRespect(args, s, names) && ArgsRespect(scoped, s, names + bound)
    case _ => true
  }

  ghost predicate ArgsRespect(args: seq<Expr>, s: map<Name, Expr>, names: set<Name>)
    decreases args, 0
  {
    args == [] || (Respects(args[0], s, names) && ArgsRespect(args[1..], s, names))
  }

  /** The environment in which each name of s has the value of its expression. */
  function Bound<T>(a: Algebra<T>, s: map<Name, Expr>, env: map<Name, T>): map<Name, T> {
    env + map n | n in s :: Eval(a, s[n], env)
  }

  /** A substitution makes no attribute access, and keeps one if the attribute stays. */
  lemma SubstDot(e: Expr, s: map<Name, Expr>)
    requires e.Op?
    ensures Subst(e, s).IsDot() ==> e.IsDot()
    ensures e.IsDot() && (e.args[1].name in s ==> s[e.args[1].name] == e.args[1]) ==>
      Subst(e, s).IsDot() && Subst(e, s).args[1] == e.args[1]
  {
    if |e.args| == 2 {
      assert Subst(e, s).args[1] == Subst(e.args[1], s);
    }
  }

  /** Substitution means binding the names to the values of the expressions, all at once; b are bound names. */
  lemma {:induction false} SubstMeansIn<T>(a: Algebra<T>, e: Expr, s: map<Name, Expr>, env: map<Name, T>,
                                           b: map<Name, T>)
    requires Respects(e, s, b.Keys)
    ensures Eval(a, Subst(e, s), env + b) == Eval(a, e, Bound(a, s, env) + b)
    decreases e, 0
  {
    match e
    case Var(n) =>
      if n in s && n !in b {
        EvalAgrees(a, s[n], env + b, env);
      }
    case Op(n, args) =>
      SubstDot(e, s);
      if e.IsDot() {
        SubstMeansIn(a, args[0], s, env, b);
      } else {
        SubstArgsMean(a, args, s, env, b);
      }
    case Bind(n, args, bound, scoped) =>
      SubstArgsMean(a, args, s, env, b);
      SubstRowsMean(a, bound, scoped, Rows(a, n, bound, EvalArgs(a, SubstArgs(args, s), env + b)), s, env, b);
    case _ =>
  }

  lemma {:induction false} SubstArgsMean<T>(a: Algebra<T>, args: seq<Expr>, s: map<Name, Expr>, env: map<Name, T>,
                                            b: map<Name, T>)
    requires ArgsRespect(args, s, b.Keys)
    ensures EvalArgs(a, SubstArgs(args, s), env + b) == EvalArgs(a, args, Bound(a, s, env) + b)
    decreases args, 0
  {
    if args != [] {
      SubstMeansIn(a, args[0], s, env, b);
      SubstArgsMean(a, args[1..], s, env, b);
      assert SubstArgs(args, s)[1..] == SubstArgs(args[1..], s);
    }
  }

  lemma {:induction false} SubstRowsMean<T>(a: Algebra<T>, bound: set<Name>, scoped: seq<Expr>, rows: seq<map<Name, T>>,
                                            s: map<Name, Expr>, env: map<Name, T>, b: map<Name, T>)
    requires (forall row :: row in rows ==> row.Keys == bound) && ArgsRespect(scoped, s, b.Keys + bound)
    ensures EvalRows(a, SubstArgs(scoped, s), rows, env + b) == EvalRows(a, scoped, rows, Bound(a, s, env) + b)
    decreases scoped, 1, |rows|
  {
    if rows != [] {
      var row := rows[0];
      assert row in rows && (b + row).Keys == b.Keys + bound;
      SumsAgree(env, b, row);
      SumsAgree(Bound(a, s, env), b, row);
      SubstArgsMean(a, scoped, s, env, b + row);
      SubstRowsMean(a, bound, scoped, rows[1..], s, env, b);
    }
  }

  lemma SumsAgree<T>(env: map<Name, T>, b: map<Name, T>, row: map<Name, T>)
    ensures env + b + row == env + (b + row)
  {}

  lemma SubstMeans<T>(a: Algebra<T>, e: Expr, s: map<Name, Expr>, env: map<Name, T>)
    requires Respects(e, s, {})
    ensures Eval(a, Subst(e, s), env) == Eval(a, e, Bound(a, s, env))
  {
    var none: map<Name, T> := map[];
    assert env + none == env && Bound(a, s, env) + none == Bound(a, s, env);
    assert none.Keys == {};
    SubstMeansIn(a, e, s, env, none);
  }

  // ----- Exactly when substitution means binding -----

  /** What expressions mean if nothing is known about the operators; bound names are marked. */
  datatype Sem =
    | SObj(value: nat)
    | STbp(table: nat)
    | SVar(name: Name)
    | SBound(name: Name)
    | SOp(opname: Name, args: seq<Sem>)
    | SDot(arg: Sem, attr: Name)
    | SBind(opname: Name, bound: set<Name>, args: seq<Sem>, rows: seq<seq<Sem>>)

  function Marks(names: set<Name>): map<Name, Sem> {
    map k | k in names :: SBound(k)
  }

  function Free(): Algebra<Sem> {
    Algebra(v => SObj(v), t => STbp(t), (n, args) => SOp(n, args), (x, n) => SDot(x, n), n => SVar(n),
      (n, bound, vs) => [Marks(bound)], (n, bound, vs, rows) => SBind(n, bound, vs, rows))
  }

  lemma EvalFreeOp(e: Expr, env: map<Name, Sem>)
    requires e.Op?
    ensures Eval(Free(), e, env) ==
      if e.IsDot() then SDot(Eval(Free(), e.args[0], env), e.args[1].name)
      else SOp(e.opname, EvalArgs(Free(), e.args, env))
  {}

  lemma EvalFreeBind(e: Expr, env: map<Name, Sem>)
    requires e.Bind?
    ensures Eval(Free(), e, env) == SBind(e.opname, e.bound, EvalArgs(Free(), e.args, env),
      [EvalArgs(Free(), e.scoped, env + Marks(e.bound))])
  {
    var vs := EvalArgs(Free(), e.args, env);
    var rows := Rows(Free(), e.opname, e.bound, vs);
    assert Free().rows(e.opname, e.bound, vs) == [Marks(e.bound)];
    assert |rows| == 1 && rows[0] == Marks(e.bound);
    assert EvalRows(Free(), e.scoped, rows[1..], env) == [];
  }

  /** Expressions with the same free meaning in two environments find the same under every name that they use. */
  lemma {:induction false} FreeTells(e: Expr, env: map<Name, Sem>, env': map<Name, Sem>, n: Name)
    requires Eval(Free(), e, env) == Eval(Free(), e, env') && Uses(e, n)
    ensures Look(Free(), env, n) == Look(Free(), env', n)
    decreases e, 0
  {
    match e
    case Op(_, args) =>
      if e.IsDot() {
        assert Eval(Free(), e, env).arg == Eval(Free(), args[0], env);
        assert Eval(Free(), e, env').arg == Eval(Free(), args[0], env');
        FreeTells(args[0], env, env', n);
      } else {
        assert Eval(Free(), e, env).args == EvalArgs(Free(), args, env);
        assert Eval(Free(), e, env').args == EvalArgs(Free(), args, env');
        FreeArgsTell(args, env, env', n);
      }
    case Bind(_, args, bound, scoped) =>
      EvalFreeBind(e, env);
      EvalFreeBind(e, env');
      if ArgsUse(args, n) {
        FreeArgsTell(args, env, env', n);
      } else {
        assert Eval(Free(), e, env).rows[0] == Eval(Free(), e, env').rows[0];
        FreeArgsTell(scoped, env + Marks(bound), env' + Marks(bound), n);
      }
    case _ =>
  }

  lemma {:induction false} FreeArgsTell(args: seq<Expr>, env: map<Name, Sem>, env': map<Name, Sem>, n: Name)
    requires EvalArgs(Free(), args, env) == EvalArgs(Free(), args, env') && ArgsUse(args, n)
    ensures Look(Free(), env, n) == Look(Free(), env', n)
    decreases args, 0
  {
    var l, r := EvalArgs(Free(), args, env), EvalArgs(Free(), args, env');
    assert l[0] == Eval(Free(), args[0], env) && r[0] == Eval(Free(), args[0], env');
    assert l[1..] == EvalArgs(Free(), args[1..], env) && r[1..] == EvalArgs(Free(), args[1..], env');
    if Uses(args[0], n) {
      FreeTells(args[0], env, env', n);
    } else {
      FreeArgsTell(args[1..], env, env', n);
    }
  }

  /** The environment of s around operators that bind these names. */
  function FreeBound(s: map<Name, Expr>, names: set<Name>): map<Name, Sem> {
    Bound(Free(), s, map[]) + Marks(names)
  }

  lemma {:induction false} FreeRespects(e: Expr, s: map<Name, Expr>, names: set<Name>)
    requires Eval(Free(), Subst(e, s), Marks(names)) == Eval(Free(), e, FreeBound(s, names))
    ensures Respects(e, s, names)
    decreases e, 0
  {
    match e
    case Var(n) =>
      if n in s && n !in names {
        forall k | k in names ensures !Uses(s[n], k) {
          if Uses(s[n], k) {
            FreeTells(s[n], Marks(names), map[], k);
          }
        }
      }
    case Op(_, args) =>
      FreeOpRespects(e, s, names);
      if e.IsDot() {
        FreeRespects(args[0], s, names);
      } else {
        FreeArgsRespect(args, s, names);
      }
    case Bind(_, args, bound, scoped) =>
      FreeBindRespects(e, s, names);
      FreeArgsRespect(args, s, names);
      FreeArgsRespect(scoped, s, names + bound);
    case _ =>
  }

  lemma FreeOpRespects(e: Expr, s: map<Name, Expr>, names: set<Name>)
    requires e.Op? && Eval(Free(), Subst(e, s), Marks(names)) == Eval(Free(), e, FreeBound(s, names))
    ensures !e.IsDot() ==>
      EvalArgs(Free(), SubstArgs(e.args, s), Marks(names)) == EvalArgs(Free(), e.args, FreeBound(s, names))
    ensures e.IsDot() ==>
      Eval(Free(), Subst(e.args[0], s), Marks(names)) == Eval(Free(), e.args[0], FreeBound(s, names))
    ensures e.IsDot() && e.args[1].name in s ==> s[e.args[1].name] == e.args[1]
  {
    hide Eval, EvalArgs, FreeBound, Marks, Free;
    SubstDot(e, s);
    assert Subst(e, s) == Op(e.opname, SubstArgs(e.args, s));
    EvalFreeOp(Subst(e, s), Marks(names));
    EvalFreeOp(e, FreeBound(s, names));
  }

  lemma FreeBindRespects(e: Expr, s: map<Name, Expr>, names: set<Name>)
    requires e.Bind? && Eval(Free(), Subst(e, s), Marks(names)) == Eval(Free(), e, FreeBound(s, names))
    ensures EvalArgs(Free(), SubstArgs(e.args, s), Marks(names)) == EvalArgs(Free(), e.args, FreeBound(s, names))
    ensures EvalArgs(Free(), SubstArgs(e.scoped, s), Marks(names + e.bound)) ==
      EvalArgs(Free(), e.scoped, FreeBound(s, names + e.bound))
  {
    hide Eval, EvalArgs, FreeBound, Marks, Free;
    EvalFreeBind(Subst(e, s), Marks(names));
    EvalFreeBind(e, FreeBound(s, names));
    MoreMarks(s, names, e.bound);
    assert Eval(Free(), Subst(e, s), Marks(names)).rows[0] == Eval(Free(), e, FreeBound(s, names)).rows[0];
  }

  lemma MoreMarks(s: map<Name, Expr>, names: set<Name>, more: set<Name>)
    ensures Marks(names) + Marks(more) == Marks(names + more)
    ensures FreeBound(s, names) + Marks(more) == FreeBound(s, names + more)
  {
    hide Bound;
  }

  lemma {:induction false} FreeArgsRespect(args: seq<Expr>, s: map<Name, Expr>, names: set<Name>)
    requires EvalArgs(Free(), SubstArgs(args, s), Marks(names)) == EvalArgs(Free(), args, FreeBound(s, names))
    ensures ArgsRespect(args, s, names)
    decreases args, 0
  {
    if args != [] {
      var l, r := EvalArgs(Free(), SubstArgs(args, s), Marks(names)), EvalArgs(Free(), args, FreeBound(s, names));
      assert SubstArgs(args, s)[1..] == SubstArgs(args[1..], s);
      assert l[0] == Eval(Free(), Subst(args[0], s), Marks(names)) &&
        r[0] == Eval(Free(), args[0], FreeBound(s, names));
      assert l[1..] == EvalArgs(Free(), SubstArgs(args[1..], s), Marks(names)) &&
        r[1..] == EvalArgs(Free(), args[1..], FreeBound(s, names));
      FreeRespects(args[0], s, names);
      FreeArgsRespect(args[1..], s, names);
    }
  }

  /**
   * Substitution means binding, whatever the operators mean, iff it respects the names of attributes: the free
   * meaning tells the two apart in every other case.
   */
  lemma SubstExact(e: Expr, s: map<Name, Expr>)
    ensures (forall a: Algebra<Sem>, env: map<Name, Sem> :: Eval(a, Subst(e, s), env) == Eval(a, e, Bound(a, s, env)))
            <==> Respects(e, s, {})
  {
    if Respects(e, s, {}) {
      forall a: Algebra<Sem>, env: map<Name, Sem> {
        SubstMeans(a, e, s, env);
      }
    } else {
      var none: map<Name, Sem> := map[];
      assert Marks({}) == none && FreeBound(s, {}) == Bound(Free(), s, none);
      if Eval(Free(), Subst(e, s), none) == Eval(Free(), e, Bound(Free(), s, none)) {
        FreeRespects(e, s, {});
      }
    }
  }

  // ----- Constant expressions -----

  predicate IsConst(e: Expr)
    decreases e, 0
  {
    match e
    case Obj(_) => true
    case Op(_, args) => AllConst(args)
    case Bind(_, args, _, scoped) => AllConst(args) && AllConst(scoped)
    case _ => false
  }

  predicate AllConst(args: seq<Expr>)
    decreases args, 0
  {
    args == [] || (IsConst(args[0]) && AllConst(args[1..]))
  }

  /** A constant expression refers to no variable, so no environment matters to it and no substitution changes it. */
  lemma {:induction false} ConstRefersToNothing(e: Expr, s: map<Name, Expr>, name: Name)
    requires IsConst(e)
    ensures !RefersVar(e, name) && Subst(e, s) == e
    decreases e, 0
  {
    match e
    case Op(_, args) => AllConstReferToNothing(args, s, name);
    case Bind(_, args, _, scoped) =>
      AllConstReferToNothing(args, s, name);
      AllConstReferToNothing(scoped, s, name);
    case _ =>
  }

  lemma {:induction false} AllConstReferToNothing(args: seq<Expr>, s: map<Name, Expr>, name: Name)
    requires AllConst(args)
    ensures !AnyRefersVar(args, name) && SubstArgs(args, s) == args
    decreases args, 0
  {
    if args != [] {
      ConstRefersToNothing(args[0], s, name);
      AllConstReferToNothing(args[1..], s, name);
    }
  }

  /** A table occurs in the expression. */
  predicate HasTable(e: Expr)
    decreases e, 0
  {
    match e
    case Tbp(_) => true
    case Op(_, args) => AnyHasTable(args)
    case Bind(_, args, _, scoped) => AnyHasTable(args) || AnyHasTable(scoped)
    case _ => false
  }

  predicate AnyHasTable(args: seq<Expr>)
    decreases args, 0
  {
    args != [] && (HasTable(args[0]) || AnyHasTable(args[1..]))
  }

  /** No name occurs in the expression. */
  ghost predicate Nameless(e: Expr) {
    forall n :: !RefersVar(e, n)
  }

  /** An expression is constant iff neither a table nor a name occurs in it, not even the name of an attribute. */
  lemma {:induction false} ConstIff(e: Expr)
    ensures IsConst(e) <==> !HasTable(e) && Nameless(e)
    decreases e, 0
  {
    if IsConst(e) {
      forall n ensures !RefersVar(e, n) {
        ConstRefersToNothing(e, map[], n);
      }
    }
    match e
    case Var(m) =>
      assert RefersVar(e, m);
    case Op(_, args) => AllConstIff(e, args);
    case Bind(_, args, _, scoped) =>
      AllConstIff(e, args);
      AllConstIff(e, scoped);
    case _ =>
  }

  lemma {:induction false} AllConstIff(e: Expr, args: seq<Expr>)
    requires forall n :: AnyRefersVar(args, n) ==> RefersVar(e, n)
    ensures AllConst(args) ==> !AnyHasTable(args)
    ensures !AnyHasTable(args) && Nameless(e) ==> AllConst(args)
    decreases args, 0
  {
    if args != [] {
      ConstIff(args[0]);
      forall n ensures AnyRefersVar(args, n) <==> RefersVar(args[0], n) || AnyRefersVar(args[1..], n) {}
      AllConstIff(e, args[1..]);
    }
  }

  lemma ConstEvaluatesAnywhere<T>(a: Algebra<T>, e: Expr, env: map<Name, T>, env': map<Name, T>)
    requires IsConst(e)
    ensures Eval(a, e, env) == Eval(a, e, env')
  {
    forall n ensures !Uses(e, n) {
      ConstRefersToNothing(e, map[], n);
      RefersIsUsesOrAttr(e, n);
    }
    EvalAgrees(a, e, env, env');
  }
}
