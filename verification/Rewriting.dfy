/**
 * The uses of substitution: WITH (dli/parse.c), the expansion of names by definitions and the inverse of a
 * renaming (obj/expression.c), each related to what it stands for.
 */
module Rewriting {
  import opened ByteStrings
  import opened Options
  import opened Renamings
  import opened Expressions

  datatype Def = Def(name: Name, exp: Expr)

  // ----- Expansion of names by definitions -----

  /** The first definition of a name counts. */
  function FirstDefs(defs: seq<Def>): map<Name, Expr> {
    if defs == [] then map[] else FirstDefs(defs[1..])[defs[0].name := defs[0].exp]
  }

  function FindDef(defs: seq<Def>, name: Name): Option<Expr> {
    if defs == [] then None
    else if defs[0].name == name then Some(defs[0].exp)
    else FindDef(defs[1..], name)
  }

  lemma {:induction false} FindDefIsFirst(defs: seq<Def>, name: Name)
    ensures FindDef(defs, name) == if name in FirstDefs(defs) then Some(FirstDefs(defs)[name]) else None
  {
    if defs != [] {
      FindDefIsFirst(defs[1..], name);
    }
  }

  /** Of several definitions of a name the first one counts, and no other name is defined. */
  lemma {:induction false} FirstDefMeans(defs: seq<Def>, i: nat)
    requires i < |defs| && forall j :: 0 <= j < i ==> defs[j].name != defs[i].name
    ensures FirstDefs(defs).Keys == set d | d in defs :: d.name
    ensures defs[i].name in FirstDefs(defs) && FirstDefs(defs)[defs[i].name] == defs[i].exp
  {
    DefinedNames(defs);
    if i > 0 {
      FirstDefMeans(defs[1..], i - 1);
    }
  }

  lemma {:induction false} DefinedNames(defs: seq<Def>)
    ensures FirstDefs(defs).Keys == set d | d in defs :: d.name
  {
    if defs != [] {
      DefinedNames(defs[1..]);
      assert defs == [defs[0]] + defs[1..];
    }
  }

  /** RDB_resolve_exprnames: every name is replaced by its definition; the replacement is not rewritten again. */
  function ResolveNames(e: Expr, defs: seq<Def>): Expr
    decreases e, 0
  {
    match e
    case Var(n) => (match FindDef(defs, n) case Some(d) => d case None => e)
    case Op(n, args) => Op(n, ResolveArgs(args, defs))
    case Bind(n, args, bound, scoped) => Bind(n, ResolveArgs(args, defs), bound, ResolveArgs(scoped, defs))
    case _ => e
  }

  function ResolveArgs(args: seq<Expr>, defs: seq<Def>): (r: seq<Expr>)
    ensures |r| == |args| && forall i :: 0 <= i < |args| ==> r[i] == ResolveNames(args[i], defs)
    decreases args, 0
  {
    if args == [] then [] else [ResolveNames(args[0], defs)] + ResolveArgs(args[1..], defs)
  }

  lemma {:induction false} ResolveIsSubst(e: Expr, defs: seq<Def>)
    ensures ResolveNames(e, defs) == Subst(e, FirstDefs(defs))
    decreases e, 0
  {
    match e
    case Var(n) => FindDefIsFirst(defs, n);
    case Op(_, args) => ResolveArgsIsSubst(args, defs);
    case Bind(_, args, _, scoped) =>
      ResolveArgsIsSubst(args, defs);
      ResolveArgsIsSubst(scoped, defs);
    case _ =>
  }

  lemma {:induction false} ResolveArgsIsSubst(args: seq<Expr>, defs: seq<Def>)
    ensures ResolveArgs(args, defs) == SubstArgs(args, FirstDefs(defs))
    decreases args, 0
  {
    if args != [] {
      ResolveIsSubst(args[0], defs);
      ResolveArgsIsSubst(args[1..], defs);
    }
  }

  /**
   * The result evaluates as the original does with every defined name bound to the value of its first
   * definition, all definitions being evaluated in the same environment. This holds whatever the operators
   * mean iff the definitions respect the names of attributes, after dots and where operators bind them.
   */
  lemma ResolveNamesExact(e: Expr, defs: seq<Def>)
    ensures (forall a: Algebra<Sem>, env: map<Name, Sem> ::
               Eval(a, ResolveNames(e, defs), env) == Eval(a, e, Bound(a, FirstDefs(defs), env)))
            <==> Respects(e, FirstDefs(defs), {})
  {
    ResolveIsSubst(e, defs);
    SubstExact(e, FirstDefs(defs));
  }

  // ----- WITH -----

  function SubstDefs(defs: seq<Def>, s: map<Name, Expr>): (r: seq<Def>)
    ensures |r| == |defs| && forall i :: 0 <= i < |defs| ==> r[i] == Def(defs[i].name, Subst(defs[i].exp, s))
  {
    if defs == [] then [] else [Def(defs[0].name, Subst(defs[0].exp, s))] + SubstDefs(defs[1..], s)
  }

  /** WITH intros : body, expanded: each intro is put into the later ones and into the body. */
  function Expand(intros: seq<Def>, body: Expr): Expr
    decreases |intros|
  {
    if intros == [] then body
    else
      var s := map[intros[0].name := intros[0].exp];
      Expand(SubstDefs(intros[1..], s), Subst(body, s))
  }

  /** What WITH stands for: the intros are bound in order, each one seen by those after it. */
  function Lets<T>(a: Algebra<T>, intros: seq<Def>, env: map<Name, T>): map<Name, T>
    decreases |intros|
  {
    if intros == [] then env
    else Lets(a, intros[1..], env[intros[0].name := Eval(a, intros[0].exp, env)])
  }

  /** The body after the first i intros were put into it. */
  function Step(intros: seq<Def>, i: nat, body: Expr): Expr
    requires i <= |intros|
  {
    Expand(intros[..i], body)
  }

  lemma {:induction false} ExpandLast(defs: seq<Def>, d: Def, body: Expr)
    ensures Expand(defs + [d], body) == Subst(Expand(defs, body), map[d.name := Expand(defs, d.exp)])
    decreases |defs|
  {
    if defs == [] {
      assert (defs + [d])[1..] == [] && SubstDefs([], map[d.name := d.exp]) == [];
    } else {
      var s := map[defs[0].name := defs[0].exp];
      var d' := Def(d.name, Subst(d.exp, s));
      assert (defs + [d])[1..] == defs[1..] + [d];
      assert SubstDefs(defs[1..] + [d], s) == SubstDefs(defs[1..], s) + [d'];
      ExpandLast(SubstDefs(defs[1..], s), d', Subst(body, s));
    }
  }

  /** Each intro is put into the body as it has become by the intros before. */
  lemma StepNext(intros: seq<Def>, i: nat, body: Expr)
    requires i < |intros|
    ensures Step(intros, i + 1, body) ==
      Subst(Step(intros, i, body), map[intros[i].name := Step(intros, i, intros[i].exp)])
  {
    assert intros[..i + 1] == intros[..i] + [intros[i]];
    ExpandLast(intros[..i], intros[i], body);
  }

  lemma {:induction false} LetsLast<T>(a: Algebra<T>, defs: seq<Def>, d: Def, env: map<Name, T>)
    ensures Lets(a, defs + [d], env) == Lets(a, defs, env)[d.name := Eval(a, d.exp, Lets(a, defs, env))]
    decreases |defs|
  {
    if defs == [] {
      assert (defs + [d])[1..] == [];
    } else {
      assert (defs + [d])[1..] == defs[1..] + [d];
      LetsLast(a, defs[1..], d, env[defs[0].name := Eval(a, defs[0].exp, env)]);
    }
  }

  lemma LetsNext<T>(a: Algebra<T>, intros: seq<Def>, i: nat, env: map<Name, T>)
    requires i < |intros|
    ensures var lets := Lets(a, intros[..i], env);
      Lets(a, intros[..i + 1], env) == lets[intros[i].name := Eval(a, intros[i].exp, lets)]
  {
    assert intros[..i + 1] == intros[..i] + [intros[i]];
    LetsLast(a, intros[..i], intros[i], env);
  }

  // ----- Names of attributes around WITH -----

  predicate Introduces(intros: seq<Def>, n: Name) {
    exists d :: d in intros && d.name == n
  }

  ghost predicate Mentions(intros: seq<Def>, n: Name) {
    Introduces(intros, n) || exists d :: d in intros && Uses(d.exp, n)
  }

  /** In e, no introduced name follows a dot, and no operator binds an introduced name or one that an intro uses. */
  ghost predicate Clear(e: Expr, intros: seq<Def>)
    decreases e, 0
  {
    match e
    case Op(_, args) =>
      if e.IsDot() then !Introduces(intros, args[1].name) && Clear(args[0], intros) else AllClear(args, intros)
    case Bind(_, args, bound, scoped) =>
      AllClear(args, intros) && AllClear(scoped, intros) && forall n :: n in bound ==> !Mentions(intros, n)
    case _ => true
  }

  ghost predicate AllClear(args: seq<Expr>, intros: seq<Def>)
    decreases args, 0
  {
    args == [] || (Clear(args[0], intros) && AllClear(args[1..], intros))
  }

  /** An expression that consists of those of intros. */
  ghost predicate Composed(t: Expr, intros: seq<Def>) {
    Clear(t, intros) && forall n :: Uses(t, n) ==> Mentions(intros, n)
  }

  ghost predicate ClearIntros(intros: seq<Def>) {
    forall d :: d in intros ==> Clear(d.exp, intros)
  }

  /** What becomes of the names that an expression uses. */
  lemma {:induction false} SubstClear(e: Expr, n: Name, t: Expr, m: Name, intros: seq<Def>)
    requires Clear(e, intros) && Introduces(intros, n) && Composed(t, intros)
    ensures Clear(Subst(e, map[n := t]), intros)
    ensures Uses(Subst(e, map[n := t]), m) <==> (m != n && Uses(e, m)) || (Uses(e, n) && Uses(t, m))
    decreases e, 0
  {
    var s := map[n := t];
    match e
    case Op(_, args) =>
      SubstDot(e, s);
      if e.IsDot() {
        SubstClear(args[0], n, t, m, intros);
      } else {
        SubstAllClear(args, n, t, m, intros);
      }
    case Bind(_, args, bound, scoped) =>
      SubstAllClear(args, n, t, m, intros);
      SubstAllClear(scoped, n, t, m, intros);
    case _ =>
  }

  lemma {:induction false} SubstAllClear(args: seq<Expr>, n: Name, t: Expr, m: Name, intros: seq<Def>)
    requires AllClear(args, intros) && Introduces(intros, n) && Composed(t, intros)
    ensures AllClear(SubstArgs(args, map[n := t]), intros)
    ensures ArgsUse(SubstArgs(args, map[n := t]), m) <==>
            (m != n && ArgsUse(args, m)) || (ArgsUse(args, n) && Uses(t, m))
    decreases args, 0
  {
    if args != [] {
      SubstClear(args[0], n, t, m, intros);
      SubstAllClear(args[1..], n, t, m, intros);
      assert SubstArgs(args, map[n := t])[1..] == SubstArgs(args[1..], map[n := t]);
    }
  }

  lemma {:induction false} ClearRespects(e: Expr, n: Name, t: Expr, names: set<Name>, intros: seq<Def>)
    requires Clear(e, intros) && Introduces(intros, n) && Composed(t, intros)
    requires forall k :: k in names ==> !Mentions(intros, k)
    ensures Respects(e, map[n := t], names)
    decreases e, 0
  {
    match e
    case Op(_, args) =>
      if e.IsDot() {
        ClearRespects(args[0], n, t, names, intros);
      } else {
        AllClearRespect(args, n, t, names, intros);
      }
    case Bind(_, args, bound, scoped) =>
      AllClearRespect(args, n, t, names, intros);
      AllClearRespect(scoped, n, t, names + bound, intros);
    case _ =>
  }

  lemma {:induction false} AllClearRespect(args: seq<Expr>, n: Name, t: Expr, names: set<Name>, intros: seq<Def>)
    requires AllClear(args, intros) && Introduces(intros, n) && Composed(t, intros)
    requires forall k :: k in names ==> !Mentions(intros, k)
    ensures ArgsRespect(args, map[n := t], names)
    decreases args, 0
  {
    if args != [] {
      ClearRespects(args[0], n, t, names, intros);
      AllClearRespect(args[1..], n, t, names, intros);
    }
  }

  lemma {:induction false} StepClear(intros: seq<Def>, i: nat, body: Expr)
    requires i <= |intros| && ClearIntros(intros) && Clear(body, intros)
    ensures Clear(Step(intros, i, body), intros)
    ensures forall m :: Uses(Step(intros, i, body), m) ==> Uses(body, m) || Mentions(intros, m)
    decreases i, 0
  {
    if i > 0 {
      var n, t := intros[i - 1].name, Step(intros, i - 1, intros[i - 1].exp);
      StepNext(intros, i - 1, body);
      StepClear(intros, i - 1, body);
      IntroComposed(intros, i - 1);
      SubstClear(Step(intros, i - 1, body), n, t, n, intros);
      forall m | Uses(Step(intros, i, body), m) ensures Uses(body, m) || Mentions(intros, m) {
        SubstClear(Step(intros, i - 1, body), n, t, m, intros);
      }
    }
  }

  /** An intro, as it is put into the later ones and into the body. */
  lemma {:induction false} IntroComposed(intros: seq<Def>, i: nat)
    requires i < |intros| && ClearIntros(intros)
    ensures Introduces(intros, intros[i].name) && Composed(Step(intros, i, intros[i].exp), intros)
    decreases i, 1
  {
    assert intros[i] in intros;
    StepClear(intros, i, intros[i].exp);
  }

  // ----- When WITH means its intros bound in order -----

  ghost predicate DistinctIntros(intros: seq<Def>) {
    forall i, j :: 0 <= i < j < |intros| ==> intros[i].name != intros[j].name
  }

  /** If an intro uses the name of a later one, up to the n-th, the later one introduces its name for itself. */
  ghost predicate InOrder(intros: seq<Def>, n: nat)
    requires n <= |intros|
  {
    forall i, j :: 0 <= j < i < n && Uses(intros[j].exp, intros[i].name) ==>
      Step(intros, i, intros[i].exp) == Var(intros[i].name)
  }

  /** A binding may go before others that neither introduce nor use the name, or if it changes nothing. */
  lemma {:induction false} LetsCommute<T>(a: Algebra<T>, defs: seq<Def>, env: map<Name, T>, n: Name, v: T)
    requires forall d :: d in defs ==> d.name != n
    requires (exists d :: d in defs && Uses(d.exp, n)) ==> Look(a, env, n) == v
    ensures Lets(a, defs, env[n := v]) == Lets(a, defs, env)[n := v]
    decreases |defs|
  {
    if defs != [] {
      var d, env' := defs[0], env[n := v];
      assert d in defs && forall d' :: d' in defs[1..] ==> d' in defs;
      EvalAgrees(a, d.exp, env', env);
      var w := Eval(a, d.exp, env);
      assert env'[d.name := w] == env[d.name := w][n := v];
      LetsCommute(a, defs[1..], env[d.name := w], n, v);
    }
  }

  lemma BoundSingle<T>(a: Algebra<T>, n: Name, t: Expr, env: map<Name, T>)
    ensures Bound(a, map[n := t], env) == env[n := Eval(a, t, env)]
  {}

  lemma {:induction false} StepMeansLets<T>(a: Algebra<T>, intros: seq<Def>, i: nat, body: Expr, env: map<Name, T>)
    requires i <= |intros| && DistinctIntros(intros) && ClearIntros(intros) && InOrder(intros, i) && Clear(body, intros)
    ensures Eval(a, Step(intros, i, body), env) == Eval(a, body, Lets(a, intros[..i], env))
    decreases i
  {
    if i > 0 {
      var d, before := intros[i - 1], intros[..i - 1];
      var t := Step(intros, i - 1, d.exp);
      var v := Eval(a, t, env);
      assert d in intros;
      StepNext(intros, i - 1, body);
      StepClear(intros, i - 1, body);
      IntroComposed(intros, i - 1);
      ClearRespects(Step(intros, i - 1, body), d.name, t, {}, intros);
      SubstMeans(a, Step(intros, i - 1, body), map[d.name := t], env);
      BoundSingle(a, d.name, t, env);
      StepMeansLets(a, intros, i - 1, body, env[d.name := v]);
      StepMeansLets(a, intros, i - 1, d.exp, env);
      LetsCommute(a, before, env, d.name, v);
      LetsNext(a, intros, i - 1, env);
    }
  }

  /**
   * WITH, expanded by repeated substitution, evaluates as if its intros were bound in order, provided their names
   * are distinct and in order, and names of attributes do not interfere.
   */
  lemma WithMeansLets<T>(a: Algebra<T>, intros: seq<Def>, body: Expr, env: map<Name, T>)
    requires DistinctIntros(intros) && InOrder(intros, |intros|) && ClearIntros(intros) && Clear(body, intros)
    ensures Eval(a, Expand(intros, body), env) == Eval(a, body, Lets(a, intros, env))
  {
    assert intros[..|intros|] == intros;
    StepMeansLets(a, intros, |intros|, body, env);
  }

  // ----- And when not -----

  /** Whatever the operators and the body are, if no name of an attribute interferes, WITH is what it stands for. */
  ghost predicate ExpandsInOrder(intros: seq<Def>) {
    forall a: Algebra<Sem>, body, env: map<Name, Sem> {:trigger Eval(a, body, Lets(a, intros, env))} ::
      Clear(body, intros) ==> Eval(a, Expand(intros, body), env) == Eval(a, body, Lets(a, intros, env))
  }

  function Size(e: Expr): nat
    decreases e, 0
  {
    match e
    case Op(_, args) => 1 + ArgsSize(args)
    case Bind(_, args, _, scoped) => 1 + ArgsSize(args) + ArgsSize(scoped)
    case _ => 1
  }

  function ArgsSize(args: seq<Expr>): nat
    decreases args, 0
  {
    if args == [] then 0 else Size(args[0]) + ArgsSize(args[1..])
  }

  lemma {:induction false} SubstSize(e: Expr, n: Name, t: Expr)
    ensures Size(t) >= 1 && Size(Subst(e, map[n := t])) >= Size(e)
    ensures Uses(e, n) && Size(t) > 1 ==> Size(Subst(e, map[n := t])) > Size(e)
    decreases e, 0
  {
    match e
    case Op(_, args) =>
      SubstArgsSize(args, n, t);
      if e.IsDot() && Uses(args[0], n) {
        assert ArgsUse(args, n);
      }
    case Bind(_, args, _, scoped) =>
      SubstArgsSize(args, n, t);
      SubstArgsSize(scoped, n, t);
    case _ =>
  }

  lemma {:induction false} SubstArgsSize(args: seq<Expr>, n: Name, t: Expr)
    ensures ArgsSize(SubstArgs(args, map[n := t])) >= ArgsSize(args)
    ensures ArgsUse(args, n) && Size(t) > 1 ==> ArgsSize(SubstArgs(args, map[n := t])) > ArgsSize(args)
    decreases args, 0
  {
    if args != [] {
      SubstSize(args[0], n, t);
      SubstArgsSize(args[1..], n, t);
      assert SubstArgs(args, map[n := t])[1..] == SubstArgs(args[1..], map[n := t]);
    }
  }

  /** Steps make no expression smaller. */
  lemma {:induction false} StepSize(intros: seq<Def>, i: nat, j: nat, body: Expr)
    requires i <= j <= |intros|
    ensures Size(Step(intros, j, body)) >= Size(Step(intros, i, body))
    decreases j
  {
    if i < j {
      StepNext(intros, j - 1, body);
      SubstSize(Step(intros, j - 1, body), intros[j - 1].name, Step(intros, j - 1, intros[j - 1].exp));
      StepSize(intros, i, j - 1, body);
    }
  }

  /** A name that an intro replaces by something without it never comes back. */
  lemma {:induction false} NameGone(intros: seq<Def>, i: nat, j: nat, body: Expr)
    requires i < j <= |intros| && ClearIntros(intros) && Clear(body, intros)
    requires !Uses(Step(intros, i, intros[i].exp), intros[i].name)
    ensures !Uses(Step(intros, j, body), intros[i].name)
    decreases j
  {
    var d := intros[j - 1];
    var t, n := Step(intros, j - 1, d.exp), intros[i].name;
    assert d in intros;
    StepNext(intros, j - 1, body);
    StepClear(intros, j - 1, body);
    IntroComposed(intros, j - 1);
    SubstClear(Step(intros, j - 1, body), d.name, t, n, intros);
    if i < j - 1 {
      NameGone(intros, i, j - 1, body);
      NameGone(intros, i, j - 1, d.exp);
    }
  }

  /** A name that is introduced later stays. */
  lemma {:induction false} NameStays(intros: seq<Def>, i: nat, body: Expr, n: Name)
    requires i <= |intros| && ClearIntros(intros) && Clear(body, intros) && Uses(body, n)
    requires forall j :: 0 <= j < i ==> intros[j].name != n
    ensures Uses(Step(intros, i, body), n)
    decreases i
  {
    if i > 0 {
      NameStays(intros, i - 1, body, n);
      StepNext(intros, i - 1, body);
      StepClear(intros, i - 1, body);
      IntroComposed(intros, i - 1);
      SubstClear(Step(intros, i - 1, body), intros[i - 1].name, Step(intros, i - 1, intros[i - 1].exp), n, intros);
    }
  }

  /** A body that consists of an introduced name uses the later names that its intro uses. */
  lemma {:induction false} NameOfIntro(intros: seq<Def>, i: nat, j: nat, n: Name)
    requires j < i <= |intros| && ClearIntros(intros) && DistinctIntros(intros) && Uses(intros[j].exp, n)
    requires forall l :: 0 <= l < i ==> intros[l].name != n
    ensures Uses(Step(intros, i, Var(intros[j].name)), n)
    decreases i
  {
    var d, x := intros[i - 1], Var(intros[j].name);
    assert intros[j] in intros;
    StepNext(intros, i - 1, x);
    StepClear(intros, i - 1, x);
    IntroComposed(intros, i - 1);
    SubstClear(Step(intros, i - 1, x), d.name, Step(intros, i - 1, d.exp), n, intros);
    if i - 1 == j {
      NameWaits(intros, j, j);
      NameStays(intros, j, d.exp, n);
    } else {
      NameOfIntro(intros, i - 1, j, n);
    }
  }

  /** An introduced name is left alone by the intros before. */
  lemma {:induction false} NameWaits(intros: seq<Def>, i: nat, j: nat)
    requires i <= j < |intros| && DistinctIntros(intros)
    ensures Step(intros, i, Var(intros[j].name)) == Var(intros[j].name)
    decreases i
  {
    if i > 0 {
      StepNext(intros, i - 1, Var(intros[j].name));
      NameWaits(intros, i - 1, j);
    }
  }

  lemma {:induction false} LetsStay<T>(a: Algebra<T>, intros: seq<Def>, i: nat, j: nat, env: map<Name, T>)
    requires j < i <= |intros| && DistinctIntros(intros)
    ensures intros[j].name in Lets(a, intros[..j + 1], env) && intros[j].name in Lets(a, intros[..i], env)
    ensures Lets(a, intros[..i], env)[intros[j].name] == Lets(a, intros[..j + 1], env)[intros[j].name]
    decreases i
  {
    LetsNext(a, intros, i - 1, env);
    if i - 1 > j {
      LetsStay(a, intros, i - 1, j, env);
    }
  }

  /** The free meaning of an expression determines the expression. */
  lemma {:induction false} FreeInjective(e: Expr, e': Expr, names: set<Name>)
    requires Eval(Free(), e, Marks(names)) == Eval(Free(), e', Marks(names))
    ensures e == e'
    decreases e, 0
  {
    match e
    case Op(_, args) =>
      EvalFreeOp(e, Marks(names));
      if e'.Op? {
        EvalFreeOp(e', Marks(names));
        if e.IsDot() {
          FreeInjective(args[0], e'.args[0], names);
          assert args == [args[0], args[1]] && e'.args == [e'.args[0], e'.args[1]];
        } else {
          FreeArgsInjective(args, e'.args, names);
        }
      }
    case Bind(_, args, bound, scoped) =>
      EvalFreeBind(e, Marks(names));
      if e'.Bind? {
        EvalFreeBind(e', Marks(names));
        assert Marks(names) + Marks(bound) == Marks(names + bound);
        FreeArgsInjective(args, e'.args, names);
        assert [EvalArgs(Free(), scoped, Marks(names + bound))][0] ==
          [EvalArgs(Free(), e'.scoped, Marks(names + bound))][0];
        FreeArgsInjective(scoped, e'.scoped, names + bound);
      }
    case _ =>
  }

  lemma {:induction false} FreeArgsInjective(args: seq<Expr>, args': seq<Expr>, names: set<Name>)
    requires EvalArgs(Free(), args, Marks(names)) == EvalArgs(Free(), args', Marks(names))
    ensures args == args'
    decreases args, 0
  {
    if args != [] {
      var l, r := EvalArgs(Free(), args, Marks(names)), EvalArgs(Free(), args', Marks(names));
      assert args' != [];
      assert l[0] == Eval(Free(), args[0], Marks(names)) && r[0] == Eval(Free(), args'[0], Marks(names));
      assert l[1..] == EvalArgs(Free(), args[1..], Marks(names));
      assert r[1..] == EvalArgs(Free(), args'[1..], Marks(names));
      FreeInjective(args[0], args'[0], names);
      FreeArgsInjective(args[1..], args'[1..], names);
      assert args == [args[0]] + args[1..] && args' == [args'[0]] + args'[1..];
    }
  }

  /** What an introduced name becomes must not change any more after its intros are in order. */
  lemma StepsDone(intros: seq<Def>, i: nat, j: nat)
    requires j < i <= |intros| && DistinctIntros(intros) && ClearIntros(intros) && InOrder(intros, i)
    requires ExpandsInOrder(intros)
    ensures Step(intros, |intros|, Var(intros[j].name)) == Step(intros, i, Var(intros[j].name))
  {
    var none: map<Name, Sem>, x := map[], Var(intros[j].name);
    assert intros[..|intros|] == intros && Marks({}) == none && Clear(x, intros);
    StepMeansLets(Free(), intros, i, x, none);
    assert Eval(Free(), Expand(intros, x), none) == Eval(Free(), x, Lets(Free(), intros, none));
    LetsStay(Free(), intros, i, j, none);
    LetsStay(Free(), intros, |intros|, j, none);
    FreeInjective(Step(intros, |intros|, x), Step(intros, i, x), {});
  }

  lemma {:induction false} OrderNeeded(intros: seq<Def>, n: nat)
    requires n <= |intros| && DistinctIntros(intros) && ClearIntros(intros) && ExpandsInOrder(intros)
    ensures InOrder(intros, n)
    decreases n
  {
    if n > 0 {
      var i := n - 1;
      OrderNeeded(intros, i);
      var m, t := intros[i].name, Step(intros, i, intros[i].exp);
      forall j | 0 <= j < i && Uses(intros[j].exp, m) ensures t == Var(m) {
        var x := Var(intros[j].name);
        NameOfIntro(intros, i, j, m);
        StepsDone(intros, i, j);
        if !Uses(t, m) {
          NameGone(intros, i, |intros|, x);
        } else if t != Var(m) {
          UsesOrSize(t, m);
          StepNext(intros, i, x);
          SubstSize(Step(intros, i, x), m, t);
          StepSize(intros, i + 1, |intros|, x);
        }
      }
    }
  }

  lemma UsesOrSize(t: Expr, n: Name)
    requires Uses(t, n) && t != Var(n)
    ensures Size(t) > 1
  {
    if t.Op? {
      assert t.args != [];
      SubstSize(t.args[0], n, t.args[0]);
    }
    if t.Bind? {
      var some := if t.args != [] then t.args[0] else t.scoped[0];
      SubstSize(some, n, some);
    }
  }

  /**
   * WITH whose intros have distinct names: if no name of an attribute interferes, the expansion means the intros
   * bound in order, whatever the body and the operators are, iff every intro that uses the name of a later one
   * meets there only that name itself.
   */
  lemma WithExact(intros: seq<Def>)
    requires DistinctIntros(intros) && ClearIntros(intros)
    ensures ExpandsInOrder(intros) <==> InOrder(intros, |intros|)
  {
    if ExpandsInOrder(intros) {
      OrderNeeded(intros, |intros|);
    }
    if InOrder(intros, |intros|) {
      forall a: Algebra<Sem>, body, env: map<Name, Sem> | Clear(body, intros)
        ensures Eval(a, Expand(intros, body), env) == Eval(a, body, Lets(a, intros, env)) {
        WithMeansLets(a, intros, body, env);
      }
    }
  }

  /** Of two intros with the same name the first counts, not the last. */
  lemma WithTakesFirst(x: Name, a: Algebra<int>, env: map<Name, int>)
    ensures var intros := [Def(x, Obj(0)), Def(x, Obj(1))];
      Eval(a, Expand(intros, Var(x)), env) == a.obj(0) && Eval(a, Var(x), Lets(a, intros, env)) == a.obj(1)
  {
    var intros, rest, s := [Def(x, Obj(0)), Def(x, Obj(1))], [Def(x, Obj(1))], map[x := Obj(0)];
    assert intros[1..] == rest && SubstDefs(rest, s) == rest && rest[1..] == [];
    assert Expand(intros, Var(x)) == Expand(rest, Obj(0)) == Expand([], Obj(0));
    assert Lets(a, intros, env) == Lets(a, rest, env[x := a.obj(0)]);
    assert Lets(a, rest, env[x := a.obj(0)]) == Lets(a, [], env[x := a.obj(0)][x := a.obj(1)]);
  }

  // ----- Inverse renaming -----

  /** The attribute that the renaming calls name; the first entry that matches decides. */
  function OldName(renv: seq<Renaming>, name: Name): Name {
    if renv == [] then name
    else if renv[0].to == name then renv[0].from
    else OldName(renv[1..], name)
  }

  /** RDB_invrename_expr. */
  function InvRename(e: Expr, renv: seq<Renaming>): Expr
    decreases e, 0
  {
    match e
    case Var(n) => Var(OldName(renv, n))
    case Op(n, args) => Op(n, InvRenameArgs(args, renv))
    case Bind(n, args, bound, scoped) => Bind(n, InvRenameArgs(args, renv), bound, InvRenameArgs(scoped, renv))
    case _ => e
  }

  function InvRenameArgs(args: seq<Expr>, renv: seq<Renaming>): (r: seq<Expr>)
    ensures |r| == |args| && forall i :: 0 <= i < |args| ==> r[i] == InvRename(args[i], renv)
    decreases args, 0
  {
    if args == [] then [] else [InvRename(args[0], renv)] + InvRenameArgs(args[1..], renv)
  }

  predicate IsNew(renv: seq<Renaming>, n: Name) {
    exists i :: 0 <= i < |renv| && renv[i].to == n
  }

  predicate IsOld(renv: seq<Renaming>, n: Name) {
    exists i :: 0 <= i < |renv| && renv[i].from == n
  }

  /**
   * Inside operators that bind these names: the expression evaluates no attribute that was renamed away, no new
   * name follows a dot or is bound, and no old name gets where it is bound.
   */
  predicate Renamable(e: Expr, renv: seq<Renaming>, names: set<Name>)
    decreases e, 0
  {
    match e
    case Var(n) => if n in names then !IsNew(renv, n) else !IsOld(renv, n) && OldName(renv, n) !in names
    case Op(_, args) =>
      if e.IsDot() then Renamable(args[0], renv, names) && !IsNew(renv, args[1].name)
      else AllRenamable(args, renv, names)
    case Bind(_, args, bound, scoped) => AllRenamable(args, renv, names) && AllRenamable(scoped, renv, names + bound)
    case _ => true
  }

  predicate AllRenamable(args: seq<Expr>, renv: seq<Renaming>, names: set<Name>)
    decreases args, 0
  {
    args == [] || (Renamable(args[0], renv, names) && AllRenamable(args[1..], renv, names))
  }

  lemma {:induction false} OldNameIsInverse(renv: seq<Renaming>, name: Name)
    ensures OldName(renv, name) == NewName(Inverse(renv), name)
  {
    if renv != [] {
      assert Inverse(renv)[1..] == Inverse(renv[1..]);
      OldNameIsInverse(renv[1..], name);
    }
  }

  /** Looking a name up in the renamed tuple is looking its old name up in the tuple, unless it was renamed away. */
  lemma RenamedLookup<T>(t: map<Name, T>, renv: seq<Renaming>, t': map<Name, T>, n: Name)
    requires Accepted(t.Keys, renv) && IsRenamed(t, renv, map[], t')
    ensures !IsOld(renv, n) ==>
      (n in t' <==> OldName(renv, n) in t) && (n in t' ==> t'[n] == t[OldName(renv, n)]) &&
      (n !in t' ==> OldName(renv, n) == n)
    ensures IsOld(renv, n) ==> n !in t' && n in t && OldName(renv, n) == n
  {
    var inv := Inverse(renv);
    OldNameIsInverse(renv, n);
    NewNameIs(inv, n);
    RenamingInvertible(t.Keys, renv);
    if n in t' {
      var m :| m in t && NewName(renv, m) == n;
      NewNameIs(renv, m);
    }
    NewNameIs(renv, OldName(renv, n));
    if j :| 0 <= j < |inv| && inv[j].from == n && inv[j].to == NewName(inv, n) {
      NewNameAt(renv, j);
    }
  }

  lemma InvRenameDot(e: Expr, renv: seq<Renaming>)
    requires e.Op?
    ensures InvRename(e, renv).IsDot() <==> e.IsDot()
    ensures e.IsDot() ==> InvRename(e, renv).args == [InvRename(e.args[0], renv), Var(OldName(renv, e.args[1].name))]
  {
    if |e.args| == 2 {
      assert InvRename(e, renv).args[1] == InvRename(e.args[1], renv);
    }
  }

  /** A new name is an old name under which it is looked up; any other name stays. */
  lemma {:induction false} OldNameMoves(renv: seq<Renaming>, names: set<Name>, name: Name)
    requires Accepted(names, renv)
    ensures IsNew(renv, name) <==> OldName(renv, name) != name
  {
    if IsNew(renv, name) {
      var i :| 0 <= i < |renv| && renv[i].to == name;
      OldNameIsInverse(renv, name);
      NewNameAt(Inverse(renv), i);
      assert renv[i].from in names && renv[i].to !in names;
    } else {
      NotATarget(renv, name);
    }
  }

  lemma {:induction false} NotATarget(renv: seq<Renaming>, name: Name)
    requires !IsNew(renv, name)
    ensures OldName(renv, name) == name
  {
    if renv != [] {
      assert forall i :: 0 <= i < |renv| - 1 ==> renv[1..][i] == renv[i + 1];
      assert renv[0].to != name && !IsNew(renv[1..], name);
      NotATarget(renv[1..], name);
    }
  }

  /** b are bound names. */
  lemma {:induction false} RenamableMeans<T>(a: Algebra<T>, e: Expr, renv: seq<Renaming>, t: map<Name, T>,
                                             t': map<Name, T>, b: map<Name, T>)
    requires Accepted(t.Keys, renv) && IsRenamed(t, renv, map[], t') && Renamable(e, renv, b.Keys)
    ensures Eval(a, e, t' + b) == Eval(a, InvRename(e, renv), t + b)
    decreases e, 0
  {
    match e
    case Var(n) =>
      RenamedLookup(t, renv, t', n);
      OldNameMoves(renv, t.Keys, n);
    case Op(_, args) =>
      InvRenameDot(e, renv);
      if e.IsDot() {
        RenamableMeans(a, args[0], renv, t, t', b);
        NotATarget(renv, args[1].name);
      } else {
        AllRenamableMean(a, args, renv, t, t', b);
      }
    case Bind(n, args, bound, scoped) =>
      AllRenamableMean(a, args, renv, t, t', b);
      RenamableRowsMean(a, bound, scoped, Rows(a, n, bound, EvalArgs(a, args, t' + b)), renv, t, t', b);
    case _ =>
  }

  lemma {:induction false} AllRenamableMean<T>(a: Algebra<T>, args: seq<Expr>, renv: seq<Renaming>, t: map<Name, T>,
                                               t': map<Name, T>, b: map<Name, T>)
    requires Accepted(t.Keys, renv) && IsRenamed(t, renv, map[], t') && AllRenamable(args, renv, b.Keys)
    ensures EvalArgs(a, args, t' + b) == EvalArgs(a, InvRenameArgs(args, renv), t + b)
    decreases args, 0
  {
    if args != [] {
      RenamableMeans(a, args[0], renv, t, t', b);
      AllRenamableMean(a, args[1..], renv, t, t', b);
      assert InvRenameArgs(args, renv)[1..] == InvRenameArgs(args[1..], renv);
    }
  }

  lemma {:induction false} RenamableRowsMean<T>(a: Algebra<T>, bound: set<Name>, scoped: seq<Expr>,
                                                rows: seq<map<Name, T>>, renv: seq<Renaming>, t: map<Name, T>,
                                                t': map<Name, T>, b: map<Name, T>)
    requires Accepted(t.Keys, renv) && IsRenamed(t, renv, map[], t')
    requires (forall row :: row in rows ==> row.Keys == bound) && AllRenamable(scoped, renv, b.Keys + bound)
    ensures EvalRows(a, scoped, rows, t' + b) == EvalRows(a, InvRenameArgs(scoped, renv), rows, t + b)
    decreases scoped, 1, |rows|
  {
    if rows != [] {
      var row := rows[0];
      assert row in rows && (b + row).Keys == b.Keys + bound;
      SumsAgree(t', b, row);
      SumsAgree(t, b, row);
      AllRenamableMean(a, scoped, renv, t, t', b + row);
      RenamableRowsMean(a, bound, scoped, rows[1..], renv, t, t', b);
    }
  }

  /** Evaluating over t' is evaluating over t, where t' is t renamed and all values are alike; names are bound. */
  ghost predicate Tell(e: Expr, renv: seq<Renaming>, t: map<Name, Sem>, t': map<Name, Sem>, names: set<Name>) {
    Accepted(t.Keys, renv) && IsRenamed(t, renv, map[], t') && (forall n :: n in t ==> t[n] == SObj(0)) &&
    Eval(Free(), e, t' + Marks(names)) == Eval(Free(), InvRename(e, renv), t + Marks(names))
  }

  ghost predicate AllTell(args: seq<Expr>, renv: seq<Renaming>, t: map<Name, Sem>, t': map<Name, Sem>, names: set<Name>)
  {
    Accepted(t.Keys, renv) && IsRenamed(t, renv, map[], t') && (forall n :: n in t ==> t[n] == SObj(0)) &&
    EvalArgs(Free(), args, t' + Marks(names)) == EvalArgs(Free(), InvRenameArgs(args, renv), t + Marks(names))
  }

  lemma {:induction false} FreeRenamable(e: Expr, renv: seq<Renaming>, t: map<Name, Sem>, t': map<Name, Sem>,
                                         names: set<Name>)
    requires Tell(e, renv, t, t', names)
    ensures Renamable(e, renv, names)
    decreases e, 0
  {
    match e
    case Var(n) =>
      RenamedLookup(t, renv, t', n);
      OldNameMoves(renv, t.Keys, n);
    case Op(_, args) =>
      FreeOpRenamable(e, renv, t, t', names);
      if e.IsDot() {
        FreeRenamable(args[0], renv, t, t', names);
      } else {
        FreeAllRenamable(args, renv, t, t', names);
      }
    case Bind(_, args, bound, scoped) =>
      FreeBindRenamable(e, renv, t, t', names);
      FreeAllRenamable(args, renv, t, t', names);
      FreeAllRenamable(scoped, renv, t, t', names + bound);
    case _ =>
  }

  lemma FreeOpRenamable(e: Expr, renv: seq<Renaming>, t: map<Name, Sem>, t': map<Name, Sem>, names: set<Name>)
    requires e.Op? && Tell(e, renv, t, t', names)
    ensures e.IsDot() ==> Tell(e.args[0], renv, t, t', names) && !IsNew(renv, e.args[1].name)
    ensures !e.IsDot() ==> AllTell(e.args, renv, t, t', names)
  {
    hide Eval, EvalArgs, Free, IsRenamed, Accepted;
    InvRenameDot(e, renv);
    EvalFreeOp(e, t' + Marks(names));
    EvalFreeOp(InvRename(e, renv), t + Marks(names));
    if e.IsDot() {
      OldNameMoves(renv, t.Keys, e.args[1].name);
    }
  }

  lemma FreeBindRenamable(e: Expr, renv: seq<Renaming>, t: map<Name, Sem>, t': map<Name, Sem>, names: set<Name>)
    requires e.Bind? && Tell(e, renv, t, t', names)
    ensures AllTell(e.args, renv, t, t', names) && AllTell(e.scoped, renv, t, t', names + e.bound)
  {
    hide Eval, EvalArgs, Free, IsRenamed, Accepted;
    EvalFreeBind(e, t' + Marks(names));
    EvalFreeBind(InvRename(e, renv), t + Marks(names));
    SumsAgree(t, Marks(names), Marks(e.bound));
    SumsAgree(t', Marks(names), Marks(e.bound));
    assert Marks(names) + Marks(e.bound) == Marks(names + e.bound);
    assert Eval(Free(), e, t' + Marks(names)).rows[0] == Eval(Free(), InvRename(e, renv), t + Marks(names)).rows[0];
  }

  lemma {:induction false} FreeAllRenamable(args: seq<Expr>, renv: seq<Renaming>, t: map<Name, Sem>, t': map<Name, Sem>,
                                            names: set<Name>)
    requires AllTell(args, renv, t, t', names)
    ensures AllRenamable(args, renv, names)
    decreases args, 0
  {
    if args != [] {
      var env', env := t' + Marks(names), t + Marks(names);
      var l, r := EvalArgs(Free(), args, env'), EvalArgs(Free(), InvRenameArgs(args, renv), env);
      assert l[0] == Eval(Free(), args[0], env') && l[1..] == EvalArgs(Free(), args[1..], env');
      assert InvRenameArgs(args, renv)[1..] == InvRenameArgs(args[1..], renv);
      assert r[0] == Eval(Free(), InvRename(args[0], renv), env) &&
        r[1..] == EvalArgs(Free(), InvRenameArgs(args[1..], renv), env);
      FreeRenamable(args[0], renv, t, t', names);
      FreeAllRenamable(args[1..], renv, t, t', names);
    }
  }

  /** If t' is t renamed: evaluating over t' is evaluating the inversely renamed expression over t. */
  ghost predicate Commutes<T>(a: Algebra<T>, e: Expr, renv: seq<Renaming>, t: map<Name, T>, t': map<Name, T>) {
    IsRenamed(t, renv, map[], t') ==> Eval(a, e, t') == Eval(a, InvRename(e, renv), t)
  }

  lemma InvRenameCommutes<T>(a: Algebra<T>, e: Expr, renv: seq<Renaming>, t: map<Name, T>, t': map<Name, T>)
    requires Accepted(t.Keys, renv) && Renamable(e, renv, {})
    ensures Commutes(a, e, renv, t, t')
  {
    if IsRenamed(t, renv, map[], t') {
      var none: map<Name, T> := map[];
      assert t + none == t && t' + none == t' && none.Keys == {};
      RenamableMeans(a, e, renv, t, t', none);
    }
  }

  /**
   * For an accepted renaming that holds of every tuple with these attributes, whatever the operators mean, iff
   * the expression evaluates no renamed-away name and the renaming does not interfere with the names of attributes
   * after dots and where operators bind them.
   */
  lemma InvRenameExact(e: Expr, renv: seq<Renaming>, names: set<Name>)
    requires Accepted(names, renv)
    ensures (forall a: Algebra<Sem>, t: map<Name, Sem>, t': map<Name, Sem> :: t.Keys == names ==>
      Commutes(a, e, renv, t, t'))
            <==> Renamable(e, renv, {})
  {
    if Renamable(e, renv, {}) {
      forall a: Algebra<Sem>, t: map<Name, Sem>, t': map<Name, Sem> | t.Keys == names {
        InvRenameCommutes(a, e, renv, t, t');
      }
    } else {
      var t := map n | n in names :: SObj(0);
      var newNames := set n | n in names :: NewName(renv, n);
      var t' := map n | n in newNames :: SObj(0);
      assert t.Keys == names && IsRenamed(t, renv, map[], t');
      assert t + Marks({}) == t && t' + Marks({}) == t';
      if Commutes(Free(), e, renv, t, t') {
        FreeRenamable(e, renv, t, t', {});
      }
    }
  }
}
