/**
 * Expressions as they are stored: nodes whose arguments hang on linked lists (obj/expression.c). The
 * substitutions relink these lists in place. A shape says which nodes make up an expression and where; it is
 * ghost, and a node is part of the expression only as far as the pointers agree with the shape.
 */
module ExpressionNodes {
  import opened ByteStrings
  import opened Options
  import opened Renamings
  import opened Expressions
  import opened Rewriting

  datatype Kind = OBJ | TBP | VAR | RO_OP

  class Node {
    var kind: Kind
    var value: nat
    var name: Name
    var firstp: Node?
    var lastp: Node?
    var nextp: Node?

    constructor (kind: Kind, value: nat, name: Name)
      ensures this.kind == kind && this.value == value && this.name == name
      ensures firstp == null && nextp == null
    {
      this.kind, this.value, this.name := kind, value, name;
      firstp, lastp, nextp := null, null, null;
    }
  }

  /** The first arguments are closed; the others are evaluated for tuples whose attributes are bound. */
  datatype Scoping = Scoping(closed: nat, bound: set<Name>)

  /** Whether an operator binds attributes, and which, does not show in the nodes: it follows from types. */
  datatype Shape =
    | Leaf(node: Node, exp: Expr)
    | Branch(node: Node, opname: Name, args: seq<Shape>, scoping: Option<Scoping>)

  ghost function OpOf(opname: Name, scoping: Option<Scoping>, args: seq<Expr>): Expr {
    if scoping.Some? && scoping.value.closed <= |args| then
      Bind(opname, args[..scoping.value.closed], scoping.value.bound, args[scoping.value.closed..])
    else Op(opname, args)
  }

  ghost function Value(s: Shape): Expr
    decreases s, 0
  {
    match s
    case Leaf(_, e) => e
    case Branch(_, n, args, scoping) => OpOf(n, scoping, Values(args))
  }

  ghost function Values(ss: seq<Shape>): (r: seq<Expr>)
    ensures |r| == |ss|
    decreases ss, 0
  {
    if ss == [] then [] else [Value(ss[0])] + Values(ss[1..])
  }

  ghost function Nodes(s: Shape): (r: set<Node>)
    ensures s.node in r && Inner(s) <= r
    decreases s, 1
  {
    {s.node} + Inner(s)
  }

  ghost function Inner(s: Shape): set<Node>
    decreases s, 0
  {
    if s.Branch? then ListNodes(s.args) else {}
  }

  ghost function ListNodes(ss: seq<Shape>): set<Node>
    decreases ss, 0
  {
    if ss == [] then {} else Nodes(ss[0]) + ListNodes(ss[1..])
  }

  /** No node occurs twice. */
  ghost predicate Separate(s: Shape)
    decreases s, 0
  {
    s.node !in Inner(s) && (s.Branch? ==> ListSeparate(s.args))
  }

  ghost predicate ListSeparate(ss: seq<Shape>)
    decreases ss, 0
  {
    ss == [] || (Separate(ss[0]) && Nodes(ss[0]) !! ListNodes(ss[1..]) && ListSeparate(ss[1..]))
  }

  /** The nodes are linked as the shape says; the successor of the root does not matter. */
  ghost predicate IsTree(s: Shape)
    reads Inner(s), s.node`kind, s.node`value, s.node`name, s.node`firstp, s.node`lastp
    decreases s, 0
  {
    match s
    case Leaf(n, Obj(v)) => n.kind == OBJ && n.value == v
    case Leaf(n, Tbp(t)) => n.kind == TBP && n.value == t
    case Leaf(n, Var(x)) => n.kind == VAR && n.name == x
    case Leaf(_, _) => false
    case Branch(n, op, args, _) =>
      n.kind == RO_OP && n.name == op && IsList(args, n.firstp, null) && (args != [] ==> n.lastp == Last(args))
  }

  /** A list from first up to, not including, the node end. */
  ghost predicate IsList(ss: seq<Shape>, first: Node?, end: Node?)
    reads ListNodes(ss)
    decreases ss, 0
  {
    if ss == [] then first == end
    else first == ss[0].node && IsTree(ss[0]) && IsList(ss[1..], ss[0].node.nextp, end)
  }

  ghost function Last(ss: seq<Shape>): Node
    requires ss != []
  {
    ss[|ss| - 1].node
  }

  lemma ValuesStep(vs: seq<Expr>, ss: seq<Shape>, i: nat)
    requires i < |ss|
    ensures vs + Values(ss[i..]) == (vs + [Value(ss[i])]) + Values(ss[i + 1..])
  {
    assert ss[i..][1..] == ss[i + 1..];
  }

  lemma SubstOp(n: Name, scoping: Option<Scoping>, args: seq<Expr>, m: map<Name, Expr>)
    ensures Subst(OpOf(n, scoping, args), m) == OpOf(n, scoping, SubstArgs(args, m))
  {
    hide SubstArgs;
    if scoping.Some? && scoping.value.closed <= |args| {
      var k := scoping.value.closed;
      assert SubstArgs(args[..k], m) == SubstArgs(args, m)[..k];
      assert SubstArgs(args[k..], m) == SubstArgs(args, m)[k..];
    }
  }

  lemma ResolveOp(n: Name, scoping: Option<Scoping>, args: seq<Expr>, defs: seq<Def>)
    ensures ResolveNames(OpOf(n, scoping, args), defs) == OpOf(n, scoping, ResolveArgs(args, defs))
  {
    hide ResolveArgs;
    if scoping.Some? && scoping.value.closed <= |args| {
      var k := scoping.value.closed;
      assert ResolveArgs(args[..k], defs) == ResolveArgs(args, defs)[..k];
      assert ResolveArgs(args[k..], defs) == ResolveArgs(args, defs)[k..];
    }
  }

  lemma InvRenameOp(n: Name, scoping: Option<Scoping>, args: seq<Expr>, renv: seq<Renaming>)
    ensures InvRename(OpOf(n, scoping, args), renv) == OpOf(n, scoping, InvRenameArgs(args, renv))
  {
    hide InvRenameArgs;
    if scoping.Some? && scoping.value.closed <= |args| {
      var k := scoping.value.closed;
      assert InvRenameArgs(args[..k], renv) == InvRenameArgs(args, renv)[..k];
      assert InvRenameArgs(args[k..], renv) == InvRenameArgs(args, renv)[k..];
    }
  }

  // ----- Lists -----

  lemma {:induction false} NodesOfAppended(ss: seq<Shape>, tt: seq<Shape>)
    ensures ListNodes(ss + tt) == ListNodes(ss) + ListNodes(tt)
  {
    hide Nodes;
    if ss == [] {
      assert ss + tt == tt;
    } else {
      assert (ss + tt)[1..] == ss[1..] + tt;
      NodesOfAppended(ss[1..], tt);
    }
  }

  lemma {:induction false} ValuesOfAppended(ss: seq<Shape>, tt: seq<Shape>)
    ensures Values(ss + tt) == Values(ss) + Values(tt)
  {
    hide Value;
    if ss == [] {
      assert ss + tt == tt;
    } else {
      assert (ss + tt)[1..] == ss[1..] + tt;
      ValuesOfAppended(ss[1..], tt);
    }
  }

  lemma {:induction false} SeparateAppended(ss: seq<Shape>, tt: seq<Shape>)
    ensures ListSeparate(ss + tt) <==> ListSeparate(ss) && ListSeparate(tt) && ListNodes(ss) !! ListNodes(tt)
  {
    if ss == [] {
      assert ss + tt == tt;
    } else {
      assert (ss + tt)[1..] == ss[1..] + tt;
      NodesOfAppended(ss[1..], tt);
      SeparateAppended(ss[1..], tt);
    }
  }

  lemma {:induction false} ListAppended(ss: seq<Shape>, tt: seq<Shape>, first: Node?, mid: Node?, end: Node?)
    requires IsList(ss, first, mid) && IsList(tt, mid, end)
    ensures IsList(ss + tt, first, end)
  {
    if ss == [] {
      assert ss + tt == tt;
    } else {
      assert (ss + tt)[1..] == ss[1..] + tt;
      ListAppended(ss[1..], tt, ss[0].node.nextp, mid, end);
    }
  }

  /** A list consists of all but its last element, and that element. */
  lemma {:induction false} ListSplit(ss: seq<Shape>, first: Node?, end: Node?)
    requires IsList(ss, first, end) && ss != []
    ensures IsList(ss[..|ss| - 1], first, Last(ss)) && IsTree(ss[|ss| - 1]) && Last(ss).nextp == end
  {
    if |ss| > 1 {
      ListSplit(ss[1..], ss[0].node.nextp, end);
      assert ss[..|ss| - 1][1..] == ss[1..][..|ss| - 2];
    }
  }

  /** The arguments that operator node n has so far. */
  ghost predicate HasArgs(n: Node, args: seq<Shape>)
    reads n`firstp, n`lastp, ListNodes(args)
  {
    IsList(args, n.firstp, null) && (args != [] ==> n.lastp == Last(args)) &&
    ListSeparate(args) && n !in ListNodes(args)
  }

  /** RDB_add_arg: node e becomes the last argument of node n. */
  method AddArg(n: Node, e: Node, ghost args: seq<Shape>, ghost s: Shape)
    requires HasArgs(n, args) && IsTree(s) && s.node == e && Separate(s)
    requires n !in Nodes(s) && ListNodes(args) !! Nodes(s)
    modifies n`firstp, n`lastp, e`nextp, ListNodes(args)`nextp
    ensures HasArgs(n, args + [s]) && ListNodes(args + [s]) == ListNodes(args) + Nodes(s)
    ensures Values(args + [s]) == Values(args) + [Value(s)]
  {
    hide Value, Nodes, IsTree, Inner;
    NodesOfAppended(args, [s]);
    ValuesOfAppended(args, [s]);
    SeparateAppended(args, [s]);
    ghost var k := |args| - 1;
    if args != [] {
      ListSplit(args, n.firstp, null);
      NodesOfAppended(args[..k], [args[k]]);
      SeparateAppended(args[..k], [args[k]]);
      assert args == args[..k] + [args[k]];
    }
    e.nextp := null;
    if n.firstp == null {
      n.firstp := e;
      n.lastp := e;
    } else {
      n.lastp.nextp := e;
      n.lastp := e;
      ListAppended(args[..k], [args[k]], n.firstp, args[k].node, e);
    }
    ListAppended(args, [s], n.firstp, e, null);
  }

  // ----- Copying -----

  /** RDB_dup_expr: all nodes of the copy are new. */
  method DupExpr(e: Node, ghost s: Shape) returns (r: Node, ghost t: Shape)
    requires IsTree(s) && s.node == e
    ensures IsTree(t) && t.node == r && Separate(t) && fresh(Nodes(t)) && Value(t) == Value(s)
    decreases s, 1
  {
    if e.kind == RO_OP {
      assert allocated(ListNodes(s.args));
      r := new Node(RO_OP, 0, e.name);
      ghost var args := DupArgs(r, e.firstp, s.args);
      t := Branch(r, s.opname, args, s.scoping);
    } else {
      r := new Node(e.kind, e.value, e.name);
      t := Leaf(r, s.exp);
    }
  }

  method DupArgs(r: Node, first: Node?, ghost args: seq<Shape>) returns (ghost done: seq<Shape>)
    requires IsList(args, first, null) && HasArgs(r, []) && r !in ListNodes(args)
    modifies r`firstp, r`lastp
    ensures HasArgs(r, done) && fresh(ListNodes(done)) && Values(done) == Values(args)
    decreases args, 0
  {
    hide Value, Values, ListSeparate, Separate, Nodes, Inner, IsTree, HasArgs, Last;
    assert allocated(ListNodes(args));
    var argp := first;
    done := [];
    ghost var i := 0;
    while argp != null
      invariant i <= |args| && IsList(args[i..], argp, null) && ListNodes(args[i..]) <= ListNodes(args)
      invariant HasArgs(r, done) && fresh(ListNodes(done))
      invariant Values(done) + Values(args[i..]) == Values(args)
      decreases |args| - i
    {
      assert args[i..][1..] == args[i + 1..];
      ValuesStep(Values(done), args, i);
      ghost var d := DupArg(r, argp, done, args[i]);
      argp := argp.nextp;
      done, i := done + [d], i + 1;
    }
  }

  method DupArg(r: Node, argp: Node, ghost done: seq<Shape>, ghost s: Shape) returns (ghost d: Shape)
    requires IsTree(s) && s.node == argp && HasArgs(r, done)
    modifies r`firstp, r`lastp, ListNodes(done)`nextp
    ensures HasArgs(r, done + [d]) && ListNodes(done + [d]) == ListNodes(done) + Nodes(d) && fresh(Nodes(d))
    ensures Values(done + [d]) == Values(done) + [Value(s)]
    decreases s, 2
  {
    hide Value, Values, Separate, ListSeparate, Nodes, Inner, IsTree, IsList;
    assert allocated(ListNodes(done));
    var argdp;
    argdp, d := DupExpr(argp, s);
    AddArg(r, argdp, done, d);
  }

  // ----- Replacing one name -----

  /**
   * RDB_expr_resolve_varname_expr: every variable node called varname becomes a copy of texp. Operator nodes
   * are kept and their arguments relinked, so the result consists of nodes of the expression and new ones.
   */
  method ResolveVarname(e: Node, ghost s: Shape, varname: Name, texp: Node, ghost ts: Shape)
      returns (r: Node, ghost t: Shape)
    requires IsTree(s) && s.node == e && Separate(s)
    requires IsTree(ts) && ts.node == texp && Nodes(ts) !! Nodes(s)
    modifies Inner(s), e`firstp, e`lastp
    ensures IsTree(t) && t.node == r && Separate(t) && (forall x :: x in Nodes(t) ==> x in Nodes(s) || fresh(x))
    ensures IsTree(ts) && Nodes(t) !! Nodes(ts)
    ensures Value(t) == Subst(Value(s), map[varname := Value(ts)])
    ensures r.nextp == old(e.nextp)
    decreases s, 1
  {
    hide Values, SubstArgs;
    r, t := e, s;
    assert allocated(Nodes(ts));
    match e.kind {
      case RO_OP =>
        var argp := e.firstp;
        e.firstp := null;
        ghost var args := ResolveVarnameArgs(e, argp, s.args, varname, texp, ts);
        SubstOp(s.opname, s.scoping, Values(s.args), map[varname := Value(ts)]);
        t := Branch(e, s.opname, args, s.scoping);
      case OBJ =>
      case TBP =>
      case VAR =>
        if varname == e.name {
          r, t := DupExpr(texp, ts);
          r.nextp := e.nextp;
        }
    }
  }

  method ResolveVarnameArgs(e: Node, first: Node?, ghost args: seq<Shape>, varname: Name, texp: Node, ghost ts: Shape)
      returns (ghost done: seq<Shape>)
    requires IsList(args, first, null) && ListSeparate(args) && HasArgs(e, []) && e !in ListNodes(args)
    requires IsTree(ts) && ts.node == texp && Nodes(ts) !! ListNodes(args) && e !in Nodes(ts)
    modifies e`firstp, e`lastp, ListNodes(args)
    ensures HasArgs(e, done) && forall x :: x in ListNodes(done) ==> x in ListNodes(args) || fresh(x)
    ensures Values(done) == SubstArgs(Values(args), map[varname := Value(ts)])
    decreases args, 0
  {
    hide Value, Values, Separate, Nodes, Inner, IsTree, HasArgs, Last, SubstArgs, Subst;
    ghost var s := map[varname := Value(ts)];
    assert allocated(ListNodes(args)) && allocated(Nodes(ts));
    var argp := first;
    done := [];
    ghost var i := 0;
    while argp != null
      invariant i <= |args| && IsList(args[i..], argp, null) && ListSeparate(args[i..])
      invariant ListNodes(args[i..]) <= ListNodes(args) && ListNodes(done) !! ListNodes(args[i..])
      invariant HasArgs(e, done) && forall x :: x in ListNodes(done) ==> x in ListNodes(args) || fresh(x)
      invariant IsTree(ts)
      invariant Values(done) + SubstArgs(Values(args[i..]), s) == SubstArgs(Values(args), s)
      decreases |args| - i
    {
      assert args[i..][1..] == args[i + 1..];
      SubstStep(Values(done), args, i, s);
      assert allocated(ListNodes(args[i..]));
      var nextp := argp.nextp;
      ghost var d := ResolveVarnameArg(e, argp, done, args[i], varname, texp, ts);
      argp := nextp;
      done, i := done + [d], i + 1;
    }
  }

  method ResolveVarnameArg(e: Node, argp: Node, ghost done: seq<Shape>, ghost s: Shape, varname: Name,
                           texp: Node, ghost ts: Shape)
      returns (ghost d: Shape)
    requires IsTree(s) && s.node == argp && Separate(s) && HasArgs(e, done)
    requires ListNodes(done) !! Nodes(s) && e !in Nodes(s)
    requires IsTree(ts) && ts.node == texp && Nodes(ts) !! Nodes(s)
    modifies e`firstp, e`lastp, ListNodes(done)`nextp, Nodes(s)
    ensures HasArgs(e, done + [d]) && ListNodes(done + [d]) == ListNodes(done) + Nodes(d)
    ensures forall x :: x in Nodes(d) ==> x in Nodes(s) || fresh(x)
    ensures Values(done + [d]) == Values(done) + [Subst(Value(s), map[varname := Value(ts)])]
    decreases s, 2
  {
    hide Value, Values, Separate, ListSeparate, Nodes, Inner, IsTree, IsList, Subst;
    assert allocated(ListNodes(done)) && allocated(Nodes(ts));
    var r;
    r, d := ResolveVarname(argp, s, varname, texp, ts);
    AddArg(e, r, done, d);
  }

  lemma SubstStep(vs: seq<Expr>, ss: seq<Shape>, i: nat, m: map<Name, Expr>)
    requires i < |ss|
    ensures vs + SubstArgs(Values(ss[i..]), m) == (vs + [Subst(Value(ss[i]), m)]) + SubstArgs(Values(ss[i + 1..]), m)
  {
    assert ss[i..][1..] == ss[i + 1..];
    assert Values(ss[i..])[1..] == Values(ss[i + 1..]);
  }

  // ----- Replacing names by definitions -----

  /** A list in which each expression is followed by a node with its name. */
  ghost predicate AreDefs(ds: seq<Shape>) {
    ds == [] || (|ds| >= 2 && ds[1].Leaf? && ds[1].exp.Obj? && AreDefs(ds[2..]))
  }

  ghost function DefsOf(ds: seq<Shape>, text: nat -> Name): seq<Def>
    requires AreDefs(ds)
  {
    if ds == [] then [] else [Def(text(ds[1].exp.value), Value(ds[0]))] + DefsOf(ds[2..], text)
  }

  /** The search in RDB_resolve_exprnames: the first expression whose name is that of the variable. */
  method FindDefNode(texp: Node?, ghost ds: seq<Shape>, name: Name, text: nat -> Name)
    returns (argp: Node?, ghost d: Option<Shape>)
    requires IsList(ds, texp, null) && AreDefs(ds)
    ensures d.Some? ==> IsTree(d.value) && d.value.node == argp && Nodes(d.value) <= ListNodes(ds)
    ensures d.None? ==> argp == null
    ensures FindDef(DefsOf(ds, text), name) == if d.Some? then Some(Value(d.value)) else None
  {
    hide Value, Nodes, Inner;
    argp := texp;
    ghost var rest := ds;
    while argp != null
      invariant IsList(rest, argp, null) && AreDefs(rest) && ListNodes(rest) <= ListNodes(ds)
      invariant FindDef(DefsOf(rest, text), name) == FindDef(DefsOf(ds, text), name)
      decreases |rest|
    {
      assert rest[1..][1..] == rest[2..] && IsTree(rest[1..][0]);
      assert DefsOf(rest, text)[1..] == DefsOf(rest[2..], text);
      if text(argp.nextp.value) == name {
        d := Some(rest[0]);
        return;
      }
      argp := argp.nextp.nextp;
      rest := rest[2..];
    }
    d := None;
  }

  /**
   * RDB_resolve_exprnames: variable nodes become copies of the expressions that the list at texp gives them;
   * the copies are not searched again. The definitions stay as they are and share no node with the result.
   */
  method ResolveExprnames(e: Node, ghost s: Shape, texp: Node?, ghost ds: seq<Shape>, text: nat -> Name)
      returns (r: Node, ghost t: Shape)
    requires IsTree(s) && s.node == e && Separate(s)
    requires IsList(ds, texp, null) && AreDefs(ds) && ListNodes(ds) !! Nodes(s)
    modifies Inner(s), e`firstp, e`lastp
    ensures IsTree(t) && t.node == r && Separate(t) && (forall x :: x in Nodes(t) ==> x in Nodes(s) || fresh(x))
    ensures IsList(ds, texp, null) && Nodes(t) !! ListNodes(ds)
    ensures Value(t) == ResolveNames(Value(s), DefsOf(ds, text))
    ensures r.nextp == old(e.nextp)
    decreases s, 1
  {
    hide Values, ResolveArgs, AreDefs, DefsOf, FindDef;
    r, t := e, s;
    assert allocated(ListNodes(ds));
    match e.kind {
      case RO_OP =>
        var argp := e.firstp;
        e.firstp := null;
        ghost var args := ResolveExprnamesArgs(e, argp, s.args, texp, ds, text);
        ResolveOp(s.opname, s.scoping, Values(s.args), DefsOf(ds, text));
        t := Branch(e, s.opname, args, s.scoping);
      case OBJ =>
      case TBP =>
      case VAR =>
        var argp;
        ghost var d;
        argp, d := FindDefNode(texp, ds, e.name, text);
        if argp != null {
          r, t := DupExpr(argp, d.value);
          r.nextp := e.nextp;
        }
    }
  }

  method ResolveExprnamesArgs(e: Node, first: Node?, ghost args: seq<Shape>, texp: Node?, ghost ds: seq<Shape>,
                              text: nat -> Name)
      returns (ghost done: seq<Shape>)
    requires IsList(args, first, null) && ListSeparate(args) && HasArgs(e, []) && e !in ListNodes(args)
    requires IsList(ds, texp, null) && AreDefs(ds) && ListNodes(ds) !! ListNodes(args) && e !in ListNodes(ds)
    modifies e`firstp, e`lastp, ListNodes(args)
    ensures HasArgs(e, done) && forall x :: x in ListNodes(done) ==> x in ListNodes(args) || fresh(x)
    ensures Values(done) == ResolveArgs(Values(args), DefsOf(ds, text))
    decreases args, 0
  {
    hide Value, Values, Separate, Nodes, Inner, IsTree, HasArgs, Last, ResolveArgs, ResolveNames, AreDefs, DefsOf;
    ghost var defs := DefsOf(ds, text);
    assert allocated(ListNodes(args)) && allocated(ListNodes(ds));
    var argp := first;
    done := [];
    ghost var i := 0;
    while argp != null
      invariant i <= |args| && IsList(args[i..], argp, null) && ListSeparate(args[i..])
      invariant ListNodes(args[i..]) <= ListNodes(args) && ListNodes(done) !! ListNodes(args[i..])
      invariant HasArgs(e, done) && forall x :: x in ListNodes(done) ==> x in ListNodes(args) || fresh(x)
      invariant IsList(ds, texp, null)
      invariant Values(done) + ResolveArgs(Values(args[i..]), defs) == ResolveArgs(Values(args), defs)
      decreases |args| - i
    {
      assert args[i..][1..] == args[i + 1..];
      ResolveStep(Values(done), args, i, defs);
      assert allocated(ListNodes(args[i..]));
      var nextp := argp.nextp;
      ghost var d := ResolveExprnamesArg(e, argp, done, args[i], texp, ds, text);
      argp := nextp;
      done, i := done + [d], i + 1;
    }
  }

  method ResolveExprnamesArg(e: Node, argp: Node, ghost done: seq<Shape>, ghost s: Shape,
                             texp: Node?, ghost ds: seq<Shape>, text: nat -> Name)
      returns (ghost d: Shape)
    requires IsTree(s) && s.node == argp && Separate(s) && HasArgs(e, done)
    requires ListNodes(done) !! Nodes(s) && e !in Nodes(s)
    requires IsList(ds, texp, null) && AreDefs(ds) && ListNodes(ds) !! Nodes(s)
    modifies e`firstp, e`lastp, ListNodes(done)`nextp, Nodes(s)
    ensures HasArgs(e, done + [d]) && ListNodes(done + [d]) == ListNodes(done) + Nodes(d)
    ensures forall x :: x in Nodes(d) ==> x in Nodes(s) || fresh(x)
    ensures Values(done + [d]) == Values(done) + [ResolveNames(Value(s), DefsOf(ds, text))]
    decreases s, 2
  {
    hide Value, Values, Separate, ListSeparate, Nodes, Inner, IsTree, IsList, ResolveNames, AreDefs, DefsOf;
    assert allocated(ListNodes(done)) && allocated(ListNodes(ds));
    var r;
    r, d := ResolveExprnames(argp, s, texp, ds, text);
    AddArg(e, r, done, d);
  }

  lemma ResolveStep(vs: seq<Expr>, ss: seq<Shape>, i: nat, defs: seq<Def>)
    requires i < |ss|
    ensures vs + ResolveArgs(Values(ss[i..]), defs) ==
            (vs + [ResolveNames(Value(ss[i]), defs)]) + ResolveArgs(Values(ss[i + 1..]), defs)
  {
    assert ss[i..][1..] == ss[i + 1..];
    assert Values(ss[i..])[1..] == Values(ss[i + 1..]);
  }

  // ----- Inverse renaming -----

  /** Pairs of nodes with the old and the new name of an attribute. */
  ghost predicate ArePairs(ps: seq<Shape>) {
    ps == [] ||
    (|ps| >= 2 && ps[0].Leaf? && ps[0].exp.Obj? && ps[1].Leaf? && ps[1].exp.Obj? && ArePairs(ps[2..]))
  }

  ghost function PairsOf(ps: seq<Shape>, text: nat -> Name): seq<Renaming>
    requires ArePairs(ps)
  {
    if ps == [] then [] else [Renaming(text(ps[0].exp.value), text(ps[1].exp.value))] + PairsOf(ps[2..], text)
  }

  /** The search in RDB_invrename_expr: the old name of the first pair with this new name. */
  method FindOldName(first: Node?, ghost ps: seq<Shape>, name: Name, text: nat -> Name) returns (from: Name)
    requires IsList(ps, first, null) && ArePairs(ps)
    ensures from == OldName(PairsOf(ps, text), name)
  {
    hide Value, Nodes, Inner;
    var argp := first;
    ghost var rest := ps;
    while argp != null
      invariant IsList(rest, argp, null) && ArePairs(rest)
      invariant OldName(PairsOf(rest, text), name) == OldName(PairsOf(ps, text), name)
      decreases |rest|
    {
      assert rest[1..][1..] == rest[2..] && IsTree(rest[0]) && IsTree(rest[1..][0]);
      assert PairsOf(rest, text)[1..] == PairsOf(rest[2..], text);
      var toargp := argp.nextp;
      if text(toargp.value) == name {
        return text(argp.value);
      }
      argp := toargp.nextp;
      rest := rest[2..];
    }
    return name;
  }

  /** RDB_invrename_expr: only the names in the nodes change; pairs is the list of old and new names. */
  method InvRenameExpr(e: Node, ghost s: Shape, pairs: Node?, ghost ps: seq<Shape>, text: nat -> Name)
      returns (ghost t: Shape)
    requires IsTree(s) && s.node == e && Separate(s)
    requires IsList(ps, pairs, null) && ArePairs(ps) && ListNodes(ps) !! Nodes(s)
    modifies Nodes(s)`name
    ensures IsTree(t) && t.node == e && Nodes(t) == Nodes(s) && Separate(t)
    ensures Value(t) == InvRename(Value(s), PairsOf(ps, text))
    decreases s, 1
  {
    hide Values, ArePairs, PairsOf, OldName, InvRenameArgs;
    t := s;
    match e.kind {
      case RO_OP =>
        ghost var args := InvRenameArgNodes(e, s.args, pairs, ps, text);
        InvRenameOp(s.opname, s.scoping, Values(s.args), PairsOf(ps, text));
        t := Branch(e, s.opname, args, s.scoping);
      case OBJ =>
      case TBP =>
      case VAR =>
        e.name := FindOldName(pairs, ps, e.name, text);
        t := Leaf(e, Var(e.name));
    }
  }

  method InvRenameArgNodes(e: Node, ghost args: seq<Shape>, pairs: Node?, ghost ps: seq<Shape>, text: nat -> Name)
      returns (ghost done: seq<Shape>)
    requires IsList(args, e.firstp, null) && ListSeparate(args) && e !in ListNodes(args)
    requires IsList(ps, pairs, null) && ArePairs(ps) && ListNodes(ps) !! ListNodes(args)
    modifies ListNodes(args)`name
    ensures IsList(done, e.firstp, null) && ListSeparate(done) && ListNodes(done) == ListNodes(args)
    ensures |done| == |args| && (args != [] ==> Last(done) == Last(args))
    ensures Values(done) == InvRenameArgs(Values(args), PairsOf(ps, text))
    decreases args, 0
  {
    hide Value, Values, Separate, Nodes, Inner, IsTree, InvRename, InvRenameArgs, ArePairs, PairsOf;
    ghost var renv := PairsOf(ps, text);
    assert allocated(ListNodes(args)) && allocated(ListNodes(ps));
    var argp := e.firstp;
    done := [];
    ghost var i := 0;
    while argp != null
      invariant i <= |args| && IsList(args[i..], argp, null) && ListSeparate(args[i..])
      invariant ListNodes(done) + ListNodes(args[i..]) == ListNodes(args) && ListNodes(done) !! ListNodes(args[i..])
      invariant |done| == i && (i > 0 ==> Last(done) == args[i - 1].node)
      invariant IsList(done, e.firstp, argp) && ListSeparate(done)
      invariant IsList(ps, pairs, null)
      invariant Values(done) + InvRenameArgs(Values(args[i..]), renv) == InvRenameArgs(Values(args), renv)
      decreases |args| - i
    {
      assert args[i..][1..] == args[i + 1..];
      InvRenameStep(Values(done), args, i, renv);
      ghost var d := InvRenameArgNode(e.firstp, argp, done, args[i], pairs, ps, text);
      argp := argp.nextp;
      done, i := done + [d], i + 1;
    }
  }

  method InvRenameArgNode(first: Node?, argp: Node, ghost done: seq<Shape>, ghost s: Shape,
                          pairs: Node?, ghost ps: seq<Shape>, text: nat -> Name)
      returns (ghost d: Shape)
    requires IsTree(s) && s.node == argp && Separate(s)
    requires IsList(done, first, argp) && ListSeparate(done) && ListNodes(done) !! Nodes(s)
    requires IsList(ps, pairs, null) && ArePairs(ps) && ListNodes(ps) !! Nodes(s)
    modifies Nodes(s)`name
    ensures d.node == argp && ListNodes(done + [d]) == ListNodes(done) + Nodes(s)
    ensures IsList(done + [d], first, argp.nextp) && ListSeparate(done + [d])
    ensures Values(done + [d]) == Values(done) + [InvRename(Value(s), PairsOf(ps, text))]
    decreases s, 2
  {
    hide Value, Separate, Nodes, Inner, IsTree, InvRename, ArePairs, PairsOf;
    assert allocated(ListNodes(done));
    d := InvRenameExpr(argp, s, pairs, ps, text);
    ListAppended(done, [d], first, argp, argp.nextp);
    NodesOfAppended(done, [d]);
    ValuesOfAppended(done, [d]);
    SeparateAppended(done, [d]);
  }

  lemma InvRenameStep(vs: seq<Expr>, ss: seq<Shape>, i: nat, renv: seq<Renaming>)
    requires i < |ss|
    ensures vs + InvRenameArgs(Values(ss[i..]), renv) ==
            (vs + [InvRename(Value(ss[i]), renv)]) + InvRenameArgs(Values(ss[i + 1..]), renv)
  {
    assert ss[i..][1..] == ss[i + 1..];
    assert Values(ss[i..])[1..] == Values(ss[i + 1..]);
  }

  // ----- WITH -----

  ghost predicate AllTrees(ss: seq<Shape>)
    reads ListNodes(ss)
  {
    ss == [] || (IsTree(ss[0]) && AllTrees(ss[1..]))
  }

  ghost function Roots(ss: seq<Shape>): (r: seq<Node>)
    ensures |r| == |ss|
  {
    if ss == [] then [] else [ss[0].node] + Roots(ss[1..])
  }

  lemma {:induction false} TreesAppended(ss: seq<Shape>, s: Shape)
    ensures AllTrees(ss + [s]) <==> AllTrees(ss) && IsTree(s)
    ensures Roots(ss + [s]) == Roots(ss) + [s.node]
  {
    hide IsTree;
    if ss == [] {
      assert ss + [s] == [s];
    } else {
      assert (ss + [s])[1..] == ss[1..] + [s];
      TreesAppended(ss[1..], s);
    }
  }

  /** An intro with name varname and expression d is put into a later one, s; those in done are through. */
  method ResolveIntro(exps: array<Node>, j: nat, ghost s: Shape, varname: Name,
                      texp: Node, ghost d: Shape, ghost done: seq<Shape>)
      returns (ghost t: Shape)
    requires j < exps.Length && IsTree(s) && s.node == exps[j] && Separate(s)
    requires IsTree(d) && d.node == texp && Nodes(d) !! Nodes(s)
    requires AllTrees(done) && ListSeparate(done) && ListNodes(done) !! Nodes(s) && ListNodes(done) !! Nodes(d)
    modifies exps, Nodes(s)
    ensures exps[..] == old(exps[..])[j := t.node]
    ensures IsTree(d) && ListNodes(done + [t]) == ListNodes(done) + Nodes(t)
    ensures AllTrees(done + [t]) && ListSeparate(done + [t]) && Nodes(t) !! Nodes(d) &&
      Roots(done + [t]) == Roots(done) + [t.node]
    ensures forall x :: x in Nodes(t) ==> x in Nodes(s) || fresh(x)
    ensures Values(done + [t]) == Values(done) + [Subst(Value(s), map[varname := Value(d)])]
  {
    hide Value, Separate, Nodes, Inner, IsTree, Subst;
    assert allocated(ListNodes(done)) && allocated(Nodes(d));
    var r;
    r, t := ResolveVarname(exps[j], s, varname, texp, d);
    exps[j] := r;
    NodesOfAppended(done, [t]);
    SeparateAppended(done, [t]);
    ValuesOfAppended(done, [t]);
    TreesAppended(done, t);
  }

  /** The inner loop of with_node_expr. */
  method ResolveLaterIntros(exps: array<Node>, i: nat, varname: Name, ghost d: Shape, ghost rest: seq<Shape>)
      returns (ghost done: seq<Shape>)
    requires i < exps.Length && exps[i] == d.node && exps[i + 1..] == Roots(rest)
    requires IsTree(d) && AllTrees(rest) && ListSeparate(rest) && Nodes(d) !! ListNodes(rest)
    modifies exps, ListNodes(rest)
    ensures exps[i] == d.node && exps[i + 1..] == Roots(done)
    ensures IsTree(d) && AllTrees(done) && ListSeparate(done) && Nodes(d) !! ListNodes(done)
    ensures forall x :: x in ListNodes(done) ==> x in ListNodes(rest) || fresh(x)
    ensures Values(done) == SubstArgs(Values(rest), map[varname := Value(d)])
  {
    hide Value, Values, Separate, Nodes, Inner, IsTree, Subst, SubstArgs;
    ghost var s := map[varname := Value(d)];
    assert allocated(ListNodes(rest)) && allocated(Nodes(d));
    done := [];
    ghost var k := 0;
    var j := i + 1;
    while j < exps.Length
      invariant i < j == i + 1 + k && k <= |rest| && exps[i] == d.node
      invariant exps[i + 1..j] == Roots(done) && exps[j..] == Roots(rest[k..])
      invariant IsTree(d) && AllTrees(done) && ListSeparate(done) && Nodes(d) !! ListNodes(done)
      invariant AllTrees(rest[k..]) && ListSeparate(rest[k..]) && ListNodes(rest[k..]) <= ListNodes(rest)
      invariant ListNodes(done) !! ListNodes(rest[k..])
      invariant forall x :: x in ListNodes(done) ==> x in ListNodes(rest) || fresh(x)
      invariant Values(done) + SubstArgs(Values(rest[k..]), s) == SubstArgs(Values(rest), s)
      decreases exps.Length - j
    {
      assert rest[k..][1..] == rest[k + 1..];
      SubstStep(Values(done), rest, k, s);
      assert allocated(ListNodes(rest[k..])) && allocated(ListNodes(done));
      ghost var was := exps[..];
      ghost var t := ResolveIntro(exps, j, rest[k], varname, exps[i], d, done);
      RootsMove(was, exps[..], i + 1, j, done, rest[k..], t);
      done, k, j := done + [t], k + 1, j + 1;
    }
  }

  lemma RootsMove(was: seq<Node>, now: seq<Node>, i: nat, j: nat, done: seq<Shape>, rest: seq<Shape>, t: Shape)
    requires i <= j < |was| && now == was[j := t.node] && was[i..j] == Roots(done) && was[j..] == Roots(rest)
    ensures now[i..j + 1] == Roots(done) + [t.node] && rest != [] && now[j + 1..] == Roots(rest[1..])
  {
    assert now[i..j + 1] == was[i..j] + [t.node] && now[j + 1..] == was[j..][1..];
  }

  /** Intros with these names and expressions. */
  function Intros(names: seq<Name>, exps: seq<Expr>): (r: seq<Def>)
    requires |names| == |exps|
    ensures |r| == |names| && forall i :: 0 <= i < |r| ==> r[i] == Def(names[i], exps[i])
  {
    if names == [] then [] else [Def(names[0], exps[0])] + Intros(names[1..], exps[1..])
  }

  lemma ExpandStep(names: seq<Name>, e: Expr, es: seq<Expr>, body: Expr)
    requires |names| == |es| + 1
    ensures var s := map[names[0] := e];
      Expand(Intros(names, [e] + es), body) == Expand(Intros(names[1..], SubstArgs(es, s)), Subst(body, s))
  {
    var s := map[names[0] := e];
    assert SubstDefs(Intros(names, [e] + es)[1..], s) == Intros(names[1..], SubstArgs(es, s));
  }

  /**
   * with_node_expr: the expressions of the intros are rewritten in place, the body is copied first. The result
   * is the expansion, and all its nodes are new.
   */
  method WithNodeExpr(names: seq<Name>, exps: array<Node>, ghost ss: seq<Shape>, body: Node, ghost bs: Shape)
      returns (exp: Node, ghost t: Shape)
    requires |names| == exps.Length == |ss| && exps[..] == Roots(ss) && AllTrees(ss) && ListSeparate(ss)
    requires IsTree(bs) && bs.node == body
    modifies exps, ListNodes(ss)
    ensures IsTree(t) && t.node == exp && Separate(t) && fresh(Nodes(t))
    ensures Value(t) == Expand(Intros(names, Values(ss)), Value(bs))
  {
    hide Value, Separate, Nodes, Inner, IsTree, Subst, SubstArgs, Expand, Intros;
    assert allocated(ListNodes(ss));
    exp, t := DupExpr(body, bs);
    ghost var rest := ss;
    var i := 0;
    while i < exps.Length
      invariant 0 <= i <= exps.Length && |rest| == exps.Length - i && exps[i..] == Roots(rest)
      invariant AllTrees(rest) && ListSeparate(rest) &&
        forall x :: x in ListNodes(rest) ==> x in ListNodes(ss) || fresh(x)
      invariant IsTree(t) && t.node == exp && Separate(t) && fresh(Nodes(t)) && Nodes(t) !! ListNodes(rest)
      invariant Expand(Intros(names[i..], Values(rest)), Value(t)) == Expand(Intros(names, Values(ss)), Value(bs))
    {
      IntroStep(names, i, rest, Value(t));
      exp, t, rest := ResolveIntroEverywhere(exps, i, names[i], rest, exp, t);
      i := i + 1;
    }
    assert rest == [] && names[i..] == [];
    ExpandNone(Value(t));
  }

  lemma IntroStep(names: seq<Name>, i: nat, rest: seq<Shape>, body: Expr)
    requires |names| == i + |rest| && rest != []
    ensures var s := map[names[i] := Value(rest[0])];
      Expand(Intros(names[i..], Values(rest)), body) ==
      Expand(Intros(names[i + 1..], SubstArgs(Values(rest[1..]), s)), Subst(body, s))
  {
    hide Value, Expand, Intros, SubstArgs;
    ExpandStep(names[i..], Value(rest[0]), Values(rest[1..]), body);
    assert names[i..][1..] == names[i + 1..];
  }

  /** An iteration of the outer loop of with_node_expr. */
  method ResolveIntroEverywhere(exps: array<Node>, i: nat, varname: Name, ghost rest: seq<Shape>,
                                exp: Node, ghost t: Shape)
      returns (exp': Node, ghost t': Shape, ghost done: seq<Shape>)
    requires i < exps.Length && exps[i..] == Roots(rest) && AllTrees(rest) && ListSeparate(rest)
    requires IsTree(t) && t.node == exp && Separate(t) && Nodes(t) !! ListNodes(rest)
    modifies exps, ListNodes(rest), Nodes(t)
    ensures exps[i + 1..] == Roots(done) && AllTrees(done) && ListSeparate(done)
    ensures forall x :: x in ListNodes(done) ==> x in ListNodes(rest) || fresh(x)
    ensures IsTree(t') && t'.node == exp' && Separate(t') && Nodes(t') !! ListNodes(done)
    ensures forall x :: x in Nodes(t') ==> x in Nodes(t) || fresh(x)
    ensures rest != [] && Values(done) == SubstArgs(Values(rest[1..]), map[varname := Value(rest[0])])
    ensures Value(t') == Subst(Value(t), map[varname := Value(rest[0])])
  {
    hide Value, Values, Separate, Nodes, Inner, IsTree, Subst, SubstArgs;
    assert exps[i..][1..] == exps[i + 1..];
    assert allocated(Nodes(t)) && allocated(ListNodes(rest));
    done := ResolveLaterIntros(exps, i, varname, rest[0], rest[1..]);
    assert allocated(ListNodes(done));
    exp', t' := ResolveVarname(exp, t, varname, exps[i], rest[0]);
  }

  lemma ExpandNone(body: Expr)
    ensures Expand(Intros([], []), body) == body
  {}
}
