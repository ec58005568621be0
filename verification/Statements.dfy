/**
 * What the statements of the interpreter do (dli/interp_stmt.c, dli/interp_core.c). Expressions and the
 * operations of the database are those of a machine: they depend on the visible variables, on the database as
 * the innermost transaction sees it and on the time, so that an operation may fail now and succeed later.
 */
module Statements {
  import opened ByteStrings
  import opened Options
  import opened TxStack

  type Exp = nat

  const MAX_INT := 0x7fff_ffff

  datatype Value = Int(i: int) | Bool(b: bool) | ErrorVal(typ: ErrorType) | Other(othertyp: nat, repr: nat)

  predicate SameType(v: Value, w: Value) {
    (v.Int? && w.Int?) || (v.Bool? && w.Bool?) || (v.ErrorVal? && w.ErrorVal? && v.typ == w.typ) ||
    (v.Other? && w.Other? && v.othertyp == w.othertyp)
  }

  datatype ErrorType =
    | NameError | TypeMismatch | InvalidArgument | SyntaxError | ElementExists | OperatorNotFound | NotSupported
    | NoRunningTx | InUse | NotFound | SystemError | InternalError | UserError(no: nat)

  /** The transactions that an operation has rolled back as it failed; a deadlock ends all of them. */
  datatype Ends = EndsNone | EndsOwn | EndsAll

  /** A retryable error resets the transaction. */
  datatype Error = Error(typ: ErrorType, retryable: bool, ends: Ends)

  // ----- Programs -----

  datatype Stmt =
    | Skip
    | Block(body: seq<Stmt>)
    | If(cond: Exp, body: seq<Stmt>, els: seq<Stmt>)
    | Case(whens: seq<When>, els: seq<Stmt>)
    | While(lab: Option<Name>, cond: Exp, body: seq<Stmt>)
    | For(lab: Option<Name>, name: Name, first: Exp, last: Exp, body: seq<Stmt>)
    | Foreach(lab: Option<Name>, name: Name, table: Exp, body: seq<Stmt>)
    | Leave(target: Option<Name>)
    | Return(exp: Option<Exp>)
    | Raise(error: ErrorType)
    | Try(body: seq<Stmt>, catches: seq<Catch>)
    | VarDef(name: Name, init: Exp, fixed: bool)
    | VarDrop(name: Name)
    | Assign(name: Name, value: Exp)
    | AssignOp(name: Name, op: Name, exps: seq<Exp>)
    | Call(op: Name, args: seq<Arg>)
    | Update(update: Exp)
    | BeginTx
    | CommitTx
    | RollbackTx

  datatype When = When(cond: Exp, body: seq<Stmt>)
  datatype Catch = Catch(name: Name, typ: Option<ErrorType>, body: seq<Stmt>)
  datatype Arg = VarArg(name: Name) | ExpArg(exp: Exp)

  datatype Param = Param(name: Name, update: bool)
  datatype Operator = Operator(params: seq<Param>, readOnly: bool, body: seq<Stmt>)

  datatype Machine = Machine(
    eval: (Exp, map<Name, Value>, Option<Db>, nat) -> Result<Value, Error>,
    rows: (Exp, map<Name, Value>, Option<Db>, nat) -> Result<seq<Value>, Error>,
    fetch: nat -> Option<Error>,
    update: (Exp, map<Name, Value>, Db, nat) -> Result<Db, Error>,
    drop: (Name, Db, nat) -> Result<Db, Error>,
    begin: nat -> Option<Error>,
    commit: nat -> Option<Error>,
    rollback: nat -> Option<Error>,
    interrupted: nat -> bool,
    hasDb: bool,
    ops: map<Name, Operator>,
    qualify: (Name, Name) -> Name)

  // ----- States -----

  datatype Entry = Entry(loc: nat, fixed: bool)

  type Scope = map<Name, Entry>

  /**
   * scopes are the local variables, the innermost scope first; store has the values at the locations; foreachs
   * are the tuples that the running FOREACH loops still have to visit, the innermost loop first.
   */
  datatype State = State(
    scopes: seq<Scope>,
    root: Scope,
    store: seq<Value>,
    foreachs: seq<seq<Value>>,
    leave: Option<Name>,
    ret: Value,
    err: Option<Error>,
    retryable: bool,
    innerOp: Option<Name>,
    tx: TxState,
    log: seq<Event>,
    clock: nat)

  datatype Why = NullTarget | NullError | Overflow | WrongType

  /** UNDEFINED is undefined behaviour, SPENT means that the fuel did not suffice. */
  datatype Outcome = OK | ERROR | RETURN | LEAVE | UNDEFINED(why: Why) | SPENT

  datatype Res = Res(out: Outcome, st: State)

  // ----- Variables -----

  function Lookup(scopes: seq<Scope>, root: Scope, name: Name): Option<Entry> {
    if scopes == [] then if name in root then Some(root[name]) else None
    else if name in scopes[0] then Some(scopes[0][name])
    else Lookup(scopes[1..], root, name)
  }

  function Find(st: State, name: Name): Option<Entry> {
    Lookup(st.scopes, st.root, name)
  }

  function ValueAt(store: seq<Value>, loc: nat): Value {
    if loc < |store| then store[loc] else Bool(false)
  }

  function Values(s: Scope, store: seq<Value>): map<Name, Value> {
    map n | n in s :: ValueAt(store, s[n].loc)
  }

  /** The variables that an expression can see, inner ones hiding outer ones. */
  function Visible(scopes: seq<Scope>, root: Scope, store: seq<Value>): map<Name, Value> {
    if scopes == [] then Values(root, store)
    else Visible(scopes[1..], root, store) + Values(scopes[0], store)
  }

  function Env(st: State): map<Name, Value> {
    Visible(st.scopes, st.root, st.store)
  }

  function Set(st: State, loc: nat, v: Value): State {
    if loc < |st.store| then st.(store := st.store[loc := v]) else st
  }

  function Alloc(st: State, v: Value): State {
    st.(store := st.store + [v])
  }

  function Enter(st: State, s: Scope): State {
    st.(scopes := [s] + st.scopes)
  }

  function Exit(st: State): State {
    if st.scopes == [] then st else st.(scopes := st.scopes[1..])
  }

  function Exited(r: Res): Res {
    Res(r.out, Exit(r.st))
  }

  /** Defines a variable in the current scope. */
  function Define(st: State, name: Name, e: Entry): State {
    if st.scopes == [] then st.(root := st.root[name := e])
    else st.(scopes := [st.scopes[0][name := e]] + st.scopes[1..])
  }

  // ----- Errors -----

  function Fail(st: State, typ: ErrorType): Res {
    Res(ERROR, st.(err := Some(Error(typ, false, EndsNone))))
  }

  function Do(st: State, e: Event): State {
    st.(tx := Step(st.tx, e), log := st.log + [e])
  }

  function Tick(st: State): State {
    st.(clock := st.clock + 1)
  }

  predicate Running(t: TxState) {
    t.stack != [] && t.stack[0].running
  }

  /** The database that the innermost transaction sees, if it is running. */
  function View(st: State): Option<Db> {
    if Running(st.tx) then Some(st.tx.stack[0].view) else None
  }

  /** An operation of the database fails. Only with a transaction an error can be retryable. */
  function DbFail(st: State, e: Error): State {
    if !Running(st.tx) then st.(err := Some(Error(e.typ, false, EndsNone)))
    else if e.ends.EndsAll? then Do(st, AbortAll).(err := Some(e))
    else if e.ends.EndsOwn? then Do(st, Abort).(err := Some(e))
    else if e.retryable then Do(st, Reset).(err := Some(e))
    else st.(err := Some(e))
  }

  // ----- Expressions -----

  datatype Eval = Eval(val: Option<Value>, st: State)

  function Evaluate(m: Machine, e: Exp, st: State): Eval {
    match m.eval(e, Env(st), View(st), st.clock)
    case Ok(v) => Eval(Some(v), Tick(st))
    case Err(er) => Eval(None, DbFail(Tick(st), er))
  }

  function EvalBool(m: Machine, e: Exp, st: State): (r: Eval)
    ensures r.val.Some? ==> r.val.value.Bool?
  {
    var v := Evaluate(m, e, st);
    if v.val.Some? && !v.val.value.Bool? then Eval(None, Fail(v.st, TypeMismatch).st) else v
  }

  function EvalInt(m: Machine, e: Exp, st: State): (r: Eval)
    ensures r.val.Some? ==> r.val.value.Int?
  {
    var v := Evaluate(m, e, st);
    if v.val.Some? && !v.val.value.Int? then Eval(None, Fail(v.st, TypeMismatch).st) else v
  }

  // ----- Transactions -----

  function ExecBegin(m: Machine, st: State): Res {
    if !m.hasDb then Fail(st, NotFound)
    else if st.tx.stack != [] && !Running(st.tx) then Fail(st, NoRunningTx)
    else match m.begin(st.clock)
      case Some(e) => Fail(Tick(st), e.typ)
      case None => Res(OK, Do(Tick(st), Begin))
  }

  function ExecCommit(m: Machine, st: State): Res {
    if st.tx.stack == [] then Fail(st, NoRunningTx)
    else if st.foreachs != [] then Fail(st, InUse)
    else if !Running(st.tx) then Fail(Do(st, Event.Pop), NoRunningTx)
    else match m.commit(st.clock)
      case None => Res(OK, Do(Tick(st), Commit))
      case Some(e) => CommitFailed(DbFail(Tick(st), e), e)
  }

  /** If the commit failed but can be repeated, the transaction is kept. */
  function CommitFailed(st: State, e: Error): Res {
    if e.retryable then Res(ERROR, st) else Res(ERROR, Do(st, Event.Pop))
  }

  function ExecRollback(m: Machine, st: State): Res {
    if st.tx.stack == [] then Fail(st, NoRunningTx)
    else if st.foreachs != [] then Fail(st, InUse)
    else if !Running(st.tx) then Res(OK, Do(st, Event.Pop))
    else match m.rollback(st.clock)
      case Some(e) => Fail(Tick(st), e.typ)
      case None => Res(OK, Do(Tick(st), Event.Pop))
  }

  // ----- Simple statements -----

  function ExecVarDef(m: Machine, name: Name, init: Exp, fixed: bool, st: State): Res {
    if name in (if st.scopes == [] then st.root else st.scopes[0]) then Fail(st, ElementExists)
    else
      var v := Evaluate(m, init, st);
      if v.val.None? then Res(ERROR, v.st)
      else Res(OK, Define(Alloc(v.st, v.val.value), name, Entry(|v.st.store|, fixed)))
  }

  function ExecVarDrop(m: Machine, name: Name, st: State): Res {
    if st.foreachs != [] then Fail(st, NotSupported)
    else if st.scopes != [] && name in st.scopes[0] && !st.scopes[0][name].fixed then
      Res(OK, st.(scopes := [st.scopes[0] - {name}] + st.scopes[1..]))
    else if (st.scopes == [] || name !in st.scopes[0]) && name in st.root && !st.root[name].fixed then
      Res(OK, st.(root := st.root - {name}))
    else if st.tx.stack == [] then Fail(st, NameError)
    else if !Running(st.tx) then Fail(st, NoRunningTx)
    else match m.drop(name, st.tx.stack[0].view, st.clock)
      case Ok(d) => Res(OK, Do(Tick(st), Write(d)))
      case Err(e) => Res(ERROR, DbFail(Tick(st), e))
  }

  /** Stores a value in a variable, but not in a constant. */
  function Store(st: State, name: Name, v: Value): Res {
    match Find(st, name)
    case None => Fail(st, NameError)
    case Some(e) =>
      if e.fixed then Fail(st, NameError)
      else if !SameType(ValueAt(st.store, e.loc), v) then Fail(st, TypeMismatch)
      else Res(OK, Set(st, e.loc, v))
  }

  function ExecAssign(m: Machine, name: Name, exp: Exp, st: State): Res {
    var v := Evaluate(m, exp, st);
    if v.val.None? then Res(ERROR, v.st) else Store(v.st, name, v.val.value)
  }

  function ExecUpdate(m: Machine, u: Exp, st: State): Res {
    if View(st).None? then Fail(st, NoRunningTx)
    else match m.update(u, Env(st), View(st).value, st.clock)
      case Ok(d) => Res(OK, Do(Tick(st), Write(d)))
      case Err(e) => Res(ERROR, DbFail(Tick(st), e))
  }

  function ExecReturn(m: Machine, exp: Option<Exp>, ro: bool, st: State): Res {
    match exp
    case None => if ro then Fail(st, InvalidArgument) else Res(RETURN, st)
    case Some(e) =>
      if !ro then Fail(st, SyntaxError)
      else
        var v := Evaluate(m, e, st);
        if v.val.None? then Res(ERROR, v.st) else Res(RETURN, v.st.(ret := v.val.value))
  }

  // ----- Control flow -----

  /** The end of a WHILE or FOR loop with this label when its body was left. */
  function LeaveLoop(lab: Option<Name>, r: Res): Res {
    if r.out != LEAVE then r
    else if lab.Some? && r.st.leave.None? then Res(UNDEFINED(NullTarget), r.st)
    else if lab == r.st.leave then Res(OK, r.st)
    else r
  }

  /** Each iteration and each operator call takes one unit of fuel. ro: inside a read-only operator. */
  function ExecStmts(m: Machine, ss: seq<Stmt>, ro: bool, st: State, fuel: nat): Res
    decreases fuel, 1, ss, 0
  {
    if ss == [] then Res(OK, st)
    else
      var r := Exec(m, ss[0], ro, st, fuel);
      if r.out != OK then r else ExecStmts(m, ss[1..], ro, r.st, fuel)
  }

  function Exec(m: Machine, s: Stmt, ro: bool, st: State, fuel: nat): Res
    decreases fuel, 1, s, 2
  {
    match s
    case Skip => Res(OK, st)
    case Block(body) => ExecStmts(m, body, ro, st, fuel)
    case If(cond, body, els) =>
      var c := EvalBool(m, cond, st);
      if c.val.None? then Res(ERROR, c.st)
      else if c.val.value.b then Exited(ExecStmts(m, body, ro, Enter(c.st, map[]), fuel))
      else Exited(ExecStmts(m, els, ro, Enter(c.st, map[]), fuel))
    case Case(whens, els) => ExecCase(m, s, 0, ro, st, fuel)
    case While(lab, cond, body) => ExecWhile(m, lab, cond, body, ro, st, fuel)
    case For(lab, name, first, last, body) => ExecFor(m, s, ro, st, fuel)
    case Foreach(lab, name, table, body) => ExecForeach(m, s, ro, st, fuel)
    case Leave(target) => Res(LEAVE, st.(leave := target))
    case Return(exp) => ExecReturn(m, exp, ro, st)
    case Raise(typ) => Fail(st, typ)
    case Try(body, catches) =>
      var r := Exited(ExecStmts(m, body, ro, Enter(st, map[]), fuel));
      if r.out != ERROR then r
      else if r.st.err.None? then Res(UNDEFINED(NullError), r.st)
      else ExecCatches(m, catches, ro, r.st, fuel)
    case VarDef(name, init, fixed) => ExecVarDef(m, name, init, fixed, st)
    case VarDrop(name) => ExecVarDrop(m, name, st)
    case Assign(name, exp) => ExecAssign(m, name, exp, st)
    case AssignOp(name, op, exps) => ExecAssignOp(m, name, op, exps, st, fuel)
    case Call(op, args) => ExecCall(m, op, args, st, fuel)
    case Update(u) => ExecUpdate(m, u, st)
    case BeginTx => ExecBegin(m, st)
    case CommitTx => ExecCommit(m, st)
    case RollbackTx => ExecRollback(m, st)
  }

  /** The WHEN branches from the i-th on. */
  function ExecCase(m: Machine, s: Stmt, i: nat, ro: bool, st: State, fuel: nat): Res
    requires s.Case? && i <= |s.whens|
    decreases fuel, 1, s, 1, |s.whens| - i
  {
    if i == |s.whens| then Exited(ExecStmts(m, s.els, ro, Enter(st, map[]), fuel))
    else
      var c := EvalBool(m, s.whens[i].cond, st);
      if c.val.None? then Res(ERROR, c.st)
      else if c.val.value.b then Exited(ExecStmts(m, s.whens[i].body, ro, Enter(c.st, map[]), fuel))
      else ExecCase(m, s, i + 1, ro, c.st, fuel)
  }

  function ExecWhile(m: Machine, lab: Option<Name>, cond: Exp, body: seq<Stmt>, ro: bool, st: State, fuel: nat): Res
    decreases fuel, 1, body, 0
  {
    if fuel == 0 then Res(SPENT, st)
    else
      var c := EvalBool(m, cond, st);
      if c.val.None? then Res(ERROR, c.st)
      else if !c.val.value.b then Res(OK, c.st)
      else
        var r := ExecStmts(m, body, ro, Enter(c.st, map[]), fuel - 1);
        if r.out != OK then Exited(LeaveLoop(lab, r))
        else
          var st' := Exit(r.st);
          if m.interrupted(st'.clock) then Fail(st', SystemError)
          else ExecWhile(m, lab, cond, body, ro, st', fuel - 1)
  }

  function ExecFor(m: Machine, s: Stmt, ro: bool, st: State, fuel: nat): Res
    requires s.For?
    decreases fuel, 1, s, 1
  {
    match Find(st, s.name)
    case None => Fail(st, NameError)
    case Some(e) =>
      if !ValueAt(st.store, e.loc).Int? then Fail(st, TypeMismatch)
      else
        var v := Evaluate(m, s.first, st);
        if v.val.None? then Res(ERROR, v.st)
        else
          var w := EvalInt(m, s.last, Set(v.st, e.loc, v.val.value));
          if w.val.None? then Res(ERROR, w.st)
          else ForLoop(m, s.lab, s.name, e.loc, w.val.value.i, s.body, ro, w.st, fuel)
  }

  function ForLoop(m: Machine, lab: Option<Name>, name: Name, loc: nat, last: int, body: seq<Stmt>, ro: bool, st: State,
                   fuel: nat): Res
    decreases fuel, 1, body, 0
  {
    if fuel == 0 then Res(SPENT, st)
    else if !ValueAt(st.store, loc).Int? then Res(UNDEFINED(WrongType), st)
    else if ValueAt(st.store, loc).i > last then Res(OK, st)
    else
      var r := ExecStmts(m, body, ro, Enter(st, map[]), fuel - 1);
      if r.out != OK then Exited(LeaveLoop(lab, r))
      else ForNext(m, lab, name, last, body, ro, Exit(r.st), fuel - 1)
  }

  /** The end of an iteration: the variable, which may have been dropped, is incremented. */
  function ForNext(m: Machine, lab: Option<Name>, name: Name, last: int, body: seq<Stmt>, ro: bool, st: State,
                   fuel: nat): Res
    decreases fuel, 1, body, 1
  {
    match Find(st, name)
    case None => Fail(st, NameError)
    case Some(e) =>
      if m.interrupted(st.clock) then Fail(st, SystemError)
      else match ValueAt(st.store, e.loc)
        case Int(i) =>
          if i == MAX_INT then Res(UNDEFINED(Overflow), st)
          else ForLoop(m, lab, name, e.loc, last, body, ro, Set(st, e.loc, Int(i + 1)), fuel)
        case _ => Res(UNDEFINED(WrongType), st)
  }

  function ExecForeach(m: Machine, s: Stmt, ro: bool, st: State, fuel: nat): Res
    requires s.Foreach?
    decreases fuel, 1, s, 1
  {
    match Find(st, s.name)
    case None => Fail(st, NameError)
    case Some(e) =>
      match m.rows(s.table, Env(st), View(st), st.clock)
      case Err(er) => Res(ERROR, DbFail(Tick(st), er))
      case Ok(rows) =>
        var r := ForeachLoop(m, s.lab, s.name, e.loc, s.body, ro, Tick(st).(foreachs := [rows] + st.foreachs), fuel);
        EndForeach(r)
  }

  /** Makes the previous FOREACH loop the current one. */
  function EndForeach(r: Res): Res {
    Res(r.out, if r.st.foreachs == [] then r.st else r.st.(foreachs := r.st.foreachs[1..]))
  }

  /**
   * Whatever ends the fetching of tuples ends the loop without an error. LEAVE with a target other than the
   * label ends it like LEAVE with the label; RETURN makes it fail without raising an error.
   */
  function ForeachLoop(m: Machine, lab: Option<Name>, name: Name, loc: nat, body: seq<Stmt>, ro: bool, st: State,
                       fuel: nat): Res
    decreases fuel, 1, body, 0
  {
    if fuel == 0 then Res(SPENT, st)
    else match m.fetch(st.clock)
      case Some(e) => Res(OK, DbFail(Tick(st), e).(err := None))
      case None =>
        if st.foreachs == [] || st.foreachs[0] == [] then Res(OK, Tick(st).(err := None))
        else
          var st1 := NextRow(st, loc);
          ForeachNext(m, lab, name, body, ro, Exited(ExecStmts(m, body, ro, Enter(st1, map[]), fuel - 1)), fuel - 1)
  }

  /** RDB_next_tuple: the next tuple goes into the variable. */
  function NextRow(st: State, loc: nat): State
    requires st.foreachs != [] && st.foreachs[0] != []
  {
    Set(Tick(st), loc, st.foreachs[0][0]).(foreachs := [st.foreachs[0][1..]] + st.foreachs[1..])
  }

  /** The end of an iteration. */
  function ForeachNext(m: Machine, lab: Option<Name>, name: Name, body: seq<Stmt>, ro: bool, r: Res, fuel: nat): Res
    decreases fuel, 1, body, 1
  {
    match r.out
    case LEAVE =>
      if lab.Some? && r.st.leave.None? then Res(UNDEFINED(NullTarget), r.st) else Res(OK, r.st.(err := None))
    case RETURN => Res(ERROR, r.st)
    case OK =>
      (match Find(r.st, name)
       case None => Fail(r.st, NameError)
       case Some(e) =>
         if m.interrupted(r.st.clock) then Fail(r.st, SystemError)
         else ForeachLoop(m, lab, name, e.loc, body, ro, r.st, fuel))
    case _ => r
  }

  /** The first CATCH for the type of the error handles it. */
  function ExecCatches(m: Machine, catches: seq<Catch>, ro: bool, st: State, fuel: nat): Res
    requires st.err.Some?
    decreases fuel, 1, catches, 0
  {
    if catches == [] then Res(ERROR, st)
    else if catches[0].typ.None? || catches[0].typ.value == st.err.value.typ then
      ExecCatch(m, catches[0], ro, st, fuel)
    else ExecCatches(m, catches[1..], ro, st, fuel)
  }

  function ExecCatch(m: Machine, c: Catch, ro: bool, st: State, fuel: nat): Res
    requires st.err.Some?
    decreases fuel, 1, c, 0
  {
    var st1 := Enter(Alloc(st, ErrorVal(st.err.value.typ)), map[c.name := Entry(|st.store|, false)]);
    Exited(ExecStmts(m, c.body, ro, st1.(retryable := st.err.value.retryable, err := None), fuel))
  }

  // ----- Operators -----

  /** An argument: the location of its value, and whether it is a variable, possibly a constant one. */
  datatype Ref = Ref(loc: nat, isVar: bool, fixed: bool)

  datatype Args = Args(refs: Option<seq<Ref>>, st: State)

  /** A value without a name. */
  function EvalTemp(m: Machine, e: Exp, st: State): Args {
    var v := Evaluate(m, e, st);
    if v.val.None? then Args(None, v.st) else Args(Some([Ref(|v.st.store|, false, false)]), Alloc(v.st, v.val.value))
  }

  function EvalArg(m: Machine, a: Arg, st: State): Args {
    match a
    case VarArg(n) =>
      (match Find(st, n)
       case None => Args(None, Fail(st, NameError).st)
       case Some(e) => Args(Some([Ref(e.loc, true, e.fixed)]), st))
    case ExpArg(e) => EvalTemp(m, e, st)
  }

  function EvalArgs(m: Machine, args: seq<Arg>, done: seq<Ref>, st: State): Args
    decreases |args|
  {
    if args == [] then Args(Some(done), st)
    else
      var a := EvalArg(m, args[0], st);
      if a.refs.None? then a else EvalArgs(m, args[1..], done + a.refs.value, a.st)
  }

  /** An operator of this name for this number of arguments. */
  predicate HasOp(m: Machine, name: Name, readOnly: bool, argc: nat) {
    name in m.ops && m.ops[name].readOnly == readOnly && |m.ops[name].params| == argc
  }

  /** The operator to call; inside an operator of a package, one of the package if there is no other. */
  function FindOp(m: Machine, name: Name, inner: Option<Name>, argc: nat): (r: Option<Name>)
    ensures r.Some? ==> HasOp(m, r.value, false, argc)
  {
    if HasOp(m, name, false, argc) then Some(name)
    else if inner.Some? && HasOp(m, m.qualify(inner.value, name), false, argc) then Some(m.qualify(inner.value, name))
    else None
  }

  /** The scope of an operator: the parameters, as names of the arguments. */
  function ParamScope(params: seq<Param>, refs: seq<Ref>): Scope
    requires |params| == |refs|
  {
    if params == [] then map[]
    else
      var p, r := params[|params| - 1], refs[|refs| - 1];
      ParamScope(params[..|params| - 1], refs[..|refs| - 1])[p.name := Entry(r.loc, !p.update)]
  }

  predicate BadUpdateArg(p: Param, r: Ref) {
    p.update && (!r.isVar || r.fixed)
  }

  predicate UpdateArgsOk(params: seq<Param>, refs: seq<Ref>)
    requires |params| == |refs|
  {
    forall i :: 0 <= i < |params| ==> !BadUpdateArg(params[i], refs[i])
  }

  /** Runs the body with no scope but that of the operator, and restores the scopes of the caller. */
  function RunBody(m: Machine, name: Name, op: Operator, refs: seq<Ref>, st: State, fuel: nat): Res
    requires |refs| == |op.params| && fuel > 0
    decreases fuel - 1, 2
  {
    var r := ExecStmts(m, op.body, op.readOnly, st.(scopes := [ParamScope(op.params, refs)], innerOp := Some(name)),
      fuel - 1);
    Res(r.out, r.st.(scopes := st.scopes, innerOp := st.innerOp))
  }

  function InvokeUpdateOp(m: Machine, name: Name, op: Operator, refs: seq<Ref>, st: State, fuel: nat): Res
    requires |refs| == |op.params|
    decreases fuel, 0, 0
  {
    if fuel == 0 then Res(SPENT, st)
    else if m.interrupted(st.clock) then Fail(st, SystemError)
    else
      var r := RunBody(m, name, op, refs, st, fuel);
      match r.out
      case LEAVE => Fail(r.st, SyntaxError)
      case RETURN => Res(OK, r.st)
      case _ => r
  }

  function InvokeRoOp(m: Machine, name: Name, op: Operator, refs: seq<Ref>, st: State, fuel: nat): Res
    requires |refs| == |op.params|
    decreases fuel, 0, 0
  {
    if fuel == 0 then Res(SPENT, st)
    else if m.interrupted(st.clock) then Fail(st, SystemError)
    else
      var r := RunBody(m, name, op, refs, st, fuel);
      match r.out
      case OK => Fail(r.st, SyntaxError)
      case LEAVE => Fail(r.st, SyntaxError)
      case RETURN => Res(OK, r.st)
      case _ => r
  }

  function ExecCall(m: Machine, name: Name, args: seq<Arg>, st: State, fuel: nat): Res
    decreases fuel, 0, 1
  {
    var a := EvalArgs(m, args, [], st);
    if a.refs.None? then Res(ERROR, a.st)
    else match FindOp(m, name, a.st.innerOp, |a.refs.value|)
      case None => Fail(a.st, OperatorNotFound)
      case Some(n) =>
        if !UpdateArgsOk(m.ops[n].params, a.refs.value) then Fail(a.st, InvalidArgument)
        else InvokeUpdateOp(m, n, m.ops[n], a.refs.value, a.st, fuel)
  }

  /** Assigns the value of a read-only operator to a variable. */
  function ExecAssignOp(m: Machine, name: Name, op: Name, exps: seq<Exp>, st: State, fuel: nat): Res
    decreases fuel, 0, 1
  {
    var a := EvalArgs(m, seq(|exps|, i requires 0 <= i < |exps| => ExpArg(exps[i])), [], st);
    if a.refs.None? then Res(ERROR, a.st)
    else if !HasOp(m, op, true, |a.refs.value|) then Fail(a.st, OperatorNotFound)
    else
      var r := InvokeRoOp(m, op, m.ops[op], a.refs.value, a.st, fuel);
      if r.out != OK then r else Store(r.st, name, r.st.ret)
  }
}
