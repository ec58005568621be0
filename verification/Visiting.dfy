/**
 * What loops visit (dli/interp_stmt.c): FOREACH every tuple of its table once and in order, FOR every number between
 * its bounds.
 */
module Visiting {
  import opened ByteStrings
  import opened Options
  import opened Statements
  import opened Discipline

  // ----- FOREACH -----

  /** The state in which the body starts with the first of the tuples, which goes to this location. */
  function Begun(st: State, loc: nat, rows: seq<Value>): State
    requires rows != [] && st.foreachs != []
  {
    st.(scopes := [map[]] + st.scopes,
        clock := st.clock + 1,
        store := if loc < |st.store| then st.store[loc := rows[0]] else st.store,
        foreachs := [rows[1..]] + st.foreachs[1..])
  }

  /** The loop goes on after its body has ended like b. */
  predicate GoesOn(m: Machine, name: Name, b: Res) {
    b.out == OK && Find(b.st, name).Some? && !m.interrupted(b.st.clock)
  }

  /** How a FOREACH loop ends if it does not go on after its body has ended like b. */
  predicate Halts(lab: Option<Name>, name: Name, b: Res, r: Res) {
    match b.out
    case LEAVE =>
      if lab.Some? && b.st.leave.None? then r.out == UNDEFINED(NullTarget) else r == Res(OK, b.st.(err := None))
    case RETURN => r == Res(ERROR, b.st)
    case OK => r == Fail(b.st, if Find(b.st, name).None? then NameError else SystemError)
    case _ => r == b
  }

  /** How a FOREACH loop ends if it finds no more tuple: none is left, or it cannot be fetched. */
  predicate Exhausted(m: Machine, rows: seq<Value>, st: State, fuel: nat, r: Res) {
    if fuel == 0 then r == Res(SPENT, st)
    else if m.fetch(st.clock).Some? then r == Res(OK, DbFail(Tick(st), m.fetch(st.clock).value).(err := None))
    else rows == [] && r == Res(OK, Tick(st).(err := None))
  }

  /** A loop over these tuples runs its body from these states, one for each tuple in turn, and ends like r. */
  ghost predicate Rounds(m: Machine, s: Stmt, loc: nat, rows: seq<Value>, ro: bool, st: State, fuel: nat,
                         starts: seq<State>, r: Res)
    requires s.Foreach?
    decreases |starts|
  {
    if starts == [] then Exhausted(m, rows, st, fuel, r)
    else
      fuel > 0 && rows != [] && st.foreachs != [] && m.fetch(st.clock) == None && starts[0] == Begun(st, loc, rows) &&
      var b := Exited(ExecStmts(m, s.body, ro, starts[0], fuel - 1));
      if GoesOn(m, s.name, b) then
        Rounds(m, s, Find(b.st, s.name).value.loc, rows[1..], ro, b.st, fuel - 1, starts[1..], r)
      else |starts| == 1 && Halts(s.lab, s.name, b, r)
  }

  lemma {:induction false} LoopRounds(m: Machine, s: Stmt, loc: nat, rows: seq<Value>, ro: bool, st: State, fuel: nat)
    returns (starts: seq<State>)
    requires s.Foreach? && st.err == None && st.foreachs != [] && st.foreachs[0] == rows
    ensures Rounds(m, s, loc, rows, ro, st, fuel, starts, ForeachLoop(m, s.lab, s.name, loc, s.body, ro, st, fuel))
    decreases fuel
  {
    hide ExecStmts, Lookup, DbFail;
    starts := [];
    if fuel > 0 && m.fetch(st.clock) == None && rows != [] {
      var st1 := Enter(NextRow(st, loc), map[]);
      assert st1 == Begun(st, loc, rows);
      var b := Exited(ExecStmts(m, s.body, ro, st1, fuel - 1));
      BodyKeeps(m, s.body, ro, st1, fuel - 1);
      if GoesOn(m, s.name, b) {
        starts := LoopRounds(m, s, Find(b.st, s.name).value.loc, rows[1..], ro, b.st, fuel - 1);
      }
      starts := [st1] + starts;
    }
  }

  lemma BodyKeeps(m: Machine, body: seq<Stmt>, ro: bool, st: State, fuel: nat)
    requires st.err == None
    ensures var r := ExecStmts(m, body, ro, st, fuel);
      r.st.foreachs == st.foreachs && (r.out == OK ==> r.st.err == None)
  {
    StmtsSound(false, m, body, ro, st, fuel);
    hide ExecStmts;
  }

  /**
   * In every round the loop variable has the tuple whose turn it is, in the order of the table, and the tuples after
   * it are still to come.
   */
  ghost predicate InTurn(s: Stmt, rows: seq<Value>, starts: seq<State>)
    requires s.Foreach?
  {
    |starts| <= |rows| &&
    forall k :: 0 <= k < |starts| ==>
      starts[k].foreachs != [] && starts[k].foreachs[0] == rows[k + 1..] && Find(starts[k], s.name).Some? &&
      (Find(starts[k], s.name).value.loc < |starts[k].store| ==>
         starts[k].store[Find(starts[k], s.name).value.loc] == rows[k])
  }

  lemma {:induction false} RoundsInTurn(m: Machine, s: Stmt, loc: nat, rows: seq<Value>, ro: bool, st: State, fuel: nat,
                                        starts: seq<State>, r: Res)
    requires s.Foreach? && Find(st, s.name).Some? && Find(st, s.name).value.loc == loc
    requires Rounds(m, s, loc, rows, ro, st, fuel, starts, r)
    ensures InTurn(s, rows, starts)
    decreases |starts|
  {
    if starts != [] {
      var b := Exited(ExecStmts(m, s.body, ro, starts[0], fuel - 1));
      assert starts[0].scopes[1..] == st.scopes;
      assert Find(starts[0], s.name) == Find(st, s.name);
      if GoesOn(m, s.name, b) {
        RoundsInTurn(m, s, Find(b.st, s.name).value.loc, rows[1..], ro, b.st, fuel - 1, starts[1..], r);
      }
      hide ExecStmts, Lookup;
      forall k | 1 <= k < |starts| ensures starts[k] == starts[1..][k - 1] && rows[k] == rows[1..][k - 1] &&
        rows[k + 1..] == rows[1..][k..] {
      }
    }
  }

  /** The result of the body in the last round. */
  function LastRound(m: Machine, s: Stmt, ro: bool, fuel: nat, starts: seq<State>): Res
    requires s.Foreach? && starts != [] && |starts| <= fuel
  {
    ExecStmts(m, s.body, ro, starts[|starts| - 1], fuel - |starts|)
  }

  /** A loop that ends normally has visited all tuples, or ended by LEAVE, or could not fetch the next tuple. */
  ghost predicate AllVisited(m: Machine, s: Stmt, rows: seq<Value>, ro: bool, fuel: nat, starts: seq<State>, r: Res)
    requires s.Foreach?
  {
    |starts| <= fuel &&
    (r.out == OK ==>
       |starts| == |rows| || (r.st.clock > 0 && m.fetch(r.st.clock - 1).Some?) ||
       (starts != [] && LastRound(m, s, ro, fuel, starts).out == LEAVE))
  }

  lemma {:induction false} RoundsVisitAll(m: Machine, s: Stmt, loc: nat, rows: seq<Value>, ro: bool, st: State,
                                          fuel: nat, starts: seq<State>, r: Res)
    requires s.Foreach? && Rounds(m, s, loc, rows, ro, st, fuel, starts, r)
    ensures AllVisited(m, s, rows, ro, fuel, starts, r)
    decreases |starts|
  {
    hide ExecStmts, Lookup, DbFail;
    if starts == [] {
      if fuel > 0 && m.fetch(st.clock).Some? {
        FailureKeepsClock(Tick(st), m.fetch(st.clock).value);
      }
    } else {
      var b := Exited(ExecStmts(m, s.body, ro, starts[0], fuel - 1));
      if GoesOn(m, s.name, b) {
        RoundsVisitAll(m, s, Find(b.st, s.name).value.loc, rows[1..], ro, b.st, fuel - 1, starts[1..], r);
        if |starts| > 1 {
          assert starts[1..][|starts| - 2] == starts[|starts| - 1];
        }
      }
    }
  }

  lemma FailureKeepsClock(st: State, e: Error)
    ensures DbFail(st, e).clock == st.clock
  {}

  /** r ends like q, only with the FOREACH loops that are around. */
  predicate SameEnd(r: Res, q: Res) {
    r == Res(q.out, q.st.(foreachs := r.st.foreachs))
  }

  /** The state in which the loop of a FOREACH statement begins with these tuples. */
  function Opened(st: State, rows: seq<Value>): State {
    st.(clock := st.clock + 1, foreachs := [rows] + st.foreachs)
  }

  /** The statement visits the tuples in their order, from these states, and ends like r. */
  ghost predicate Visits(m: Machine, s: Stmt, rows: seq<Value>, ro: bool, st: State, fuel: nat, starts: seq<State>,
                         r: Res)
    requires s.Foreach?
  {
    Find(st, s.name).Some? && InTurn(s, rows, starts) && AllVisited(m, s, rows, ro, fuel, starts, r) &&
    Rounds(m, s, Find(st, s.name).value.loc, rows, ro, Opened(st, rows), fuel, starts, r)
  }

  /**
   * FOREACH visits the tuples of its table, each one once and in order: the body starts its k-th round with the k-th
   * tuple in the loop variable, and a loop that ends normally, but neither by LEAVE nor because a tuple could not be
   * fetched, has had as many rounds as there are tuples. It fails if there is no variable or no table.
   */
  lemma ForeachVisits(m: Machine, s: Stmt, ro: bool, st: State, fuel: nat)
    requires s.Foreach? && st.err == None
    ensures var rows, r := m.rows(s.table, Env(st), View(st), st.clock), Exec(m, s, ro, st, fuel);
      if Find(st, s.name).None? then r == Fail(st, NameError)
      else if rows.Err? then r.out == ERROR && r.st.err.Some?
      else exists starts, q :: Visits(m, s, rows.value, ro, st, fuel, starts, q) && SameEnd(r, q)
  {
    var rows := m.rows(s.table, Env(st), View(st), st.clock);
    hide Lookup, Visible, ForeachLoop, DbFail;
    if Find(st, s.name).Some? && rows.Ok? {
      var loc, st1 := Find(st, s.name).value.loc, Opened(st, rows.value);
      var q := ForeachLoop(m, s.lab, s.name, loc, s.body, ro, st1, fuel);
      var starts := LoopRounds(m, s, loc, rows.value, ro, st1, fuel);
      RoundsInTurn(m, s, loc, rows.value, ro, st1, fuel, starts, q);
      RoundsVisitAll(m, s, loc, rows.value, ro, st1, fuel, starts, q);
      hide Rounds, InTurn, AllVisited;
      assert Visits(m, s, rows.value, ro, st, fuel, starts, q);
      assert Exec(m, s, ro, st, fuel) == EndForeach(q);
    }
  }

  // ----- FOR -----

  /** The number in the loop variable. */
  function Number(st: State, name: Name): Option<int> {
    match Find(st, name)
    case None => None
    case Some(e) =>
      (match ValueAt(st.store, e.loc)
       case Int(i) => Some(i)
       case _ => None)
  }

  /** The state with the next number in the loop variable. */
  function Incremented(st: State, name: Name): State
    requires Number(st, name).Some?
  {
    var e := Find(st, name).value;
    if e.loc < |st.store| then st.(store := st.store[e.loc := Int(Number(st, name).value + 1)]) else st
  }

  /** How a FOR or WHILE loop ends if it does not go on after its body has ended like b. */
  predicate ForHalts(lab: Option<Name>, b: Res, r: Res) {
    match b.out
    case LEAVE =>
      if lab == b.st.leave then r == Res(OK, b.st)
      else if b.st.leave.None? then r.out == UNDEFINED(NullTarget)
      else r == b
    case OK => r.out != OK
    case _ => r == b
  }

  /** The loop goes on with the next number after its body has ended like b. */
  predicate CountsOn(m: Machine, name: Name, b: Res) {
    b.out == OK && !m.interrupted(b.st.clock) && Number(b.st, name).Some? && Number(b.st, name).value != MAX_INT
  }

  /** A loop up to this number runs its body from these states and ends like r. */
  ghost predicate Counts(m: Machine, s: Stmt, last: int, ro: bool, st: State, fuel: nat, starts: seq<State>, r: Res)
    requires s.For?
    decreases |starts|
  {
    Number(st, s.name).Some? &&
    if starts == [] then
      if fuel == 0 then r == Res(SPENT, st) else Number(st, s.name).value > last && r == Res(OK, st)
    else
      fuel > 0 && Number(st, s.name).value <= last && starts[0] == st.(scopes := [map[]] + st.scopes) &&
      var b := Exited(ExecStmts(m, s.body, ro, starts[0], fuel - 1));
      if CountsOn(m, s.name, b) then Counts(m, s, last, ro, Incremented(b.st, s.name), fuel - 1, starts[1..], r)
      else |starts| == 1 && ForHalts(s.lab, b, r)
  }

  lemma IncrementedNumber(st: State, name: Name)
    requires Number(st, name).Some?
    ensures var i := Number(st, name).value;
      Incremented(st, name) == Set(st, Find(st, name).value.loc, Int(i + 1)) &&
      Number(Incremented(st, name), name) == Some(i + 1)
  {}

  lemma {:induction false} LoopCounts(m: Machine, s: Stmt, last: int, ro: bool, st: State, fuel: nat)
    returns (starts: seq<State>)
    requires s.For? && Number(st, s.name).Some?
    ensures Counts(m, s, last, ro, st, fuel, starts,
                   ForLoop(m, s.lab, s.name, Find(st, s.name).value.loc, last, s.body, ro, st, fuel))
    decreases fuel
  {
    hide ExecStmts, Lookup;
    starts := [];
    if fuel > 0 && Number(st, s.name).value <= last {
      var st1 := Enter(st, map[]);
      var b := Exited(ExecStmts(m, s.body, ro, st1, fuel - 1));
      if CountsOn(m, s.name, b) {
        IncrementedNumber(b.st, s.name);
        hide Set;
        starts := LoopCounts(m, s, last, ro, Incremented(b.st, s.name), fuel - 1);
      }
      starts := [st1] + starts;
    }
  }

  /** What a round does without failing leaves the number in the loop variable alone. */
  ghost predicate KeepsNumber(m: Machine, s: Stmt, ro: bool, fuel: nat, starts: seq<State>)
    requires s.For? && |starts| <= fuel
  {
    forall k {:trigger starts[k]} :: 0 <= k < |starts| ==>
      var b := Exited(ExecStmts(m, s.body, ro, starts[k], fuel - 1 - k));
      b.out == OK ==> Number(b.st, s.name) == Number(starts[k], s.name)
  }

  /** The rounds have the numbers from this one on, none of them after the last. */
  predicate InOrder(s: Stmt, first: int, last: int, starts: seq<State>)
    requires s.For?
  {
    (forall k :: 0 <= k < |starts| ==> Number(starts[k], s.name) == Some(first + k)) &&
    (starts != [] ==> first + |starts| - 1 <= last)
  }

  lemma {:induction false} CountsFit(m: Machine, s: Stmt, last: int, ro: bool, st: State, fuel: nat, starts: seq<State>,
                                     r: Res)
    requires s.For? && Counts(m, s, last, ro, st, fuel, starts, r)
    ensures |starts| <= fuel
    decreases |starts|
  {
    hide ExecStmts, Lookup;
    if starts != [] {
      var b := Exited(ExecStmts(m, s.body, ro, starts[0], fuel - 1));
      if CountsOn(m, s.name, b) {
        CountsFit(m, s, last, ro, Incremented(b.st, s.name), fuel - 1, starts[1..], r);
      }
    }
  }

  /**
   * If the body leaves the loop variable alone, the rounds have the numbers from the first on, and a loop that ends
   * normally, but not by LEAVE, has had one for each number up to the last.
   */
  lemma {:induction false} CountsInOrder(m: Machine, s: Stmt, last: int, ro: bool, st: State, fuel: nat,
                                         starts: seq<State>, r: Res)
    requires s.For? && Counts(m, s, last, ro, st, fuel, starts, r)
    requires |starts| <= fuel && KeepsNumber(m, s, ro, fuel, starts)
    ensures var first := Number(st, s.name).value;
      InOrder(s, first, last, starts) &&
      (r.out == OK && (starts == [] ||
         ExecStmts(m, s.body, ro, starts[|starts| - 1], fuel - |starts|).out != LEAVE) ==>
         |starts| == if first <= last then last - first + 1 else 0)
    decreases |starts|
  {
    hide ExecStmts, Number, Incremented, KeepsNumber, InOrder, ForHalts;
    if starts == [] {
      NoneInOrder(s, Number(st, s.name).value, last);
    } else {
      var b := Exited(ExecStmts(m, s.body, ro, starts[0], fuel - 1));
      SameNumber(st, s.name);
      if CountsOn(m, s.name, b) {
        var st' := Incremented(b.st, s.name);
        IncrementedNumber(b.st, s.name);
        CountsFit(m, s, last, ro, st', fuel - 1, starts[1..], r);
        KeepsLater(m, s, ro, fuel, starts);
        CountsInOrder(m, s, last, ro, st', fuel - 1, starts[1..], r);
      } else {
        NoneInOrder(s, Number(st, s.name).value + 1, last);
        ForEndsNormally(s.lab, b, r);
      }
      OneMoreInOrder(s, Number(st, s.name).value, last, starts);
    }
  }

  lemma ForEndsNormally(lab: Option<Name>, b: Res, r: Res)
    requires ForHalts(lab, b, r)
    ensures r.out == OK ==> b.out == LEAVE
  {}

  lemma SameNumber(st: State, name: Name)
    ensures Number(st.(scopes := [map[]] + st.scopes), name) == Number(st, name)
  {
    assert ([map[]] + st.scopes)[1..] == st.scopes;
  }

  lemma NoneInOrder(s: Stmt, first: int, last: int)
    requires s.For?
    ensures InOrder(s, first, last, [])
  {}

  lemma OneMoreInOrder(s: Stmt, first: int, last: int, starts: seq<State>)
    requires s.For? && starts != [] && Number(starts[0], s.name) == Some(first) && first <= last
    requires InOrder(s, first + 1, last, starts[1..])
    ensures InOrder(s, first, last, starts)
  {
    hide Number;
    forall k | 1 <= k < |starts| ensures Number(starts[k], s.name) == Some(first + k) {
      assert starts[1..][k - 1] == starts[k];
    }
  }

  lemma KeepsLater(m: Machine, s: Stmt, ro: bool, fuel: nat, starts: seq<State>)
    requires s.For? && 0 < |starts| <= fuel && KeepsNumber(m, s, ro, fuel, starts)
    ensures KeepsNumber(m, s, ro, fuel - 1, starts[1..])
    ensures var b := Exited(ExecStmts(m, s.body, ro, starts[0], fuel - 1));
      b.out == OK ==> Number(b.st, s.name) == Number(starts[0], s.name)
  {
    hide ExecStmts, Number;
    var start := starts[0];
    forall k | 0 <= k < |starts| - 1
      ensures var b := Exited(ExecStmts(m, s.body, ro, starts[1..][k], fuel - 1 - 1 - k));
        b.out == OK ==> Number(b.st, s.name) == Number(starts[1..][k], s.name) {
      var later := starts[k + 1];
      assert starts[1..][k] == later;
    }
  }

  /** FOR counts from the value of its first expression up to that of its last, in the loop variable. */
  lemma ForVisits(m: Machine, s: Stmt, ro: bool, st: State, fuel: nat, loc: nat, i: int, j: int)
    requires s.For? && Number(st, s.name).Some? && Find(st, s.name).value.loc == loc
    requires m.eval(s.first, Env(st), View(st), st.clock) == Ok(Int(i))
    requires var st1 := st.(store := st.store[loc := Int(i)], clock := st.clock + 1);
      m.eval(s.last, Env(st1), View(st1), st1.clock) == Ok(Int(j))
    ensures var st2 := st.(store := st.store[loc := Int(i)], clock := st.clock + 2);
      Number(st2, s.name) == Some(i) &&
      exists starts :: Counts(m, s, j, ro, st2, fuel, starts, Exec(m, s, ro, st, fuel))
  {
    hide Lookup, Visible, ForLoop;
    var st2 := st.(store := st.store[loc := Int(i)], clock := st.clock + 2);
    assert Find(st2, s.name) == Find(st, s.name);
    var starts := LoopCounts(m, s, j, ro, st2, fuel);
    assert Exec(m, s, ro, st, fuel) == ForLoop(m, s.lab, s.name, loc, j, s.body, ro, st2, fuel);
  }

  // ----- WHILE -----

  /** What the condition of a statement is in this state. */
  function Condition(m: Machine, cond: Exp, st: State): Result<Value, Error> {
    m.eval(cond, Env(st), View(st), st.clock)
  }

  /** A WHILE loop runs its body from these states, each time because the condition is true, and ends like r. */
  ghost predicate Tests(m: Machine, s: Stmt, ro: bool, st: State, fuel: nat, starts: seq<State>, r: Res)
    requires s.While?
    decreases |starts|
  {
    if starts == [] then
      if fuel == 0 then r == Res(SPENT, st)
      else if Condition(m, s.cond, st) == Ok(Bool(false)) then r == Res(OK, st.(clock := st.clock + 1))
      else Condition(m, s.cond, st) != Ok(Bool(true)) && r.out == ERROR && r.st.err.Some?
    else
      fuel > 0 && Condition(m, s.cond, st) == Ok(Bool(true)) &&
      starts[0] == st.(scopes := [map[]] + st.scopes, clock := st.clock + 1) &&
      var b := Exited(ExecStmts(m, s.body, ro, starts[0], fuel - 1));
      if b.out == OK && !m.interrupted(b.st.clock) then Tests(m, s, ro, b.st, fuel - 1, starts[1..], r)
      else |starts| == 1 && ForHalts(s.lab, b, r)
  }

  lemma BoolCondition(m: Machine, cond: Exp, st: State)
    ensures var c, x := EvalBool(m, cond, st), Condition(m, cond, st);
      if x.Ok? && x.value.Bool? then c == Eval(Some(x.value), st.(clock := st.clock + 1))
      else c.val == None && c.st.err.Some?
  {
    hide Visible, DbFail;
    assert forall st', e :: DbFail(st', e).err.Some? by {
      forall st', e ensures DbFail(st', e).err.Some? { FailureHasError(st', e); }
    }
  }

  lemma FailureHasError(st: State, e: Error)
    ensures DbFail(st, e).err.Some?
  {}

  /** WHILE runs its body as long as the condition is true, and ends when it is false, by LEAVE or with an error. */
  lemma {:induction false} WhileTests(m: Machine, s: Stmt, ro: bool, st: State, fuel: nat) returns (starts: seq<State>)
    requires s.While?
    ensures Tests(m, s, ro, st, fuel, starts, ExecWhile(m, s.lab, s.cond, s.body, ro, st, fuel))
    decreases fuel
  {
    hide ExecStmts, EvalBool, Condition;
    starts := [];
    if fuel > 0 {
      BoolCondition(m, s.cond, st);
      var c := EvalBool(m, s.cond, st);
      if c.val.Some? && c.val.value.b {
        var st1 := Enter(c.st, map[]);
        var b := Exited(ExecStmts(m, s.body, ro, st1, fuel - 1));
        if b.out == OK && !m.interrupted(b.st.clock) {
          starts := WhileTests(m, s, ro, b.st, fuel - 1);
        }
        starts := [st1] + starts;
      }
    }
  }

  /** A WHILE loop that ends normally, but not by LEAVE, ends in a state in which its condition has been false. */
  lemma {:induction false} TestsEnd(m: Machine, s: Stmt, ro: bool, st: State, fuel: nat, starts: seq<State>, r: Res)
    requires s.While? && Tests(m, s, ro, st, fuel, starts, r)
    ensures |starts| <= fuel
    ensures r.out == OK ==>
      (starts != [] && ExecStmts(m, s.body, ro, starts[|starts| - 1], fuel - |starts|).out == LEAVE) ||
      (r.st.clock > 0 && Condition(m, s.cond, r.st.(clock := r.st.clock - 1)) == Ok(Bool(false)))
    decreases |starts|
  {
    hide ExecStmts, Visible;
    if starts != [] {
      var b := Exited(ExecStmts(m, s.body, ro, starts[0], fuel - 1));
      if b.out == OK && !m.interrupted(b.st.clock) {
        TestsEnd(m, s, ro, b.st, fuel - 1, starts[1..], r);
        if |starts| > 1 {
          assert starts[1..][|starts| - 2] == starts[|starts| - 1];
        }
      }
    }
  }

  // ----- IF and CASE -----

  /** A list of statements in a scope of its own, from this time on. */
  function Branch(m: Machine, ss: seq<Stmt>, ro: bool, st: State, clock: nat, fuel: nat): Res {
    Exited(ExecStmts(m, ss, ro, st.(scopes := [map[]] + st.scopes, clock := clock), fuel))
  }

  /** IF runs the first branch if the condition is true and the second if it is false, in a scope of its own. */
  lemma IfMeans(m: Machine, s: Stmt, ro: bool, st: State, fuel: nat)
    requires s.If?
    ensures var c, r := Condition(m, s.cond, st), Exec(m, s, ro, st, fuel);
      if c == Ok(Bool(true)) then r == Branch(m, s.body, ro, st, st.clock + 1, fuel)
      else if c == Ok(Bool(false)) then r == Branch(m, s.els, ro, st, st.clock + 1, fuel)
      else r.out == ERROR && r.st.err.Some?
  {
    BoolCondition(m, s.cond, st);
    hide ExecStmts, EvalBool, Condition;
  }

  /**
   * CASE evaluates its conditions in order until one is not false: if that is true it runs its branch, and it fails if
   * that is no truth value; if all are false it runs the ELSE branch.
   */
  lemma CaseMeans(m: Machine, s: Stmt, ro: bool, st: State, fuel: nat, i: nat)
    requires s.Case? && i <= |s.whens|
    requires forall j :: 0 <= j < i ==> m.eval(s.whens[j].cond, Env(st), View(st), st.clock + j) == Ok(Bool(false))
    ensures var r := Exec(m, s, ro, st, fuel);
      if i == |s.whens| then r == Branch(m, s.els, ro, st, st.clock + i, fuel)
      else
        var c := m.eval(s.whens[i].cond, Env(st), View(st), st.clock + i);
        (c == Ok(Bool(true)) ==> r == Branch(m, s.whens[i].body, ro, st, st.clock + i + 1, fuel)) &&
        (c != Ok(Bool(true)) && c != Ok(Bool(false)) ==> r.out == ERROR && r.st.err.Some?)
  {
    CaseFrom(m, s, ro, st, fuel, 0, i);
    assert st.(clock := st.clock + 0) == st;
    hide ExecCase;
  }

  lemma {:induction false} CaseFrom(m: Machine, s: Stmt, ro: bool, st: State, fuel: nat, k: nat, i: nat)
    requires s.Case? && k <= i <= |s.whens|
    requires forall j :: k <= j < i ==> m.eval(s.whens[j].cond, Env(st), View(st), st.clock + j) == Ok(Bool(false))
    ensures var r := ExecCase(m, s, k, ro, st.(clock := st.clock + k), fuel);
      if i == |s.whens| then r == Branch(m, s.els, ro, st, st.clock + i, fuel)
      else
        var c := m.eval(s.whens[i].cond, Env(st), View(st), st.clock + i);
        (c == Ok(Bool(true)) ==> r == Branch(m, s.whens[i].body, ro, st, st.clock + i + 1, fuel)) &&
        (c != Ok(Bool(true)) && c != Ok(Bool(false)) ==> r.out == ERROR && r.st.err.Some?)
    decreases i - k
  {
    var at := st.(clock := st.clock + k);
    assert Env(at) == Env(st) && View(at) == View(st);
    hide ExecStmts, EvalBool, Visible;
    if k < |s.whens| {
      BoolCondition(m, s.whens[k].cond, at);
      if k < i {
        CaseFrom(m, s, ro, st, fuel, k + 1, i);
      }
    }
  }
}
