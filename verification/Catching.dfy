/** Which CATCH handles an error, and what it sees of it (dli/interp_stmt.c). */
module Catching {
  import opened Options
  import opened Statements

  /** The clause is the first for this type of error. */
  predicate IsFirst(catches: seq<Catch>, typ: ErrorType, i: nat) {
    i < |catches| && (catches[i].typ == None || catches[i].typ == Some(typ)) &&
    forall j :: 0 <= j < i ==> catches[j].typ.Some? && catches[j].typ != Some(typ)
  }

  /**
   * The state in which a CATCH clause starts after the error e: its name stands for a variable with the error, all
   * other names for what they stood for, the error is cleared, and whether it was retryable is kept.
   */
  ghost predicate Caught(c: Catch, e: Error, st: State, start: State) {
    Find(start, c.name) == Some(Entry(|st.store|, false)) && start.store == st.store + [ErrorVal(e.typ)] &&
    (forall n :: n != c.name ==> Find(start, n) == Find(st, n)) &&
    start == st.(scopes := start.scopes, store := start.store, retryable := e.retryable, err := None)
  }

  /** The clause runs after the error e, and r is how it ends for the statement around it. */
  ghost predicate Handles(m: Machine, c: Catch, e: Error, ro: bool, st: State, start: State, fuel: nat, r: Res) {
    Caught(c, e, st, start) && r == Exited(ExecStmts(m, c.body, ro, start, fuel))
  }

  lemma CatchHandles(m: Machine, c: Catch, ro: bool, st: State, fuel: nat)
    requires st.err.Some?
    ensures exists start :: Handles(m, c, st.err.value, ro, st, start, fuel, ExecCatch(m, c, ro, st, fuel))
  {
    hide ExecStmts;
    var scope: Scope := map[c.name := Entry(|st.store|, false)];
    var start := Enter(Alloc(st, ErrorVal(st.err.value.typ)), scope)
      .(retryable := st.err.value.retryable, err := None);
    assert start.scopes[1..] == st.scopes;
    forall n ensures Find(start, n) == if n == c.name then Some(scope[n]) else Find(st, n) {
    }
    hide Lookup;
    assert Handles(m, c, st.err.value, ro, st, start, fuel, ExecCatch(m, c, ro, st, fuel));
  }

  lemma {:induction false} FirstHandles(m: Machine, catches: seq<Catch>, ro: bool, st: State, fuel: nat)
    requires st.err.Some?
    ensures forall i: nat :: IsFirst(catches, st.err.value.typ, i) ==>
      ExecCatches(m, catches, ro, st, fuel) == ExecCatch(m, catches[i], ro, st, fuel)
    ensures (forall i: nat :: !IsFirst(catches, st.err.value.typ, i)) ==>
      ExecCatches(m, catches, ro, st, fuel) == Res(ERROR, st)
  {
    hide ExecCatch;
    if catches != [] {
      var typ, rest := st.err.value.typ, catches[1..];
      FirstHandles(m, rest, ro, st, fuel);
      if catches[0].typ == None || catches[0].typ == Some(typ) {
        assert IsFirst(catches, typ, 0);
      } else {
        forall i: nat ensures i > 0 ==> (IsFirst(catches, typ, i) <==> IsFirst(rest, typ, i - 1)) {
          if i > 0 && IsFirst(rest, typ, i - 1) {
            assert forall j :: 0 < j < i ==> catches[j] == rest[j - 1];
          }
          if i > 0 && IsFirst(catches, typ, i) {
            assert forall j :: 0 <= j < i - 1 ==> rest[j] == catches[j + 1];
          }
        }
        forall i: nat | IsFirst(rest, typ, i) ensures IsFirst(catches, typ, i + 1) {
          assert IsFirst(catches, typ, i + 1) <==> IsFirst(rest, typ, i + 1 - 1);
        }
      }
    }
  }

  lemma HandledBy(m: Machine, catches: seq<Catch>, ro: bool, st: State, fuel: nat, i: nat)
    requires st.err.Some? && IsFirst(catches, st.err.value.typ, i)
    ensures exists start ::
      Handles(m, catches[i], st.err.value, ro, st, start, fuel, ExecCatches(m, catches, ro, st, fuel))
  {
    FirstHandles(m, catches, ro, st, fuel);
    assert ExecCatches(m, catches, ro, st, fuel) == ExecCatch(m, catches[i], ro, st, fuel);
    hide ExecCatches, ExecCatch, Handles;
    CatchHandles(m, catches[i], ro, st, fuel);
  }

  /** The first clause for the error e has handled it and ended like r; or none has, and r fails with the error. */
  ghost predicate Handled(m: Machine, catches: seq<Catch>, e: Error, ro: bool, st: State, fuel: nat, r: Res) {
    (forall i: nat :: IsFirst(catches, e.typ, i) ==>
       exists start :: Handles(m, catches[i], e, ro, st, start, fuel, r)) &&
    ((forall i: nat :: !IsFirst(catches, e.typ, i)) ==> r == Res(ERROR, st))
  }

  lemma ErrorHandled(m: Machine, catches: seq<Catch>, ro: bool, st: State, fuel: nat)
    requires st.err.Some?
    ensures Handled(m, catches, st.err.value, ro, st, fuel, ExecCatches(m, catches, ro, st, fuel))
  {
    FirstHandles(m, catches, ro, st, fuel);
    hide ExecCatches, ExecCatch, Handles;
    forall i: nat | IsFirst(catches, st.err.value.typ, i)
      ensures exists start ::
        Handles(m, catches[i], st.err.value, ro, st, start, fuel, ExecCatches(m, catches, ro, st, fuel)) {
      HandledBy(m, catches, ro, st, fuel, i);
    }
  }

  /**
   * TRY ends like its body unless that fails. An error of the body is handled by the first CATCH for its type, or for
   * any, which starts with the error in its variable; if there is none, TRY fails with that error.
   */
  lemma TryMeans(m: Machine, s: Stmt, ro: bool, st: State, fuel: nat)
    requires s.Try?
    ensures var b, r := Exited(ExecStmts(m, s.body, ro, Enter(st, map[]), fuel)), Exec(m, s, ro, st, fuel);
      if b.out != ERROR then r == b
      else b.st.err.Some? ==> Handled(m, s.catches, b.st.err.value, ro, b.st, fuel, r)
  {
    hide ExecStmts, ExecCatches, Handled;
    var b := Exited(ExecStmts(m, s.body, ro, Enter(st, map[]), fuel));
    if b.out == ERROR && b.st.err.Some? {
      ErrorHandled(m, s.catches, ro, b.st, fuel);
    }
  }

  /** An error that is raised in the body of a TRY is handled by the clause for its type, which sees that error. */
  lemma RaiseIsCaught(m: Machine, typ: ErrorType, catches: seq<Catch>, ro: bool, st: State, fuel: nat)
    ensures var b := st.(err := Some(Error(typ, false, EndsNone)));
      Handled(m, catches, b.err.value, ro, b, fuel, Exec(m, Try([Raise(typ)], catches), ro, st, fuel))
  {
    hide ExecCatches, Handled;
    var st1 := Enter(st, map[]);
    assert ExecStmts(m, [Raise(typ)], ro, st1, fuel) == Fail(st1, typ);
    assert Exit(Fail(st1, typ).st) == st.(err := Some(Error(typ, false, EndsNone))) by {
      assert st1.scopes[1..] == st.scopes;
    }
    TryMeans(m, Try([Raise(typ)], catches), ro, st, fuel);
  }
}
