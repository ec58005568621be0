/**
 * The stack of transactions that the interpreter keeps (dli/interp_stmt.c, dli/iinterp.c). Every transaction
 * sees its own version of the database, which starts as the version of its parent.
 */
module TxStack {
  import opened ByteStrings

  /** Contents of the tables. */
  type Db = map<Name, seq<nat>>

  /** view is the database as the transaction sees it; a transaction stops running when it is ended by other means. */
  datatype Tx = Tx(view: Db, running: bool)

  /** The database without any transaction, and the transactions, the innermost first. */
  datatype TxState = TxState(db: Db, stack: seq<Tx>)

  datatype Event =
    | Begin
    | Write(now: Db)
    | Reset           // a retryable error takes the transaction back to its start
    | Abort           // the transaction is rolled back, but stays on the stack
    | AbortAll        // a deadlock: all transactions are rolled back, but stay on the stack
    | Commit
    | Pop             // the transaction is rolled back and leaves the stack

  function Current(t: TxState): Db {
    if t.stack == [] then t.db else t.stack[0].view
  }

  /** What the parent of the innermost transaction sees. */
  function Below(t: TxState): Db {
    if |t.stack| >= 2 then t.stack[1].view else t.db
  }

  /** The transactions after all of them were rolled back. */
  function Ended(txs: seq<Tx>, db: Db): seq<Tx> {
    seq(|txs|, i => Tx(db, false))
  }

  function Step(t: TxState, e: Event): TxState {
    match e
    case Begin => t.(stack := [Tx(Current(t), true)] + t.stack)
    case Write(d) => if t.stack == [] then t else t.(stack := [t.stack[0].(view := d)] + t.stack[1..])
    case Reset => if t.stack == [] then t else t.(stack := [t.stack[0].(view := Below(t))] + t.stack[1..])
    case Abort => if t.stack == [] then t else t.(stack := [Tx(Below(t), false)] + t.stack[1..])
    case AbortAll => t.(stack := Ended(t.stack, t.db))
    case Commit =>
      if t.stack == [] then t
      else if |t.stack| == 1 then TxState(t.stack[0].view, [])
      else t.(stack := [t.stack[1].(view := t.stack[0].view)] + t.stack[2..])
    case Pop => if t.stack == [] then t else t.(stack := t.stack[1..])
  }

  function Run(t: TxState, es: seq<Event>): TxState
    decreases |es|
  {
    if es == [] then t else Run(Step(t, es[0]), es[1..])
  }

  lemma {:induction false} RunAppended(t: TxState, es: seq<Event>, es': seq<Event>)
    ensures Run(t, es + es') == Run(Run(t, es), es')
    decreases |es|
  {
    if es == [] {
      assert es + es' == es';
    } else {
      assert (es + es')[1..] == es[1..] + es';
      RunAppended(Step(t, es[0]), es[1..], es');
    }
  }

  // ----- What an inner transaction can affect -----

  /** There are at least n transactions all the time. */
  predicate Deep(t: TxState, es: seq<Event>, n: nat)
    decreases |es|
  {
    |t.stack| >= n && (es == [] || Deep(Step(t, es[0]), es[1..], n))
  }

  /** The n outermost transactions. */
  function Outermost(t: TxState, n: nat): seq<Tx>
    requires n <= |t.stack|
  {
    t.stack[|t.stack| - n..]
  }

  /** The n outermost transactions after these events, as far as the events end none of them one by one. */
  function Survivors(t: TxState, es: seq<Event>, n: nat): seq<Tx>
    requires n <= |t.stack|
  {
    if AbortAll in es then Ended(Outermost(t, n), t.db) else Outermost(t, n)
  }

  lemma StepSurvivors(t: TxState, e: Event, n: nat)
    requires |t.stack| >= n + 1 && |Step(t, e).stack| >= n + 1
    ensures Step(t, e).db == t.db && Outermost(Step(t, e), n) == Survivors(t, [e], n)
  {}

  lemma SurvivorsStep(t: TxState, e: Event, es: seq<Event>, n: nat)
    requires |t.stack| >= n && |Step(t, e).stack| >= n && es != [] && es[0] == e
    requires Step(t, e).db == t.db && Outermost(Step(t, e), n) == Survivors(t, [e], n)
    ensures Survivors(Step(t, e), es[1..], n) == Survivors(t, es, n)
  {
    hide Step;
    assert es == [e] + es[1..];
    assert AbortAll in es <==> e == AbortAll || AbortAll in es[1..];
  }

  /**
   * As long as more than n transactions are there, the database does not change, and the n outermost do not but
   * for a deadlock, which ends all of them.
   */
  lemma {:induction false} OuterAfter(t: TxState, es: seq<Event>, n: nat)
    requires Deep(t, es, n + 1)
    ensures |Run(t, es).stack| >= n + 1
    ensures Run(t, es).db == t.db && Outermost(Run(t, es), n) == Survivors(t, es, n)
    decreases |es|
  {
    hide Step, Outermost, Survivors;
    if es == [] {
      NoneEnded(t, n);
    } else {
      StepSurvivors(t, es[0], n);
      SurvivorsStep(t, es[0], es, n);
      OuterAfter(Step(t, es[0]), es[1..], n);
    }
  }

  lemma NoneEnded(t: TxState, n: nat)
    requires n <= |t.stack|
    ensures Survivors(t, [], n) == Outermost(t, n)
  {}

  /** If one of the n outermost transactions was running, they are unaffected iff there was no deadlock. */
  lemma OuterUnaffected(t: TxState, es: seq<Event>, n: nat)
    requires Deep(t, es, n + 1) && exists x :: x in Outermost(t, n) && x.running
    ensures |Run(t, es).stack| >= n
    ensures Outermost(Run(t, es), n) == Outermost(t, n) <==> AbortAll !in es
  {
    OuterAfter(t, es, n);
    EndedDiffer(Outermost(t, n), t.db);
    hide Run, Deep, Outermost, Ended;
  }

  lemma EndedDiffer(txs: seq<Tx>, db: Db)
    requires exists x :: x in txs && x.running
    ensures Ended(txs, db) != txs
  {
    var x :| x in txs && x.running;
    assert x !in Ended(txs, db);
  }

  /** A transaction that starts in t and is ended by e, with everything inside it. */
  function Enclosed(es: seq<Event>, e: Event): seq<Event> {
    [Begin] + es + [e]
  }

  lemma RunEnclosed(t: TxState, es: seq<Event>, e: Event)
    ensures Run(t, Enclosed(es, e)) == Step(Run(Step(t, Begin), es), e)
  {
    assert Enclosed(es, e)[1..] == es + [e];
    RunAppended(Step(t, Begin), es, [e]);
  }

  /** What is around a transaction that started in t, after everything inside it. */
  function Around(t: TxState, es: seq<Event>): TxState {
    if AbortAll in es then Step(t, AbortAll) else t
  }

  lemma InsideKeepsOutside(t: TxState, es: seq<Event>)
    requires Deep(Step(t, Begin), es, |t.stack| + 1) && |Run(Step(t, Begin), es).stack| == |t.stack| + 1
    ensures var t' := Run(Step(t, Begin), es); t'.db == t.db && t'.stack[1..] == Around(t, es).stack
  {
    OuterAfter(Step(t, Begin), es, |t.stack|);
    assert Outermost(Step(t, Begin), |t.stack|) == t.stack;
  }

  /**
   * A rollback restores everything as it was at the begin that it belongs to: the transactions around it, what
   * they see and the database; after a deadlock, the transactions around it have ended too.
   */
  lemma RollbackRestores(t: TxState, es: seq<Event>)
    requires Deep(Step(t, Begin), es, |t.stack| + 1) && |Run(Step(t, Begin), es).stack| == |t.stack| + 1
    ensures Run(t, Enclosed(es, Pop)) == Around(t, es)
  {
    InsideKeepsOutside(t, es);
    RunEnclosed(t, es, Pop);
  }

  /** So inside a running transaction it restores everything iff there was no deadlock, and always outside of all. */
  lemma RollbackRestoresAll(t: TxState, es: seq<Event>)
    requires Deep(Step(t, Begin), es, |t.stack| + 1) && |Run(Step(t, Begin), es).stack| == |t.stack| + 1
    ensures t.stack == [] ==> Run(t, Enclosed(es, Pop)) == t
    ensures t.stack != [] && t.stack[0].running ==> (Run(t, Enclosed(es, Pop)) == t <==> AbortAll !in es)
  {
    RollbackRestores(t, es);
    assert t.stack != [] ==> Step(t, AbortAll).stack[0] == Tx(t.db, false);
  }

  /** The state in which the innermost transaction, or the database without any, has this version. */
  function WithView(t: TxState, view: Db): TxState {
    if t.stack == [] then TxState(view, []) else t.(stack := [t.stack[0].(view := view)] + t.stack[1..])
  }

  /**
   * A commit passes what the transaction sees to its parent, and nothing else changes but for deadlocks before;
   * only the commit of an outermost transaction changes the database.
   */
  lemma CommitAffectsParent(t: TxState, es: seq<Event>)
    requires Deep(Step(t, Begin), es, |t.stack| + 1) && |Run(Step(t, Begin), es).stack| == |t.stack| + 1
    ensures Run(t, Enclosed(es, Commit)) == WithView(Around(t, es), Current(Run(Step(t, Begin), es)))
  {
    InsideKeepsOutside(t, es);
    RunEnclosed(t, es, Commit);
    var r := Run(Step(t, Begin), es);
    assert |Around(t, es).stack| == |t.stack|;
    if t.stack != [] {
      assert r.stack[1..][0] == r.stack[1] && r.stack[1..][1..] == r.stack[2..];
    }
  }

  lemma StepEndsNothing(t: TxState, e: Event, n: nat)
    requires (n == 0 || n < |t.stack|) && e != Commit && e != Pop
    ensures var t' := Step(t, e);
      t'.db == t.db && |t'.stack| >= |t.stack| && Outermost(t', n) == Survivors(t, [e], n)
  {
    StepGrows(t, e);
    hide Step;
    if n == 0 {
      assert Outermost(Step(t, e), 0) == [] == Survivors(t, [e], 0);
    } else {
      StepSurvivors(t, e, n);
    }
  }

  lemma StepGrows(t: TxState, e: Event)
    requires e != Commit && e != Pop
    ensures Step(t, e).db == t.db && |Step(t, e).stack| >= |t.stack|
  {}

  /**
   * Without commits and rollbacks the database stays as it is, and the n outermost transactions do but for a
   * deadlock.
   */
  lemma {:induction false} NothingEnded(t: TxState, es: seq<Event>, n: nat)
    requires n == 0 || n < |t.stack|
    requires forall i :: 0 <= i < |es| ==> es[i] != Commit && es[i] != Pop
    ensures var t' := Run(t, es); t'.db == t.db && |t'.stack| >= |t.stack| && Outermost(t', n) == Survivors(t, es, n)
    decreases |es|
  {
    hide Step, Outermost, Survivors;
    if es == [] {
      NoneEnded(t, n);
    } else {
      StepEndsNothing(t, es[0], n);
      SurvivorsStep(t, es[0], es, n);
      NothingEnded(Step(t, es[0]), es[1..], n);
    }
  }

  function Pops(n: nat): seq<Event> {
    seq(n, i => Pop)
  }

  lemma {:induction false} PopsEmpty(t: TxState)
    ensures Run(t, Pops(|t.stack|)) == t.(stack := [])
    decreases |t.stack|
  {
    if t.stack != [] {
      assert Pops(|t.stack|)[1..] == Pops(|t.stack| - 1);
      PopsEmpty(Step(t, Pop));
    }
  }

  /** Rolling all transactions back restores the database as it was when the outermost one began. */
  lemma RollbackAllRestores(db: Db, es: seq<Event>)
    requires Deep(Step(TxState(db, []), Begin), es, 1)
    ensures var t := Run(Step(TxState(db, []), Begin), es); Run(t, Pops(|t.stack|)) == TxState(db, [])
  {
    OuterAfter(Step(TxState(db, []), Begin), es, 0);
    PopsEmpty(Run(Step(TxState(db, []), Begin), es));
  }
}
