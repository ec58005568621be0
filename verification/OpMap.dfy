/** The operator map (obj/opmap.c): a chain of overloads for each operator name. */
module OperatorMap {
  import opened ByteStrings
  import opened Options
  import opened Types
  import opened Subtyping

  /** No parameter type: matches every argument. */
  datatype Params = Fixed(types: seq<Option<Type>>) | Variable

  datatype Operator = Operator(id: nat, name: Name, params: Params)

  datatype LookupError = OperatorNotFound | ArgumentMismatch

  // ----- Lookup in a chain -----

  predicate ArgMatches(g: Graph, arg: Option<Type>, param: Option<Type>)
    requires g.Acyclic()
  {
    param.None? || arg.None? || IsSubtype(g, arg.value, param.value)
  }

  predicate Matches(g: Graph, op: Operator, args: seq<Option<Type>>)
    requires g.Acyclic()
  {
    op.params.Fixed? && |op.params.types| == |args| &&
    forall i :: 0 <= i < |args| ==> ArgMatches(g, args[i], op.params.types[i])
  }

  predicate SameCount(op: Operator, args: seq<Option<Type>>) {
    op.params.Fixed? && |op.params.types| == |args|
  }

  function FirstMatch(g: Graph, chain: seq<Operator>, args: seq<Option<Type>>): Option<Operator>
    requires g.Acyclic()
  {
    if chain == [] then None
    else if Matches(g, chain[0], args) then Some(chain[0])
    else FirstMatch(g, chain[1..], args)
  }

  function FirstVariable(chain: seq<Operator>): Option<Operator> {
    if chain == [] then None
    else if chain[0].params.Variable? then Some(chain[0])
    else FirstVariable(chain[1..])
  }

  predicate AnySameCount(chain: seq<Operator>, args: seq<Option<Type>>) {
    chain != [] && (SameCount(chain[0], args) || AnySameCount(chain[1..], args))
  }

  function Lookup(g: Graph, chain: seq<Operator>, args: seq<Option<Type>>): Result<Operator, LookupError>
    requires g.Acyclic()
  {
    var m := FirstMatch(g, chain, args);
    if m.Some? then Ok(m.value)
    else
      var v := FirstVariable(chain);
      if v.Some? then Ok(v.value)
      else if AnySameCount(chain, args) then Err(ArgumentMismatch)
      else Err(OperatorNotFound)
  }

  /** A new operator goes to the second place. */
  function Inserted(chain: seq<Operator>, op: Operator): seq<Operator> {
    if chain == [] then [op] else [chain[0], op] + chain[1..]
  }

  predicate IsComparison(op: Operator, typ: Type) {
    op.params.Fixed? && |op.params.types| == 2 && op.params.types[0] == Some(typ)
  }

  /** The chain without its first comparison operator for the type. */
  function WithoutComparison(chain: seq<Operator>, typ: Type): seq<Operator> {
    if chain == [] then []
    else if IsComparison(chain[0], typ) then chain[1..]
    else [chain[0]] + WithoutComparison(chain[1..], typ)
  }

  lemma {:induction false} WithoutFirst(chain: seq<Operator>, typ: Type, i: nat)
    requires i <= |chain| && forall k :: 0 <= k < i ==> !IsComparison(chain[k], typ)
    ensures i == |chain| ==> WithoutComparison(chain, typ) == chain
    ensures i < |chain| && IsComparison(chain[i], typ) ==>
      WithoutComparison(chain, typ) == chain[..i] + chain[i + 1..]
  {
    if i > 0 {
      WithoutFirst(chain[1..], typ, i - 1);
      assert chain == [chain[0]] + chain[1..];
    }
  }

  class OpMap {
    var ops: map<Name, seq<Operator>>

    constructor ()
      ensures ops == map[]
    {
      ops := map[];
    }

    function Chain(name: Name): seq<Operator>
      reads this
    {
      if name in ops then ops[name] else []
    }

    method PutOp(op: Operator)
      modifies this
      ensures Chain(op.name) == Inserted(old(Chain(op.name)), op)
      ensures forall n :: n != op.name ==> Chain(n) == old(Chain(n))
    {
      var fopep := if op.name in ops then ops[op.name] else [];
      if fopep == [] {
        ops := ops[op.name := [op]];
      } else {
        ops := ops[op.name := fopep[..1] + [op] + fopep[1..]];
      }
    }

    method GetOp(g: Graph, name: Name, args: seq<Option<Type>>) returns (r: Result<Operator, LookupError>)
      requires g.Acyclic()
      ensures r == Lookup(g, Chain(name), args)
    {
      var chain := if name in ops then ops[name] else [];
      if chain == [] {
        return Err(OperatorNotFound);
      }
      var argcMatch := false;
      var i := 0;
      while i < |chain|
        invariant i <= |chain|
        invariant FirstMatch(g, chain, args) == FirstMatch(g, chain[i..], args)
        invariant AnySameCount(chain, args) <==> argcMatch || AnySameCount(chain[i..], args)
      {
        assert chain[i..][1..] == chain[i + 1..];
        if SameCount(chain[i], args) {
          var types := chain[i].params.types;
          var k := 0;
          while k < |args| && ArgMatches(g, args[k], types[k])
            invariant k <= |args| && forall l :: 0 <= l < k ==> ArgMatches(g, args[l], types[l])
          {
            k := k + 1;
          }
          if k == |args| {
            return Ok(chain[i]);
          }
          argcMatch := true;
        }
        i := i + 1;
      }
      i := 0;
      while i < |chain|
        invariant i <= |chain|
        invariant FirstVariable(chain) == FirstVariable(chain[i..])
      {
        assert chain[i..][1..] == chain[i + 1..];
        if chain[i].params.Variable? {
          return Ok(chain[i]);
        }
        i := i + 1;
      }
      return Err(if argcMatch then ArgumentMismatch else OperatorNotFound);
    }

    method DelCmpOp(name: Name, typ: Type)
      modifies this
      ensures Chain(name) == WithoutComparison(old(Chain(name)), typ)
      ensures forall n :: n != name ==> Chain(n) == old(Chain(n))
    {
      var chain := if name in ops then ops[name] else [];
      var i := 0;
      while i < |chain|
        invariant i <= |chain| && ops == old(ops)
        invariant forall k :: 0 <= k < i ==> !IsComparison(chain[k], typ)
      {
        if IsComparison(chain[i], typ) {
          WithoutFirst(chain, typ, i);
          ops := ops[name := chain[..i] + chain[i + 1..]];
          return;
        }
        i := i + 1;
      }
      WithoutFirst(chain, typ, i);
    }

    method DelOps(name: Name)
      modifies this
      ensures Chain(name) == [] && forall n :: n != name ==> Chain(n) == old(Chain(n))
    {
      if name in ops {
        ops := ops[name := []];
      }
    }
  }

  // ----- What overloading guarantees -----

  /** Each argument type is a subtype of the other at the same position; an unknown type stays unknown. */
  ghost predicate PointwiseSubtypes(g: Graph, args': seq<Option<Type>>, args: seq<Option<Type>>)
    requires g.Acyclic()
  {
    |args'| == |args| && forall i :: 0 <= i < |args| ==>
      args[i].Some? == args'[i].Some? &&
      (args[i].Some? ==>
        WellFormed(args[i].value) && WellFormed(args'[i].value) && IsSubtype(g, args'[i].value, args[i].value))
  }

  ghost predicate WellFormedParams(op: Operator) {
    op.params.Fixed? ==> forall t :: t in op.params.types && t.Some? ==> WellFormed(t.value)
  }

  ghost predicate WellFormedArgs(args: seq<Option<Type>>) {
    forall t :: t in args && t.Some? ==> WellFormed(t.value)
  }

  /** The operator has as many parameters as there are arguments, each with a type that is at most its own, if known. */
  ghost predicate Accepts(g: Graph, op: Operator, args: seq<Option<Type>>) {
    op.params.Fixed? && |op.params.types| == |args| &&
    forall i :: 0 <= i < |args| ==> args[i].Some? && op.params.types[i].Some? ==>
      SubMeaning(g, MeaningOf(args[i].value), MeaningOf(op.params.types[i].value))
  }

  lemma MatchesIsAccepts(g: Graph, op: Operator, args: seq<Option<Type>>)
    requires g.Acyclic() && WellFormedParams(op) && WellFormedArgs(args)
    ensures Matches(g, op, args) <==> Accepts(g, op, args)
  {
    if op.params.Fixed? && |op.params.types| == |args| {
      forall i | 0 <= i < |args| && args[i].Some? && op.params.types[i].Some?
        ensures ArgMatches(g, args[i], op.params.types[i]) <==>
                SubMeaning(g, MeaningOf(args[i].value), MeaningOf(op.params.types[i].value)) {
        assert args[i] in args && op.params.types[i] in op.params.types;
        SubtypeIsSubMeaning(g, args[i].value, op.params.types[i].value);
      }
    }
  }

  /**
   * The operator at this place answers the lookup: it is the first that accepts the arguments, or, if none does, the
   * first for any number of arguments.
   */
  ghost predicate Answers(g: Graph, chain: seq<Operator>, args: seq<Option<Type>>, i: nat) {
    i < |chain| &&
    if exists k :: 0 <= k < |chain| && Accepts(g, chain[k], args) then
      Accepts(g, chain[i], args) && forall j :: 0 <= j < i ==> !Accepts(g, chain[j], args)
    else chain[i].params.Variable? && forall j :: 0 <= j < i ==> chain[j].params.Fixed?
  }

  lemma {:induction false} FirstMatchAt(g: Graph, chain: seq<Operator>, args: seq<Option<Type>>, i: nat)
    requires g.Acyclic() && i <= |chain| && forall j :: 0 <= j < i ==> !Matches(g, chain[j], args)
    ensures FirstMatch(g, chain, args) ==
      if i == |chain| then None
      else if Matches(g, chain[i], args) then Some(chain[i])
      else FirstMatch(g, chain[i + 1..], args)
  {
    if i > 0 {
      FirstMatchAt(g, chain[1..], args, i - 1);
    }
  }

  lemma {:induction false} FirstVariableAt(chain: seq<Operator>, i: nat)
    requires i <= |chain| && forall j :: 0 <= j < i ==> chain[j].params.Fixed?
    ensures FirstVariable(chain) ==
      if i == |chain| then None
      else if chain[i].params.Variable? then Some(chain[i])
      else FirstVariable(chain[i + 1..])
  {
    if i > 0 {
      FirstVariableAt(chain[1..], i - 1);
    }
  }

  lemma {:induction false} AnySameCountIs(chain: seq<Operator>, args: seq<Option<Type>>)
    ensures AnySameCount(chain, args) <==> exists i :: 0 <= i < |chain| && SameCount(chain[i], args)
  {
    if chain != [] {
      AnySameCountIs(chain[1..], args);
      if i :| 0 < i < |chain| && SameCount(chain[i], args) {
        assert SameCount(chain[1..][i - 1], args);
      }
      if i :| 0 <= i < |chain| - 1 && SameCount(chain[1..][i], args) {
        assert SameCount(chain[i + 1], args);
      }
    }
  }

  lemma LookupAnswer(g: Graph, chain: seq<Operator>, args: seq<Option<Type>>, i: nat)
    requires g.Acyclic() && WellFormedArgs(args) && (forall op :: op in chain ==> WellFormedParams(op))
    requires Answers(g, chain, args, i)
    ensures Lookup(g, chain, args) == Ok(chain[i])
  {
    forall k | 0 <= k < |chain| ensures Matches(g, chain[k], args) <==> Accepts(g, chain[k], args) {
      MatchesIsAccepts(g, chain[k], args);
    }
    hide Accepts, Matches;
    if Accepts(g, chain[i], args) {
      FirstMatchAt(g, chain, args, i);
    } else {
      FirstMatchAt(g, chain, args, |chain|);
      FirstVariableAt(chain, i);
    }
  }

  /** The first place where a property holds. */
  lemma FirstPlace<T>(s: seq<T>, p: T -> bool) returns (i: nat)
    ensures i <= |s| && (forall j :: 0 <= j < i ==> !p(s[j])) && (i < |s| ==> p(s[i]))
  {
    i := 0;
    while i < |s| && !p(s[i])
      invariant i <= |s| && forall j :: 0 <= j < i ==> !p(s[j])
    {
      i := i + 1;
    }
  }

  /**
   * A lookup gives the operator that answers it. If none does, the error is a mismatch iff some operator has as many
   * parameters as there are arguments; an empty chain gives "not found".
   */
  lemma LookupMeans(g: Graph, chain: seq<Operator>, args: seq<Option<Type>>)
    requires g.Acyclic() && WellFormedArgs(args) && (forall op :: op in chain ==> WellFormedParams(op))
    ensures forall i: nat :: Answers(g, chain, args, i) ==> Lookup(g, chain, args) == Ok(chain[i])
    ensures (forall i: nat :: !Answers(g, chain, args, i)) ==>
      Lookup(g, chain, args) ==
        if exists i :: 0 <= i < |chain| && chain[i].params.Fixed? && |chain[i].params.types| == |args| then
          Err(ArgumentMismatch)
        else Err(OperatorNotFound)
  {
    forall i: nat | Answers(g, chain, args, i) ensures Lookup(g, chain, args) == Ok(chain[i]) {
      LookupAnswer(g, chain, args, i);
    }
    if forall i: nat :: !Answers(g, chain, args, i) {
      NoAnswer(g, chain, args);
    }
  }

  lemma NoAnswer(g: Graph, chain: seq<Operator>, args: seq<Option<Type>>)
    requires g.Acyclic() && WellFormedArgs(args) && (forall op :: op in chain ==> WellFormedParams(op))
    requires forall i: nat :: !Answers(g, chain, args, i)
    ensures Lookup(g, chain, args) ==
      if exists i :: 0 <= i < |chain| && SameCount(chain[i], args) then Err(ArgumentMismatch) else Err(OperatorNotFound)
  {
    var i := FirstPlace(chain, op => Matches(g, op, args));
    var j := FirstPlace(chain, (op: Operator) => op.params.Variable?);
    forall k | 0 <= k < |chain| ensures Matches(g, chain[k], args) <==> Accepts(g, chain[k], args) {
      MatchesIsAccepts(g, chain[k], args);
    }
    assert !Answers(g, chain, args, i) && !Answers(g, chain, args, j);
    FirstMatchAt(g, chain, args, i);
    FirstVariableAt(chain, j);
    AnySameCountIs(chain, args);
  }

  lemma MatchesSubtypes(g: Graph, op: Operator, args: seq<Option<Type>>, args': seq<Option<Type>>)
    requires g.Acyclic() && WellFormedParams(op) && PointwiseSubtypes(g, args', args) && Matches(g, op, args)
    ensures Matches(g, op, args')
  {
    forall i | 0 <= i < |args'| ensures ArgMatches(g, args'[i], op.params.types[i]) {
      assert ArgMatches(g, args[i], op.params.types[i]);
      if args[i].Some? && op.params.types[i].Some? {
        assert op.params.types[i] in op.params.types;
        SubtypingIsOrder(g, args'[i].value, args[i].value, op.params.types[i].value);
      }
    }
  }

  /** If lookup succeeds, it succeeds for arguments of any subtypes. */
  lemma {:induction false} LookupMonotone(g: Graph, chain: seq<Operator>, args: seq<Option<Type>>,
                                          args': seq<Option<Type>>)
    requires g.Acyclic() && (forall op :: op in chain ==> WellFormedParams(op)) && PointwiseSubtypes(g, args', args)
    ensures FirstMatch(g, chain, args).Some? ==> FirstMatch(g, chain, args').Some?
    ensures Lookup(g, chain, args).Ok? ==> Lookup(g, chain, args').Ok?
  {
    if chain != [] {
      if Matches(g, chain[0], args) {
        MatchesSubtypes(g, chain[0], args, args');
      } else {
        LookupMonotone(g, chain[1..], args, args');
      }
    }
  }

  /**
   * What adding an operator does to a lookup. If the new operator takes these arguments it is found, unless
   * the one that was there first takes them too. If it does not take them and is not for any number of
   * arguments, the operator found stays the same, and so does the error, except that a new operator with
   * the right number of arguments turns "not found" into a mismatch. If it is for any number of arguments, it is
   * found where no other operator takes the arguments, unless the one that was there first is such an operator too.
   */
  lemma AddedOperator(g: Graph, chain: seq<Operator>, op: Operator, args: seq<Option<Type>>)
    requires g.Acyclic()
    ensures var r, r' := Lookup(g, chain, args), Lookup(g, Inserted(chain, op), args);
      && (Matches(g, op, args) ==> r' == Ok(if chain != [] && Matches(g, chain[0], args) then chain[0] else op))
      && (!Matches(g, op, args) && op.params.Fixed? ==>
           r' == if r == Err(OperatorNotFound) && SameCount(op, args) then Err(ArgumentMismatch) else r)
      && (op.params.Variable? ==>
           r' == if FirstMatch(g, chain, args).Some? then r
                 else Ok(if chain != [] && chain[0].params.Variable? then chain[0] else op))
  {
    var chain' := Inserted(chain, op);
    if chain == [] {
      assert chain'[1..] == [];
    } else {
      var rest := chain[1..];
      assert chain'[1..] == [op] + rest && ([op] + rest)[1..] == rest && ([op] + rest)[0] == op;
      assert FirstMatch(g, chain', args) == if Matches(g, chain[0], args)
        then Some(chain[0]) else FirstMatch(g, [op] + rest, args);
      assert FirstVariable(chain') == if chain[0].params.Variable? then Some(chain[0]) else FirstVariable([op] + rest);
      assert AnySameCount(chain', args) <==> SameCount(chain[0], args) || AnySameCount([op] + rest, args);
    }
  }

  /**
   * What is deleted is the first operator with two parameters of which the first has this type, and nothing else.
   */
  lemma DeletesFirst(chain: seq<Operator>, typ: Type)
    ensures var comparison := (op: Operator) =>
        op.params.Fixed? && |op.params.types| == 2 && op.params.types[0] == Some(typ);
      ((forall i :: 0 <= i < |chain| ==> !comparison(chain[i])) ==> WithoutComparison(chain, typ) == chain) &&
      forall i :: 0 <= i < |chain| && comparison(chain[i]) && (forall j :: 0 <= j < i ==> !comparison(chain[j])) ==>
        WithoutComparison(chain, typ) == chain[..i] + chain[i + 1..]
  {
    forall i: nat | i <= |chain| && forall j :: 0 <= j < i ==> !IsComparison(chain[j], typ)
      ensures i == |chain| ==> WithoutComparison(chain, typ) == chain
      ensures i < |chain| && IsComparison(chain[i], typ) ==>
        WithoutComparison(chain, typ) == chain[..i] + chain[i + 1..] {
      WithoutFirst(chain, typ, i);
    }
  }

  /** Deleting a comparison operator leaves every lookup alone that it did not answer. */
  lemma {:induction false} DeletedComparison(g: Graph, chain: seq<Operator>, typ: Type, args: seq<Option<Type>>)
    requires g.Acyclic()
    ensures var m := FirstMatch(g, chain, args);
      m.Some? && !IsComparison(m.value, typ) ==> FirstMatch(g, WithoutComparison(chain, typ), args) == m
    ensures FirstVariable(WithoutComparison(chain, typ)) == FirstVariable(chain)
    ensures forall op :: op in WithoutComparison(chain, typ) ==> op in chain
  {
    if chain != [] {
      DeletedComparison(g, chain[1..], typ, args);
      if !IsComparison(chain[0], typ) {
        assert WithoutComparison(chain, typ)[1..] == WithoutComparison(chain[1..], typ);
      }
    }
  }
}
