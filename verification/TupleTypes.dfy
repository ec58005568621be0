/** Union, projection and renaming of tuple types (obj/type.c), on their attribute lists. */
module TupleTypes {
  import opened ByteStrings
  import opened Options
  import opened Renamings
  import opened Types

  // ----- Lists of attributes and their headings -----

  lemma {:induction false} HeadingConcat(a: seq<Attr>, b: seq<Attr>)
    ensures Heading(a + b) == Heading(b) + Heading(a)
  {
    if a == [] {
      assert a + b == b;
    } else {
      assert (a + b)[1..] == a[1..] + b;
      HeadingConcat(a[1..], b);
    }
  }

  lemma {:induction false} DistinctConcat(a: seq<Attr>, b: seq<Attr>)
    ensures Names(a + b) == Names(a) + Names(b)
    ensures DistinctNames(a + b) <==> DistinctNames(a) && DistinctNames(b) && Names(a) !! Names(b)
  {
    assert Names(a + b) == Names(a) + Names(b);
    if a == [] {
      assert a + b == b;
    } else {
      assert (a + b)[1..] == a[1..] + b;
      DistinctConcat(a[1..], b);
      NamesStep(a);
    }
  }

  lemma WellFormedConcat(a: seq<Attr>, b: seq<Attr>)
    ensures WellFormed(Tuple(a + b)) <==> WellFormed(Tuple(a)) && WellFormed(Tuple(b)) && Names(a) !! Names(b)
  {
    DistinctConcat(a, b);
    assert forall x :: x in a + b <==> x in a || x in b;
  }

  /** Some attributes of a well-formed tuple type, with distinct names. */
  lemma WellFormedPart(attrs: seq<Attr>, part: seq<Attr>)
    requires WellFormed(Tuple(attrs)) && DistinctNames(part) && forall a :: a in part ==> a in attrs
    ensures WellFormed(Tuple(part))
  {}

  /** Attributes taken from a list, as many as it has and with distinct names, make up an equal tuple type. */
  lemma SameAttributes(a: seq<Attr>, b: seq<Attr>)
    requires WellFormed(Tuple(a)) && DistinctNames(b) && |a| == |b| && forall x :: x in b ==> x in a
    ensures WellFormed(Tuple(b)) && Heading(b) == Heading(a) && TypeEquals(Tuple(b), Tuple(a))
  {
    HeadingKeys(b);
    forall n | n in Heading(b) ensures n in Heading(a) && Heading(a)[n] == Heading(b)[n] {
      var x :| x in b && x.name == n;
      HeadingAt(b, x);
      HeadingAt(a, x);
    }
    HeadingSize(a);
    HeadingSize(b);
    SubmapOfEqualSize(Heading(b), Heading(a));
    EqualsIsSameMeaning(Tuple(b), Tuple(a));
  }

  type Attrs = Result<seq<Attr>, TypeError>

  function Prefixed(acc: seq<Attr>, r: Attrs): Attrs {
    match r
    case Err(e) => Err(e)
    case Ok(more) => Ok(acc + more)
  }

  lemma PrefixedTwice(acc: seq<Attr>, a: seq<Attr>, r: Attrs)
    ensures Prefixed(acc, Prefixed(a, r)) == Prefixed(acc + a, r)
    ensures Prefixed([], r) == r
  {
    if r.Ok? {
      assert acc + (a + r.value) == acc + a + r.value;
      assert [] + r.value == r.value;
    }
  }

  // ----- Union -----

  /** The attributes of rest that a1 lacks, unless one that a1 has is of another type there. */
  function NewAttrs(a1: seq<Attr>, rest: seq<Attr>): Attrs {
    if rest == [] then Ok([])
    else
      var found := FindAttr(a1, rest[0].name);
      if found.Some? && !TypeEquals(rest[0].typ, found.value.typ) then Err(TypeMismatch)
      else Prefixed(if found.Some? then [] else [rest[0]], NewAttrs(a1, rest[1..]))
  }

  function UnionAttrs(a1: seq<Attr>, a2: seq<Attr>): Attrs {
    Prefixed(a1, NewAttrs(a1, a2))
  }

  method UnionTupleTypes(a1: seq<Attr>, a2: seq<Attr>) returns (r: Attrs)
    ensures r == UnionAttrs(a1, a2)
  {
    var attrv := a1;
    var i := 0;
    while i < |a2|
      invariant i <= |a2|
      invariant UnionAttrs(a1, a2) == Prefixed(attrv, NewAttrs(a1, a2[i..]))
    {
      assert a2[i..][1..] == a2[i + 1..];
      PrefixedTwice(attrv, [a2[i]], NewAttrs(a1, a2[i + 1..]));
      PrefixedTwice(attrv, [], NewAttrs(a1, a2[i + 1..]));
      assert attrv + [] == attrv;
      var j := 0;
      while j < |a1| && a2[i].name != a1[j].name
        invariant j <= |a1| && FindAttr(a1, a2[i].name) == FindAttr(a1[j..], a2[i].name)
      {
        assert a1[j..][1..] == a1[j + 1..];
        j := j + 1;
      }
      if j < |a1| {
        if !TypeEquals(a2[i].typ, a1[j].typ) {
          return Err(TypeMismatch);
        }
      } else {
        assert a1[j..] == [];
        attrv := attrv + [a2[i]];
      }
      i := i + 1;
    }
    assert a2[i..] == [] && attrv + [] == attrv;
    return Ok(attrv);
  }

  /** Attributes that two headings have in common have the same type. */
  ghost predicate Compatible<K, V>(m1: map<K, V>, m2: map<K, V>) {
    forall n :: n in m1 && n in m2 ==> m1[n] == m2[n]
  }

  lemma CompatibleStep<K, V>(m1: map<K, V>, m2: map<K, V>, k: K, v: V)
    requires k !in m2
    ensures Compatible(m1, m2[k := v]) <==> Compatible(m1, m2) && (k in m1 ==> m1[k] == v)
    ensures m2[k := v] - m1.Keys == if k in m1 then m2 - m1.Keys else (m2 - m1.Keys)[k := v]
  {
    var m := m2[k := v];
    assert m[k] == v;
    assert forall n :: n in m2 ==> n in m && m[n] == m2[n];
  }

  lemma CompatibleUnion<K, V>(m1: map<K, V>, m2: map<K, V>)
    requires Compatible(m1, m2)
    ensures (m2 - m1.Keys) + m1 == m1 + m2 == m2 + m1
  {}

  lemma {:induction false} NewAttrsMeans(a1: seq<Attr>, rest: seq<Attr>)
    requires WellFormed(Tuple(a1)) && WellFormed(Tuple(rest))
    ensures NewAttrs(a1, rest).Ok? <==> Compatible(Heading(a1), Heading(rest))
    ensures NewAttrs(a1, rest).Ok? ==> Heading(NewAttrs(a1, rest).value) == Heading(rest) - Heading(a1).Keys
  {
    if rest != [] {
      var a, tail := rest[0], rest[1..];
      NewAttrsMeans(a1, tail);
      HeadingKeys(a1);
      HeadingKeys(tail);
      CompatibleStep(Heading(a1), Heading(tail), a.name, MeaningOf(a.typ));
      var found := FindAttr(a1, a.name);
      if found.Some? {
        HeadingAt(a1, found.value);
        EqualsIsSameMeaning(a.typ, found.value.typ);
      }
      if NewAttrs(a1, rest).Ok? {
        var more := NewAttrs(a1, tail).value;
        assert [] + more == more && ([a] + more)[1..] == more;
      }
    }
  }

  /** The new attributes are some of those of rest, in the same order. */
  lemma {:induction false} NewAttrsWellFormed(a1: seq<Attr>, rest: seq<Attr>)
    requires DistinctNames(rest) && NewAttrs(a1, rest).Ok?
    ensures var more := NewAttrs(a1, rest).value;
      DistinctNames(more) && (forall a :: a in more ==> a in rest) && Names(more) !! Names(a1)
  {
    if rest != [] {
      var tail := rest[1..];
      NewAttrsWellFormed(a1, tail);
      var more := NewAttrs(a1, tail).value;
      assert ([rest[0]] + more)[1..] == more && [] + more == more;
      assert rest == [rest[0]] + tail;
    }
  }

  /** The union of two tuple types exists iff they are compatible; it has the attributes of both. */
  lemma UnionMeans(a1: seq<Attr>, a2: seq<Attr>)
    requires WellFormed(Tuple(a1)) && WellFormed(Tuple(a2))
    ensures UnionAttrs(a1, a2).Ok? <==> Compatible(Heading(a1), Heading(a2))
    ensures UnionAttrs(a1, a2).Ok? ==>
      && WellFormed(Tuple(UnionAttrs(a1, a2).value))
      && Heading(UnionAttrs(a1, a2).value) == Heading(a1) + Heading(a2)
  {
    NewAttrsMeans(a1, a2);
    if NewAttrs(a1, a2).Ok? {
      var more := NewAttrs(a1, a2).value;
      NewAttrsWellFormed(a1, a2);
      HeadingConcat(a1, more);
      DistinctConcat(a1, more);
      CompatibleUnion(Heading(a1), Heading(a2));
    }
  }

  /** Both fail, or both succeed with equal tuple types. */
  ghost predicate SameOutcome(r1: Attrs, r2: Attrs) {
    r1.Ok? == r2.Ok? && (r1.Ok? ==> TypeEquals(Tuple(r1.value), Tuple(r2.value)))
  }

  ghost function UnionLeft(a: seq<Attr>, b: seq<Attr>, c: seq<Attr>): Attrs {
    var ab := UnionAttrs(a, b);
    if ab.Err? then ab else UnionAttrs(ab.value, c)
  }

  ghost function UnionRight(a: seq<Attr>, b: seq<Attr>, c: seq<Attr>): Attrs {
    var bc := UnionAttrs(b, c);
    if bc.Err? then bc else UnionAttrs(a, bc.value)
  }

  lemma UnionIdempotent(a: seq<Attr>)
    requires WellFormed(Tuple(a))
    ensures SameOutcome(UnionAttrs(a, a), Ok(a))
  {
    UnionMeans(a, a);
    EqualsIsSameMeaning(Tuple(UnionAttrs(a, a).value), Tuple(a));
  }

  lemma UnionCommutes(a: seq<Attr>, b: seq<Attr>)
    requires WellFormed(Tuple(a)) && WellFormed(Tuple(b))
    ensures SameOutcome(UnionAttrs(a, b), UnionAttrs(b, a))
  {
    UnionMeans(a, b);
    UnionMeans(b, a);
    if UnionAttrs(a, b).Ok? {
      CompatibleUnion(Heading(a), Heading(b));
      EqualsIsSameMeaning(Tuple(UnionAttrs(a, b).value), Tuple(UnionAttrs(b, a).value));
    }
  }

  /** Union is associative, failures included. */
  lemma UnionAssociates(a: seq<Attr>, b: seq<Attr>, c: seq<Attr>)
    requires WellFormed(Tuple(a)) && WellFormed(Tuple(b)) && WellFormed(Tuple(c))
    ensures SameOutcome(UnionLeft(a, b, c), UnionRight(a, b, c))
  {
    hide UnionLeft, UnionRight;
    LeftUnionMeans(a, b, c);
    RightUnionMeans(a, b, c);
    var l, r := UnionLeft(a, b, c), UnionRight(a, b, c);
    if l.Ok? {
      MapUnionAssociates(Heading(a), Heading(b), Heading(c));
      EqualsIsSameMeaning(Tuple(l.value), Tuple(r.value));
    }
  }

  lemma MapUnionAssociates<K, V>(a: map<K, V>, b: map<K, V>, c: map<K, V>)
    ensures a + b + c == a + (b + c)
  {}

  ghost predicate AllCompatible(a: seq<Attr>, b: seq<Attr>, c: seq<Attr>) {
    && Compatible(Heading(a), Heading(b)) && Compatible(Heading(b), Heading(c)) && Compatible(Heading(a), Heading(c))
  }

  lemma LeftUnionMeans(a: seq<Attr>, b: seq<Attr>, c: seq<Attr>)
    requires WellFormed(Tuple(a)) && WellFormed(Tuple(b)) && WellFormed(Tuple(c))
    ensures var l := UnionLeft(a, b, c);
      && (l.Ok? <==> AllCompatible(a, b, c))
      && (l.Ok? ==> WellFormed(Tuple(l.value)) && Heading(l.value) == Heading(a) + Heading(b) + Heading(c))
  {
    UnionMeans(a, b);
    if UnionAttrs(a, b).Ok? {
      UnionMeans(UnionAttrs(a, b).value, c);
      CompatibleWithUnion(Heading(a), Heading(b), Heading(c));
    }
  }

  lemma RightUnionMeans(a: seq<Attr>, b: seq<Attr>, c: seq<Attr>)
    requires WellFormed(Tuple(a)) && WellFormed(Tuple(b)) && WellFormed(Tuple(c))
    ensures var r := UnionRight(a, b, c);
      && (r.Ok? <==> AllCompatible(a, b, c))
      && (r.Ok? ==> WellFormed(Tuple(r.value)) && Heading(r.value) == Heading(a) + (Heading(b) + Heading(c)))
  {
    UnionMeans(b, c);
    if UnionAttrs(b, c).Ok? {
      UnionMeans(a, UnionAttrs(b, c).value);
      CompatibleWithUnion(Heading(b), Heading(c), Heading(a));
    }
  }

  lemma CompatibleWithUnion<K, V>(m1: map<K, V>, m2: map<K, V>, m: map<K, V>)
    requires Compatible(m1, m2)
    ensures Compatible(m1 + m2, m) <==> Compatible(m1, m) && Compatible(m2, m)
    ensures Compatible(m, m1 + m2) <==> Compatible(m, m1) && Compatible(m, m2)
  {
    var u := m1 + m2;
    assert forall n :: n in m1 ==> n in u && u[n] == m1[n];
    assert forall n :: n in m2 ==> n in u && u[n] == m2[n];
  }

  // ----- Projection -----

  function ProjectAttrs(attrs: seq<Attr>, names: seq<Name>): Attrs {
    if names == [] then Ok([])
    else
      var found := FindAttr(attrs, names[0]);
      if found.None? then Err(NoSuchName(names[0]))
      else Prefixed([found.value], ProjectAttrs(attrs, names[1..]))
  }

  method ProjectTupleType(attrs: seq<Attr>, names: seq<Name>) returns (r: Attrs)
    ensures r == ProjectAttrs(attrs, names)
  {
    var attrv: seq<Attr> := [];
    PrefixedTwice([], [], ProjectAttrs(attrs, names));
    for i := 0 to |names|
      invariant ProjectAttrs(attrs, names) == Prefixed(attrv, ProjectAttrs(attrs, names[i..]))
    {
      assert names[i..][1..] == names[i + 1..];
      var attrp := TupleTypeAttr(attrs, names[i]);
      if attrp.None? {
        return Err(NoSuchName(names[i]));
      }
      PrefixedTwice(attrv, [attrp.value], ProjectAttrs(attrs, names[i + 1..]));
      attrv := attrv + [attrp.value];
    }
    assert names[|names|..] == [] && attrv + [] == attrv;
    return Ok(attrv);
  }

  ghost predicate NoRepeats(names: seq<Name>) {
    names == [] || (names[0] !in names[1..] && NoRepeats(names[1..]))
  }

  lemma {:induction false} NoRepeatsBySize(names: seq<Name>)
    ensures |set n | n in names| <= |names|
    ensures NoRepeats(names) <==> |set n | n in names| == |names|
  {
    if names != [] {
      NoRepeatsBySize(names[1..]);
      assert names == [names[0]] + names[1..];
      assert (set n | n in names) == (set n | n in names[1..]) + {names[0]};
    }
  }

  /** Projection succeeds iff all names are attributes; it keeps the order of the names. */
  lemma {:induction false} ProjectMeans(attrs: seq<Attr>, names: seq<Name>)
    ensures ProjectAttrs(attrs, names).Ok? <==> forall n :: n in names ==> n in Names(attrs)
    ensures ProjectAttrs(attrs, names).Ok? ==>
      var p := ProjectAttrs(attrs, names).value;
      && |p| == |names| && (forall i :: 0 <= i < |p| ==> p[i] in attrs && p[i].name == names[i])
      && Names(p) == (set n | n in names)
      && (DistinctNames(p) <==> NoRepeats(names))
  {
    if names != [] {
      ProjectMeans(attrs, names[1..]);
      assert names == [names[0]] + names[1..];
      if ProjectAttrs(attrs, names).Ok? {
        var p := ProjectAttrs(attrs, names).value;
        assert p[1..] == ProjectAttrs(attrs, names[1..]).value;
        NamesStep(p);
        assert (set n | n in names) == (set n | n in names[1..]) + {names[0]};
      }
    }
  }

  /** The first of the names that is not that of an attribute is at this place. */
  ghost predicate MissingAt(attrs: seq<Attr>, names: seq<Name>, i: nat) {
    i < |names| && names[i] !in Names(attrs) && forall j :: 0 <= j < i ==> names[j] in Names(attrs)
  }

  /** A failing projection reports the first name that is not that of an attribute. */
  lemma {:induction false} ProjectFails(attrs: seq<Attr>, names: seq<Name>)
    requires ProjectAttrs(attrs, names).Err?
    ensures exists i: nat :: MissingAt(attrs, names, i) && ProjectAttrs(attrs, names).error == NoSuchName(names[i])
  {
    if names[0] in Names(attrs) {
      var rest := names[1..];
      ProjectFails(attrs, rest);
      var i: nat :| MissingAt(attrs, rest, i) && ProjectAttrs(attrs, rest).error == NoSuchName(rest[i]);
      forall j | 0 <= j < i + 1 ensures names[j] in Names(attrs) {
        assert j > 0 ==> rest[j - 1] == names[j];
      }
      assert MissingAt(attrs, names, i + 1);
    } else {
      assert MissingAt(attrs, names, 0);
    }
  }

  /** The part of a heading with these names. */
  function Restrict<T>(h: map<Name, T>, names: set<Name>): map<Name, T> {
    map n | n in names && n in h :: h[n]
  }

  /** Attributes taken from a list, with distinct names, mean what they mean there. */
  lemma HeadingOfPart(attrs: seq<Attr>, part: seq<Attr>)
    requires DistinctNames(attrs) && DistinctNames(part) && forall a :: a in part ==> a in attrs
    ensures Heading(part) == Restrict(Heading(attrs), Names(part))
  {
    HeadingKeys(attrs);
    HeadingKeys(part);
    forall n | n in Names(part) ensures n in Heading(attrs) && Heading(part)[n] == Heading(attrs)[n] {
      var a :| a in part && a.name == n;
      HeadingAt(part, a);
      HeadingAt(attrs, a);
    }
  }

  /** Projecting a list on names it carries in this order gives back the attributes that carry them. */
  lemma {:induction false} ProjectOnNames(attrs: seq<Attr>, part: seq<Attr>)
    requires DistinctNames(attrs) && forall a :: a in part ==> a in attrs
    ensures ProjectAttrs(attrs, NameList(part)) == Ok(part)
  {
    if part != [] {
      var names, tail := NameList(part), part[1..];
      assert part == [part[0]] + tail;
      ProjectOnNames(attrs, tail);
      FindOwn(attrs, part[0]);
      assert names[1..] == NameList(tail) && names[0] == part[0].name;
    }
  }

  lemma {:induction false} FindOwn(attrs: seq<Attr>, a: Attr)
    requires DistinctNames(attrs) && a in attrs
    ensures FindAttr(attrs, a.name) == Some(a)
  {
    if a != attrs[0] {
      assert a in attrs[1..];
      assert a.name in Names(attrs[1..]);
      FindOwn(attrs[1..], a);
    }
  }

  function NameList(attrs: seq<Attr>): (names: seq<Name>)
    ensures |names| == |attrs| && forall i :: 0 <= i < |attrs| ==> names[i] == attrs[i].name
  {
    if attrs == [] then [] else [attrs[0].name] + NameList(attrs[1..])
  }

  lemma {:induction false} NameListMeans(attrs: seq<Attr>)
    ensures (set n | n in NameList(attrs)) == Names(attrs)
    ensures NoRepeats(NameList(attrs)) <==> DistinctNames(attrs)
  {
    if attrs != [] {
      NameListMeans(attrs[1..]);
      NamesStep(attrs);
      assert NameList(attrs)[1..] == NameList(attrs[1..]);
      assert (set n | n in NameList(attrs)) == (set n | n in NameList(attrs[1..])) + {attrs[0].name};
      assert attrs[0].name in NameList(attrs[1..]) <==> attrs[0].name in Names(attrs[1..]);
    }
  }

  // ----- Renaming -----

  /** The first fault of the renaming from its i-th entry on, in the order in which the code looks. */
  function RenamingFault(names: set<Name>, renv: seq<Renaming>): Option<TypeError> {
    if renv == [] then None
    else if renv[0].from !in names then Some(NoSuchName(renv[0].from))
    else if renv[0].to in names then Some(NoSuchName(renv[0].to))
    else if exists j :: 0 < j < |renv| && (renv[j].from == renv[0].from || renv[j].to == renv[0].to)
    then Some(InvalidArgument)
    else RenamingFault(names, renv[1..])
  }

  /** An entry is at fault: its source is missing, its target is there, or a later one has the same source or target. */
  ghost predicate AtFault(names: set<Name>, renv: seq<Renaming>, i: nat)
    requires i < |renv|
  {
    renv[i].from !in names || renv[i].to in names ||
    exists j :: i < j < |renv| && (renv[j].from == renv[i].from || renv[j].to == renv[i].to)
  }

  /**
   * The first entry at fault decides the error: the name of a missing source, the name of an existing target, or, for
   * a repetition, an invalid argument.
   */
  lemma {:induction false} RenamingFails(names: set<Name>, renv: seq<Renaming>, i: nat)
    requires i < |renv| && AtFault(names, renv, i) && forall k :: 0 <= k < i ==> !AtFault(names, renv, k)
    ensures RenamingFault(names, renv) == Some(
      if renv[i].from !in names then NoSuchName(renv[i].from)
      else if renv[i].to in names then NoSuchName(renv[i].to)
      else InvalidArgument)
    decreases i
  {
    if i > 0 {
      var rest := renv[1..];
      forall k: nat | k < |rest| ensures AtFault(names, rest, k) <==> AtFault(names, renv, k + 1) {
        FaultMoves(names, renv, k);
      }
      assert !AtFault(names, renv, 0);
      RenamingFails(names, rest, i - 1);
    } else if renv[0].from in names && renv[0].to !in names {
      var j :| 0 < j < |renv| && (renv[j].from == renv[0].from || renv[j].to == renv[0].to);
    }
  }

  lemma FaultMoves(names: set<Name>, renv: seq<Renaming>, k: nat)
    requires k + 1 < |renv|
    ensures AtFault(names, renv[1..], k) <==> AtFault(names, renv, k + 1)
  {
    var rest := renv[1..];
    if j :| k < j < |rest| && (rest[j].from == rest[k].from || rest[j].to == rest[k].to) {
      assert renv[j + 1] == rest[j];
    }
    if j :| k + 1 < j < |renv| && (renv[j].from == renv[k + 1].from || renv[j].to == renv[k + 1].to) {
      assert renv[j] == rest[j - 1];
    }
  }

  function RenamedAttrs(attrs: seq<Attr>, renv: seq<Renaming>): (r: seq<Attr>)
    ensures |r| == |attrs| && forall i :: 0 <= i < |attrs| ==> r[i] == Attr(NewName(renv, attrs[i].name), attrs[i].typ)
  {
    if attrs == [] then []
    else [Attr(NewName(renv, attrs[0].name), attrs[0].typ)] + RenamedAttrs(attrs[1..], renv)
  }

  function RenameAttrs(attrs: seq<Attr>, renv: seq<Renaming>): Attrs {
    match RenamingFault(Names(attrs), renv)
    case Some(e) => Err(e)
    case None => Ok(RenamedAttrs(attrs, renv))
  }

  method RenameTupleType(attrs: seq<Attr>, renv: seq<Renaming>) returns (r: Attrs)
    ensures r == RenameAttrs(attrs, renv)
  {
    var fault := CheckRenaming(attrs, renv);
    if fault.Some? {
      return Err(fault.value);
    }
    var attrv: seq<Attr> := [];
    ghost var renamed := RenamedAttrs(attrs, renv);
    for i := 0 to |attrs|
      invariant attrv == renamed[..i]
    {
      var ai := FindRenameFrom(renv, attrs[i].name);
      attrv := attrv + [Attr(if ai >= 0 then renv[ai].to else attrs[i].name, attrs[i].typ)];
    }
    assert renamed[..|attrs|] == renamed;
    return Ok(attrv);
  }

  method CheckRenaming(attrs: seq<Attr>, renv: seq<Renaming>) returns (fault: Option<TypeError>)
    ensures fault == RenamingFault(Names(attrs), renv)
  {
    for i := 0 to |renv|
      invariant RenamingFault(Names(attrs), renv) == RenamingFault(Names(attrs), renv[i..])
    {
      assert renv[i..][1..] == renv[i + 1..];
      var attrp := TupleTypeAttr(attrs, renv[i].from);
      if attrp.None? {
        return Some(NoSuchName(renv[i].from));
      }
      attrp := TupleTypeAttr(attrs, renv[i].to);
      if attrp.Some? {
        return Some(NoSuchName(renv[i].to));
      }
      var rest := renv[i..];
      for j := i + 1 to |renv|
        invariant forall k :: 0 < k < j - i ==> rest[k].from != renv[i].from && rest[k].to != renv[i].to
      {
        if renv[i].from == renv[j].from || renv[i].to == renv[j].to {
          assert rest[j - i] == renv[j];
          return Some(InvalidArgument);
        }
      }
    }
    return None;
  }

  lemma {:induction false} FaultlessIsAccepted(names: set<Name>, renv: seq<Renaming>)
    ensures RenamingFault(names, renv).None? <==> Accepted(names, renv)
  {
    if renv != [] {
      FaultlessIsAccepted(names, renv[1..]);
      assert renv == [renv[0]] + renv[1..];
    }
  }

  lemma {:induction false} RenamedNames(attrs: seq<Attr>, renv: seq<Renaming>, names: set<Name>)
    requires DistinctNames(attrs) && Names(attrs) <= names && KeepsApart(names, renv)
    ensures Names(RenamedAttrs(attrs, renv)) == set n | n in Names(attrs) :: NewName(renv, n)
    ensures DistinctNames(RenamedAttrs(attrs, renv))
  {
    if attrs != [] {
      NamesStep(attrs);
      NamesStep(RenamedAttrs(attrs, renv));
      RenamedNames(attrs[1..], renv, names);
      assert RenamedAttrs(attrs, renv)[1..] == RenamedAttrs(attrs[1..], renv);
    }
  }

  /**
   * The type-level RENAME succeeds iff every source is an attribute, no target is, and neither occurs twice.
   * It then maps the heading name by name.
   */
  lemma RenameMeans(attrs: seq<Attr>, renv: seq<Renaming>)
    requires WellFormed(Tuple(attrs))
    ensures RenameAttrs(attrs, renv).Ok? <==> Accepted(Names(attrs), renv)
    ensures RenameAttrs(attrs, renv).Ok? ==>
      var r := RenameAttrs(attrs, renv).value;
      WellFormed(Tuple(r)) && IsRenamed(Heading(attrs), renv, map[], Heading(r))
  {
    FaultlessIsAccepted(Names(attrs), renv);
    if RenameAttrs(attrs, renv).Ok? {
      RenamingInvertible(Names(attrs), renv);
      RenamedNames(attrs, renv, Names(attrs));
      RenamedHeading(attrs, renv);
    }
  }

  lemma RenamedHeading(attrs: seq<Attr>, renv: seq<Renaming>)
    requires WellFormed(Tuple(attrs)) && DistinctNames(RenamedAttrs(attrs, renv))
    ensures WellFormed(Tuple(RenamedAttrs(attrs, renv)))
    ensures IsRenamed(Heading(attrs), renv, map[], Heading(RenamedAttrs(attrs, renv)))
  {
    forall n | n in Heading(attrs) {
      RenamedAt(attrs, renv, n);
    }
    forall n' | n' in Heading(RenamedAttrs(attrs, renv))
      ensures exists n :: n in Heading(attrs) && NewName(renv, n) == n'
    {
      var n := RenamedSource(attrs, renv, n');
    }
    RenamedWellFormed(attrs, renv);
  }

  lemma RenamedWellFormed(attrs: seq<Attr>, renv: seq<Renaming>)
    requires WellFormed(Tuple(attrs)) && DistinctNames(RenamedAttrs(attrs, renv))
    ensures WellFormed(Tuple(RenamedAttrs(attrs, renv)))
  {
    forall b | b in RenamedAttrs(attrs, renv) ensures WellFormed(b.typ) {
      var a := RenamedFrom(attrs, renv, b);
    }
  }

  lemma RenamedAt(attrs: seq<Attr>, renv: seq<Renaming>, n: Name)
    requires DistinctNames(attrs) && DistinctNames(RenamedAttrs(attrs, renv)) && n in Heading(attrs)
    ensures var m := Heading(RenamedAttrs(attrs, renv));
      NewName(renv, n) in m && m[NewName(renv, n)] == Heading(attrs)[n]
  {
    HeadingKeys(attrs);
    var a :| a in attrs && a.name == n;
    HeadingAt(attrs, a);
    RenamedTo(attrs, renv, a);
    HeadingAt(RenamedAttrs(attrs, renv), Attr(NewName(renv, a.name), a.typ));
  }

  lemma RenamedSource(attrs: seq<Attr>, renv: seq<Renaming>, n': Name) returns (n: Name)
    requires n' in Heading(RenamedAttrs(attrs, renv))
    ensures n in Heading(attrs) && NewName(renv, n) == n'
  {
    HeadingKeys(attrs);
    HeadingKeys(RenamedAttrs(attrs, renv));
    var b :| b in RenamedAttrs(attrs, renv) && b.name == n';
    var a := RenamedFrom(attrs, renv, b);
    n := a.name;
  }

  lemma RenamedTo(attrs: seq<Attr>, renv: seq<Renaming>, a: Attr)
    requires a in attrs
    ensures Attr(NewName(renv, a.name), a.typ) in RenamedAttrs(attrs, renv)
  {
    var i :| 0 <= i < |attrs| && attrs[i] == a;
    assert RenamedAttrs(attrs, renv)[i] == Attr(NewName(renv, a.name), a.typ);
  }

  lemma RenamedFrom(attrs: seq<Attr>, renv: seq<Renaming>, b: Attr) returns (a: Attr)
    requires b in RenamedAttrs(attrs, renv)
    ensures a in attrs && b == Attr(NewName(renv, a.name), a.typ)
  {
    var i :| 0 <= i < |attrs| && RenamedAttrs(attrs, renv)[i] == b;
    a := attrs[i];
  }

  /** Renaming back is accepted and restores the type. */
  lemma RenameBack(attrs: seq<Attr>, renv: seq<Renaming>)
    requires WellFormed(Tuple(attrs)) && RenameAttrs(attrs, renv).Ok?
    ensures RenameAttrs(RenameAttrs(attrs, renv).value, Inverse(renv)) == Ok(attrs)
  {
    hide RenamingFault, RenamedAttrs, Accepted, KeepsApart;
    var r := RenameAttrs(attrs, renv).value;
    FaultlessIsAccepted(Names(attrs), renv);
    RenamingInvertible(Names(attrs), renv);
    RenamedNames(attrs, renv, Names(attrs));
    assert Names(r) == set n | n in Names(attrs) :: NewName(renv, n);
    FaultlessIsAccepted(Names(r), Inverse(renv));
    RenamedTwice(attrs, renv, Names(attrs));
  }

  lemma {:induction false} RenamedTwice(attrs: seq<Attr>, renv: seq<Renaming>, names: set<Name>)
    requires Names(attrs) <= names && forall n :: n in names ==> NewName(Inverse(renv), NewName(renv, n)) == n
    ensures RenamedAttrs(RenamedAttrs(attrs, renv), Inverse(renv)) == attrs
  {
    if attrs != [] {
      var r := RenamedAttrs(attrs, renv);
      assert r[1..] == RenamedAttrs(attrs[1..], renv);
      NamesStep(attrs);
      RenamedTwice(attrs[1..], renv, names);
    }
  }
}
