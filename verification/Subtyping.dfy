/**
 * Subtyping (obj/type.c): structural below tuple, relation and array types, and along the supertype
 * lists of scalar types, with an equality test first at every level.
 */
module Subtyping {
  import opened ByteStrings
  import opened Options
  import opened Types

  /**
   * The scalar types: the supertypes and the subtypes of each by name, and a numbering that
   * falls from a type to its supertypes (a type is defined after its supertypes).
   */
  datatype Graph = Graph(supers: map<Name, seq<Name>>, subs: map<Name, seq<Name>>, rank: map<Name, nat>, top: nat)
  {
    function Supers(n: Name): seq<Name> {
      if n in supers then supers[n] else []
    }

    function Subs(n: Name): seq<Name> {
      if n in subs then subs[n] else []
    }

    function Rank(n: Name): nat {
      if n in rank then rank[n] else 0
    }

    ghost predicate Acyclic() {
      && (forall n, s :: s in Supers(n) ==> Rank(s) < Rank(n))
      && (forall n :: Rank(n) <= top)
    }

    /** The subtype lists say what the supertype lists say. */
    ghost predicate MutuallyInverse() {
      forall a, b :: b in Supers(a) <==> a in Subs(b)
    }
  }

  function Height(t: Type): nat {
    match t
    case Scalar(_) => 0
    case Tuple(attrs) => 1 + AttrsHeight(attrs)
    case Relation(base) => 1 + Height(base)
    case Array(base) => 1 + Height(base)
  }

  function AttrsHeight(attrs: seq<Attr>): (h: nat)
    ensures forall a :: a in attrs ==> Height(a.typ) < h
  {
    if attrs == [] then 0
    else
      var h, h' := 1 + Height(attrs[0].typ), AttrsHeight(attrs[1..]);
      assert forall a :: a in attrs ==> a == attrs[0] || a in attrs[1..];
      if h > h' then h else h'
  }

  function TypeRank(g: Graph, t: Type): nat {
    if t.Scalar? then g.Rank(t.name) else 0
  }

  // ----- The test of the code -----

  predicate IsSubtype(g: Graph, t1: Type, t2: Type)
    requires g.Acyclic()
    decreases Height(t1), TypeRank(g, t1), 1, 0
  {
    TypeEquals(t1, t2) ||
    match (t1, t2)
    case (Scalar(n1), Scalar(_)) => AnyIsSubtype(g, g.Rank(n1), g.Supers(n1), t2)
    case (Tuple(a1), Tuple(a2)) => |a1| == |a2| && AttrsAreSubtypes(g, a1, a2)
    case (Relation(b1), Relation(b2)) => IsSubtype(g, b1, b2)
    case (Array(b1), Array(b2)) => IsSubtype(g, b1, b2)
    case _ => false
  }

  predicate AnyIsSubtype(g: Graph, rank: nat, names: seq<Name>, t2: Type)
    requires g.Acyclic() && forall n :: n in names ==> g.Rank(n) < rank
    decreases 0, rank, 0, |names|
  {
    names != [] && (IsSubtype(g, Scalar(names[0]), t2) || AnyIsSubtype(g, rank, names[1..], t2))
  }

  predicate AttrsAreSubtypes(g: Graph, a1: seq<Attr>, a2: seq<Attr>)
    requires g.Acyclic()
    decreases AttrsHeight(a1), 0, 0, |a1|
  {
    a1 == [] ||
    var found := FindAttr(a2, a1[0].name);
    && found.Some?
    && IsSubtype(g, a1[0].typ, found.value.typ)
    && AttrsAreSubtypes(g, a1[1..], a2)
  }

  // ----- What subtyping means -----

  /** p leads from a to b, each name followed by one of its supertypes. */
  ghost predicate Chain(g: Graph, p: seq<Name>, a: Name, b: Name) {
    && p != [] && p[0] == a && p[|p| - 1] == b
    && forall i :: 0 <= i < |p| - 1 ==> p[i + 1] in g.Supers(p[i])
  }

  ghost predicate Reaches(g: Graph, a: Name, b: Name) {
    exists p :: Chain(g, p, a, b)
  }

  ghost predicate SubMeaning(g: Graph, m1: Meaning, m2: Meaning) {
    match (m1, m2)
    case (MScalar(a), MScalar(b)) => Reaches(g, a, b)
    case (MTuple(h1), MTuple(h2)) =>
      h1.Keys == h2.Keys && forall n :: n in h1 ==> n in h2 && SubMeaning(g, h1[n], h2[n])
    case (MRelation(b1), MRelation(b2)) => SubMeaning(g, b1, b2)
    case (MArray(b1), MArray(b2)) => SubMeaning(g, b1, b2)
    case _ => false
  }

  lemma ReachesItself(g: Graph, a: Name)
    ensures Reaches(g, a, a)
  {
    assert Chain(g, [a], a, a);
  }

  lemma ReachesStep(g: Graph, a: Name, s: Name, b: Name)
    requires s in g.Supers(a) && Reaches(g, s, b)
    ensures Reaches(g, a, b)
  {
    var p :| Chain(g, p, s, b);
    assert Chain(g, [a] + p, a, b);
  }

  lemma ReachesTransitive(g: Graph, a: Name, b: Name, c: Name)
    requires Reaches(g, a, b) && Reaches(g, b, c)
    ensures Reaches(g, a, c)
  {
    var p :| Chain(g, p, a, b);
    var q :| Chain(g, q, b, c);
    assert Chain(g, p + q[1..], a, c);
  }

  lemma {:induction false} ChainFalls(g: Graph, p: seq<Name>, a: Name, b: Name)
    requires g.Acyclic() && Chain(g, p, a, b)
    ensures a != b ==> g.Rank(b) < g.Rank(a)
    decreases |p|
  {
    if |p| > 1 {
      assert p[1] in g.Supers(p[0]);
      ChainFalls(g, p[1..], p[1], b);
    }
  }

  lemma ReachesAntisymmetric(g: Graph, a: Name, b: Name)
    requires g.Acyclic() && Reaches(g, a, b) && Reaches(g, b, a)
    ensures a == b
  {
    var p :| Chain(g, p, a, b);
    var q :| Chain(g, q, b, a);
    ChainFalls(g, p, a, b);
    ChainFalls(g, q, b, a);
  }

  // ----- Subtyping of meanings is an order -----

  lemma {:induction false} SubMeaningReflexive(g: Graph, m: Meaning)
    ensures SubMeaning(g, m, m)
  {
    match m
    case MScalar(n) => ReachesItself(g, n);
    case MTuple(h) => forall n | n in h { SubMeaningReflexive(g, h[n]); }
    case MRelation(b) => SubMeaningReflexive(g, b);
    case MArray(b) => SubMeaningReflexive(g, b);
  }

  lemma {:induction false} SubMeaningTransitive(g: Graph, m1: Meaning, m2: Meaning, m3: Meaning)
    requires SubMeaning(g, m1, m2) && SubMeaning(g, m2, m3)
    ensures SubMeaning(g, m1, m3)
  {
    match m1
    case MScalar(n) => ReachesTransitive(g, n, m2.name, m3.name);
    case MTuple(h) => forall n | n in h { SubMeaningTransitive(g, h[n], m2.heading[n], m3.heading[n]); }
    case MRelation(b) => SubMeaningTransitive(g, b, m2.base, m3.base);
    case MArray(b) => SubMeaningTransitive(g, b, m2.base, m3.base);
  }

  lemma {:induction false} SubMeaningAntisymmetric(g: Graph, m1: Meaning, m2: Meaning)
    requires g.Acyclic() && SubMeaning(g, m1, m2) && SubMeaning(g, m2, m1)
    ensures m1 == m2
  {
    match m1
    case MScalar(n) => ReachesAntisymmetric(g, n, m2.name);
    case MTuple(h) =>
      forall n | n in h ensures h[n] == m2.heading[n] { SubMeaningAntisymmetric(g, h[n], m2.heading[n]); }
    case MRelation(b) => SubMeaningAntisymmetric(g, b, m2.base);
    case MArray(b) => SubMeaningAntisymmetric(g, b, m2.base);
  }

  // ----- The code decides subtyping of meanings -----

  lemma {:induction false} SubtypeIsSubMeaning(g: Graph, t1: Type, t2: Type)
    requires g.Acyclic() && WellFormed(t1) && WellFormed(t2)
    ensures IsSubtype(g, t1, t2) <==> SubMeaning(g, MeaningOf(t1), MeaningOf(t2))
    decreases Height(t1), TypeRank(g, t1), 1, 0
  {
    EqualsIsSameMeaning(t1, t2);
    if TypeEquals(t1, t2) {
      SubMeaningReflexive(g, MeaningOf(t1));
    } else {
      match (t1, t2) {
        case (Scalar(n1), Scalar(n2)) => ScalarSubtype(g, n1, n2);
        case (Tuple(a1), Tuple(a2)) => TupleSubtype(g, a1, a2);
        case (Relation(b1), Relation(b2)) => SubtypeIsSubMeaning(g, b1, b2);
        case (Array(b1), Array(b2)) => SubtypeIsSubMeaning(g, b1, b2);
        case _ =>
      }
    }
  }

  lemma {:induction false} ScalarSubtype(g: Graph, a: Name, b: Name)
    requires g.Acyclic()
    ensures IsSubtype(g, Scalar(a), Scalar(b)) <==> Reaches(g, a, b)
    decreases 0, g.Rank(a), 0, |g.Supers(a)| + 1
  {
    AnyReaches(g, g.Rank(a), g.Supers(a), b);
    if a == b {
      ReachesItself(g, a);
    } else if Reaches(g, a, b) {
      var p :| Chain(g, p, a, b);
      assert p[1] in g.Supers(p[0]);
      assert Chain(g, p[1..], p[1], b);
    } else if s :| s in g.Supers(a) && Reaches(g, s, b) {
      ReachesStep(g, a, s, b);
    }
  }

  lemma {:induction false} AnyReaches(g: Graph, rank: nat, names: seq<Name>, b: Name)
    requires g.Acyclic() && forall n :: n in names ==> g.Rank(n) < rank
    ensures AnyIsSubtype(g, rank, names, Scalar(b)) <==> exists n :: n in names && Reaches(g, n, b)
    decreases 0, rank, 0, |names|
  {
    if names != [] {
      ScalarSubtype(g, names[0], b);
      AnyReaches(g, rank, names[1..], b);
    }
  }

  lemma {:induction false} TupleSubtype(g: Graph, a1: seq<Attr>, a2: seq<Attr>)
    requires g.Acyclic() && WellFormed(Tuple(a1)) && WellFormed(Tuple(a2))
    ensures |a1| == |a2| && AttrsAreSubtypes(g, a1, a2) <==> SubMeaning(g, MTuple(Heading(a1)), MTuple(Heading(a2)))
    decreases AttrsHeight(a1), 0, 0, |a1| + 1
  {
    AttrsSubtype(g, a1, a2);
    HeadingSize(a1);
    HeadingSize(a2);
    KeysBySize(Heading(a1), Heading(a2));
  }

  lemma KeysBySize<K, V>(m: map<K, V>, m': map<K, V>)
    ensures m.Keys <= m'.Keys && |m| == |m'| <==> m.Keys == m'.Keys
  {
    assert |m| == |m.Keys| && |m'| == |m'.Keys|;
    if m.Keys <= m'.Keys && |m| == |m'| {
      assert m'.Keys == m.Keys + (m'.Keys - m.Keys);
      assert |m'.Keys| == |m.Keys| + |m'.Keys - m.Keys|;
    }
  }

  /** Every attribute of h1 has a supertype in h2. */
  ghost predicate HeadingBelow(g: Graph, h1: map<Name, Meaning>, h2: map<Name, Meaning>) {
    forall n :: n in h1 ==> n in h2 && SubMeaning(g, h1[n], h2[n])
  }

  lemma HeadingBelowStep(g: Graph, h: map<Name, Meaning>, n: Name, m: Meaning, h2: map<Name, Meaning>)
    requires n !in h
    ensures HeadingBelow(g, h[n := m], h2) <==> HeadingBelow(g, h, h2) && n in h2 && SubMeaning(g, m, h2[n])
  {
    var h1 := h[n := m];
    assert forall n' :: n' in h ==> n' in h1 && h1[n'] == h[n'];
    assert h1[n] == m;
  }

  lemma {:induction false} AttrsSubtype(g: Graph, a1: seq<Attr>, a2: seq<Attr>)
    requires g.Acyclic() && WellFormed(Tuple(a1)) && WellFormed(Tuple(a2))
    ensures AttrsAreSubtypes(g, a1, a2) <==> HeadingBelow(g, Heading(a1), Heading(a2))
    decreases AttrsHeight(a1), 0, 0, |a1|
  {
    if a1 != [] {
      var a, rest := a1[0], a1[1..];
      AttrsSubtype(g, rest, a2);
      HeadingKeys(rest);
      HeadingBelowStep(g, Heading(rest), a.name, MeaningOf(a.typ), Heading(a2));
      HeadingKeys(a2);
      var found := FindAttr(a2, a.name);
      if found.Some? {
        HeadingAt(a2, found.value);
        SubtypeIsSubMeaning(g, a.typ, found.value.typ);
      }
    }
  }

  /** Subtyping is a preorder, and an order up to type equality, which it respects. */
  lemma SubtypingIsOrder(g: Graph, t1: Type, t2: Type, t3: Type)
    requires g.Acyclic() && WellFormed(t1) && WellFormed(t2) && WellFormed(t3)
    ensures IsSubtype(g, t1, t1)
    ensures IsSubtype(g, t1, t2) && IsSubtype(g, t2, t3) ==> IsSubtype(g, t1, t3)
    ensures IsSubtype(g, t1, t2) && IsSubtype(g, t2, t1) <==> TypeEquals(t1, t2)
    ensures TypeEquals(t1, t2) ==> (IsSubtype(g, t1, t3) <==> IsSubtype(g, t2, t3)) &&
                                   (IsSubtype(g, t3, t1) <==> IsSubtype(g, t3, t2))
  {
    var m1, m2, m3 := MeaningOf(t1), MeaningOf(t2), MeaningOf(t3);
    SubtypeIsSubMeaning(g, t1, t1);
    SubtypeIsSubMeaning(g, t1, t2);
    SubtypeIsSubMeaning(g, t2, t1);
    SubtypeIsSubMeaning(g, t2, t3);
    SubtypeIsSubMeaning(g, t1, t3);
    SubtypeIsSubMeaning(g, t3, t1);
    SubtypeIsSubMeaning(g, t3, t2);
    EqualsIsSameMeaning(t1, t2);
    SubMeaningReflexive(g, m1);
    if SubMeaning(g, m1, m2) && SubMeaning(g, m2, m3) {
      SubMeaningTransitive(g, m1, m2, m3);
    }
    if SubMeaning(g, m1, m2) && SubMeaning(g, m2, m1) {
      SubMeaningAntisymmetric(g, m1, m2);
    }
  }

  // ----- Common subtypes -----

  predicate ShareSubtype(g: Graph, t1: Type, t2: Type)
    requires g.Acyclic() && g.MutuallyInverse()
    decreases g.top - TypeRank(g, t1), 1, 0
  {
    t1.Scalar? && t2.Scalar? &&
    (IsSubtype(g, t1, t2) || AnySharesSubtype(g, g.Rank(t1.name), g.Subs(t1.name), t2))
  }

  predicate AnySharesSubtype(g: Graph, rank: nat, names: seq<Name>, t2: Type)
    requires g.Acyclic() && g.MutuallyInverse() && forall n :: n in names ==> rank < g.Rank(n)
    decreases g.top - rank, 0, |names|
  {
    names != [] && (ShareSubtype(g, Scalar(names[0]), t2) || AnySharesSubtype(g, rank, names[1..], t2))
  }

  lemma {:induction false} AnySharesIn(g: Graph, rank: nat, names: seq<Name>, t2: Type)
    requires g.Acyclic() && g.MutuallyInverse() && forall n :: n in names ==> rank < g.Rank(n)
    ensures AnySharesSubtype(g, rank, names, t2) <==> exists n :: n in names && ShareSubtype(g, Scalar(n), t2)
  {
    if names != [] {
      AnySharesIn(g, rank, names[1..], t2);
    }
  }

  lemma {:induction false} CommonSubtypeShared(g: Graph, p: seq<Name>, c: Name, a: Name, b: Name)
    requires g.Acyclic() && g.MutuallyInverse() && Chain(g, p, c, a) && Reaches(g, c, b)
    ensures ShareSubtype(g, Scalar(a), Scalar(b))
    decreases |p|
  {
    if |p| == 1 {
      ScalarSubtype(g, a, b);
    } else {
      var x := p[|p| - 2];
      assert a in g.Supers(x) && x in g.Subs(a);
      CommonSubtypeShared(g, p[..|p| - 1], c, x, b);
      AnySharesIn(g, g.Rank(a), g.Subs(a), Scalar(b));
    }
  }

  lemma {:induction false} SharedHasCommonSubtype(g: Graph, a: Name, b: Name) returns (c: Name)
    requires g.Acyclic() && g.MutuallyInverse() && ShareSubtype(g, Scalar(a), Scalar(b))
    ensures Reaches(g, c, a) && Reaches(g, c, b)
    decreases g.top - g.Rank(a)
  {
    if IsSubtype(g, Scalar(a), Scalar(b)) {
      ScalarSubtype(g, a, b);
      ReachesItself(g, a);
      c := a;
    } else {
      AnySharesIn(g, g.Rank(a), g.Subs(a), Scalar(b));
      var x :| x in g.Subs(a) && ShareSubtype(g, Scalar(x), Scalar(b));
      assert a in g.Supers(x);
      c := SharedHasCommonSubtype(g, x, b);
      ReachesItself(g, a);
      ReachesStep(g, x, a, a);
      ReachesTransitive(g, c, x, a);
    }
  }

  /** Two types share a subtype for the code iff some scalar type is a subtype of both. */
  lemma ShareSubtypeMeans(g: Graph, t1: Type, t2: Type)
    requires g.Acyclic() && g.MutuallyInverse()
    ensures ShareSubtype(g, t1, t2) <==>
            t1.Scalar? && t2.Scalar? && exists c :: IsSubtype(g, Scalar(c), t1) && IsSubtype(g, Scalar(c), t2)
    ensures ShareSubtype(g, t1, t2) <==> ShareSubtype(g, t2, t1)
  {
    ShareSubtypeOneWay(g, t1, t2);
    ShareSubtypeOneWay(g, t2, t1);
  }

  lemma ShareSubtypeOneWay(g: Graph, t1: Type, t2: Type)
    requires g.Acyclic() && g.MutuallyInverse()
    ensures ShareSubtype(g, t1, t2) <==>
            t1.Scalar? && t2.Scalar? && exists c :: IsSubtype(g, Scalar(c), t1) && IsSubtype(g, Scalar(c), t2)
  {
    if t1.Scalar? && t2.Scalar? {
      if ShareSubtype(g, t1, t2) {
        var c := SharedHasCommonSubtype(g, t1.name, t2.name);
        ScalarSubtype(g, c, t1.name);
        ScalarSubtype(g, c, t2.name);
      } else if c :| IsSubtype(g, Scalar(c), t1) && IsSubtype(g, Scalar(c), t2) {
        ScalarSubtype(g, c, t1.name);
        ScalarSubtype(g, c, t2.name);
        var p :| Chain(g, p, c, t1.name);
        CommonSubtypeShared(g, p, c, t1.name, t2.name);
      }
    }
  }
}
