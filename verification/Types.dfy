/**
 * Types and type equality (obj/type.c).
 *
 * A tuple type lists its attributes in some order, but the order is not part of what the type means:
 * Meaning maps a type to its order-free form, and the equality of the code decides equality of meanings.
 */
module Types {
  import opened ByteStrings
  import opened Options
  import opened Lists

  datatype Attr = Attr(name: Name, typ: Type)

  datatype Type =
    | Scalar(name: Name)
    | Tuple(attrs: seq<Attr>)
    | Relation(base: Type)
    | Array(base: Type)

  datatype TypeError = NoSuchName(name: Name) | InvalidArgument | TypeMismatch

  // ----- Attributes by name -----

  /** The first attribute with the given name. */
  function FindAttr(attrs: seq<Attr>, name: Name): (r: Option<Attr>)
    ensures r.Some? ==> r.value in attrs && r.value.name == name
    ensures r.None? <==> name !in Names(attrs)
  {
    if attrs == [] then None
    else if attrs[0].name == name then Some(attrs[0])
    else
      assert Names(attrs) == {attrs[0].name} + Names(attrs[1..]);
      FindAttr(attrs[1..], name)
  }

  function Names(attrs: seq<Attr>): set<Name> {
    set a | a in attrs :: a.name
  }

  predicate DistinctNames(attrs: seq<Attr>) {
    attrs == [] || (attrs[0].name !in Names(attrs[1..]) && DistinctNames(attrs[1..]))
  }

  /** What RDB_new_tuple_type establishes, at every depth; a relation type is built from a tuple type. */
  ghost predicate WellFormed(t: Type) {
    match t
    case Scalar(_) => true
    case Tuple(attrs) => DistinctNames(attrs) && forall a :: a in attrs ==> WellFormed(a.typ)
    case Relation(base) => base.Tuple? && WellFormed(base)
    case Array(base) => WellFormed(base)
  }

  method TupleTypeAttr(attrs: seq<Attr>, name: Name) returns (r: Option<Attr>)
    ensures r == FindAttr(attrs, name)
  {
    var i := 0;
    while i < |attrs|
      invariant i <= |attrs| && FindAttr(attrs[i..], name) == FindAttr(attrs, name)
    {
      assert attrs[i..][1..] == attrs[i + 1..];
      if attrs[i].name == name {
        return Some(attrs[i]);
      }
      i := i + 1;
    }
    return None;
  }

  // ----- Equality as the code decides it -----

  predicate TypeEquals(t1: Type, t2: Type)
    decreases t1, 0
  {
    match (t1, t2)
    case (Scalar(n1), Scalar(n2)) => n1 == n2
    case (Relation(b1), Relation(b2)) => TypeEquals(b1, b2)
    case (Array(b1), Array(b2)) => TypeEquals(b1, b2)
    case (Tuple(a1), Tuple(a2)) => |a1| == |a2| && AllAppear(a1, a2)
    case _ => false
  }

  /** Every attribute of the first list is searched for in the second; no search goes the other way. */
  predicate AllAppear(a1: seq<Attr>, a2: seq<Attr>)
    decreases a1, 0
  {
    a1 == [] || (Appears(a1[0], a2) && AllAppear(a1[1..], a2))
  }

  predicate Appears(a: Attr, attrs: seq<Attr>)
    decreases a, |attrs|
  {
    attrs != [] && ((TypeEquals(a.typ, attrs[0].typ) && a.name == attrs[0].name) || Appears(a, attrs[1..]))
  }

  // ----- What a type means -----

  datatype Meaning =
    | MScalar(name: Name)
    | MTuple(heading: map<Name, Meaning>)
    | MRelation(base: Meaning)
    | MArray(base: Meaning)

  ghost function MeaningOf(t: Type): Meaning {
    match t
    case Scalar(n) => MScalar(n)
    case Tuple(attrs) => MTuple(Heading(attrs))
    case Relation(base) => MRelation(MeaningOf(base))
    case Array(base) => MArray(MeaningOf(base))
  }

  ghost function Heading(attrs: seq<Attr>): map<Name, Meaning> {
    if attrs == [] then map[] else Heading(attrs[1..])[attrs[0].name := MeaningOf(attrs[0].typ)]
  }

  lemma {:induction false} HeadingKeys(attrs: seq<Attr>)
    ensures Heading(attrs).Keys == Names(attrs)
  {
    if attrs != [] {
      HeadingKeys(attrs[1..]);
      NamesStep(attrs);
    }
  }

  lemma NamesStep(attrs: seq<Attr>)
    requires attrs != []
    ensures Names(attrs) == Names(attrs[1..]) + {attrs[0].name}
  {
    assert attrs == [attrs[0]] + attrs[1..];
  }

  lemma {:induction false} HeadingSize(attrs: seq<Attr>)
    requires DistinctNames(attrs)
    ensures |Heading(attrs)| == |attrs|
  {
    if attrs != [] {
      HeadingKeys(attrs[1..]);
      HeadingSize(attrs[1..]);
    }
  }

  lemma {:induction false} HeadingAt(attrs: seq<Attr>, a: Attr)
    requires DistinctNames(attrs) && a in attrs
    ensures a.name in Heading(attrs) && Heading(attrs)[a.name] == MeaningOf(a.typ)
  {
    if a != attrs[0] {
      assert a in attrs[1..];
      HeadingAt(attrs[1..], a);
      HeadingKeys(attrs[1..]);
    }
  }

  /** m is part of m'. */
  ghost predicate Submap<K, V>(m: map<K, V>, m': map<K, V>) {
    forall k :: k in m ==> k in m' && m'[k] == m[k]
  }

  lemma SubmapOfEqualSize<K, V>(m: map<K, V>, m': map<K, V>)
    requires |m| == |m'| && Submap(m, m')
    ensures m == m'
  {
    var extra := m'.Keys - m.Keys;
    assert m'.Keys == m.Keys + extra;
    assert |m'.Keys| == |m.Keys| + |extra|;
  }

  /**
   * Two well-formed types are equal for the code iff they mean the same. The one-sided search suffices
   * because equally many distinct names leave no room for an attribute that was not found.
   */
  lemma {:induction false} EqualsIsSameMeaning(t1: Type, t2: Type)
    requires WellFormed(t1) && WellFormed(t2)
    ensures TypeEquals(t1, t2) <==> MeaningOf(t1) == MeaningOf(t2)
    decreases t1, 0
  {
    match (t1, t2) {
      case (Relation(b1), Relation(b2)) => EqualsIsSameMeaning(b1, b2);
      case (Array(b1), Array(b2)) => EqualsIsSameMeaning(b1, b2);
      case (Tuple(a1), Tuple(a2)) =>
        AllAppearIsSubmap(a1, a2);
        HeadingSize(a1);
        HeadingSize(a2);
        if |a1| == |a2| && AllAppear(a1, a2) {
          SubmapOfEqualSize(Heading(a1), Heading(a2));
        }
      case _ =>
    }
  }

  lemma {:induction false} AllAppearIsSubmap(a1: seq<Attr>, a2: seq<Attr>)
    requires DistinctNames(a1) && DistinctNames(a2)
    requires (forall a :: a in a1 ==> WellFormed(a.typ)) && forall a :: a in a2 ==> WellFormed(a.typ)
    ensures AllAppear(a1, a2) <==> Submap(Heading(a1), Heading(a2))
    decreases a1, 0
  {
    if a1 != [] {
      AppearsIsIn(a1[0], a2);
      AllAppearIsSubmap(a1[1..], a2);
      HeadingKeys(a1[1..]);
      var m, m' := Heading(a1), Heading(a1[1..]);
      assert forall n :: n in m' ==> n in m && m[n] == m'[n];
    }
  }

  lemma {:induction false} AppearsIsIn(a: Attr, attrs: seq<Attr>)
    requires WellFormed(a.typ) && DistinctNames(attrs) && forall a :: a in attrs ==> WellFormed(a.typ)
    ensures Appears(a, attrs) <==> a.name in Heading(attrs) && Heading(attrs)[a.name] == MeaningOf(a.typ)
    decreases a, |attrs|
  {
    if attrs != [] {
      EqualsIsSameMeaning(a.typ, attrs[0].typ);
      AppearsIsIn(a, attrs[1..]);
      HeadingKeys(attrs[1..]);
    }
  }

  /** Type equality is an equivalence relation. */
  lemma EqualsIsEquivalence(t1: Type, t2: Type, t3: Type)
    requires WellFormed(t1) && WellFormed(t2) && WellFormed(t3)
    ensures TypeEquals(t1, t1)
    ensures TypeEquals(t1, t2) <==> TypeEquals(t2, t1)
    ensures TypeEquals(t1, t2) && TypeEquals(t2, t3) ==> TypeEquals(t1, t3)
  {
    EqualsIsSameMeaning(t1, t1);
    EqualsIsSameMeaning(t1, t2);
    EqualsIsSameMeaning(t2, t1);
    EqualsIsSameMeaning(t2, t3);
    EqualsIsSameMeaning(t1, t3);
  }

  /** The order in which a tuple type lists its attributes does not matter. */
  lemma AttributeOrderIrrelevant(a1: seq<Attr>, a2: seq<Attr>)
    requires WellFormed(Tuple(a1)) && multiset(a1) == multiset(a2)
    ensures WellFormed(Tuple(a2)) && TypeEquals(Tuple(a1), Tuple(a2))
  {
    assert |a1| == |multiset(a1)| == |a2|;
    forall a ensures a in a1 <==> a in a2 {
      assert a in a1 <==> a in multiset(a1);
    }
    DistinctByCount(a1, a2);
    forall n | n in Heading(a1) ensures n in Heading(a2) && Heading(a2)[n] == Heading(a1)[n] {
      HeadingKeys(a1);
      var a :| a in a1 && a.name == n;
      HeadingAt(a1, a);
      HeadingAt(a2, a);
    }
    HeadingSize(a1);
    HeadingSize(a2);
    SubmapOfEqualSize(Heading(a1), Heading(a2));
    EqualsIsSameMeaning(Tuple(a1), Tuple(a2));
  }

  /** As many names as attributes means that the names are distinct. */
  lemma {:induction false} DistinctByNames(attrs: seq<Attr>)
    ensures |Names(attrs)| <= |attrs|
    ensures DistinctNames(attrs) <==> |Names(attrs)| == |attrs|
  {
    if attrs != [] {
      DistinctByNames(attrs[1..]);
      NamesStep(attrs);
    }
  }

  lemma DistinctByCount(a1: seq<Attr>, a2: seq<Attr>)
    requires DistinctNames(a1) && |a1| == |a2| && forall a :: a in a1 <==> a in a2
    ensures DistinctNames(a2)
  {
    DistinctByNames(a1);
    DistinctByNames(a2);
    assert Names(a1) == Names(a2);
  }

  // ----- When the search is symmetric -----

  /** An attribute as it is compared: its name and what its type means. */
  datatype Mark = Mark(name: Name, meaning: Meaning)

  ghost function MarkOf(a: Attr): Mark {
    Mark(a.name, MeaningOf(a.typ))
  }

  ghost function Marks(attrs: seq<Attr>): seq<Mark> {
    seq(|attrs|, i requires 0 <= i < |attrs| => MarkOf(attrs[i]))
  }

  ghost predicate ComponentsWellFormed(attrs: seq<Attr>) {
    forall a :: a in attrs ==> WellFormed(a.typ)
  }

  lemma {:induction false} AppearsIsMarked(a: Attr, attrs: seq<Attr>)
    requires WellFormed(a.typ) && ComponentsWellFormed(attrs)
    ensures Appears(a, attrs) <==> MarkOf(a) in SetOf(Marks(attrs))
    decreases |attrs|
  {
    if attrs != [] {
      EqualsIsSameMeaning(a.typ, attrs[0].typ);
      AppearsIsMarked(a, attrs[1..]);
      assert Marks(attrs) == [MarkOf(attrs[0])] + Marks(attrs[1..]);
    }
  }

  lemma {:induction false} AllAppearIsCover(a1: seq<Attr>, a2: seq<Attr>)
    requires ComponentsWellFormed(a1) && ComponentsWellFormed(a2)
    ensures AllAppear(a1, a2) <==> SetOf(Marks(a1)) <= SetOf(Marks(a2))
    decreases |a1|
  {
    if a1 != [] {
      AppearsIsMarked(a1[0], a2);
      AllAppearIsCover(a1[1..], a2);
      assert Marks(a1) == [MarkOf(a1[0])] + Marks(a1[1..]);
    }
  }

  /** The tuple type with these attributes is equal to another one only if the other one is equal to it. */
  ghost predicate EqualsBack(attrs: seq<Attr>) {
    forall attrs2 :: ComponentsWellFormed(attrs2) && TypeEquals(Tuple(attrs), Tuple(attrs2)) ==>
      TypeEquals(Tuple(attrs2), Tuple(attrs))
  }

  /** An attribute occurs a second time. */
  ghost predicate RepeatsAttr(attrs: seq<Attr>) {
    exists i, j :: 0 <= i < j < |attrs| && attrs[i].name == attrs[j].name && TypeEquals(attrs[i].typ, attrs[j].typ)
  }

  /** Even with repeated names, equality from a tuple type is symmetric iff no attribute is there twice. */
  lemma EqualsSymmetricIffUnrepeated(attrs: seq<Attr>)
    requires ComponentsWellFormed(attrs)
    ensures EqualsBack(attrs) <==> !RepeatsAttr(attrs)
  {
    RepeatedMark(attrs);
    forall attrs2 | ComponentsWellFormed(attrs2) && TypeEquals(Tuple(attrs), Tuple(attrs2)) && !RepeatsAttr(attrs)
      ensures TypeEquals(Tuple(attrs2), Tuple(attrs)) {
      AllAppearIsCover(attrs, attrs2);
      AllAppearIsCover(attrs2, attrs);
      CoveredBack(Marks(attrs), Marks(attrs2));
    }
    if RepeatsAttr(attrs) {
      var attrs2 := HidesAttr(attrs);
    }
  }

  lemma RepeatedMark(attrs: seq<Attr>)
    requires ComponentsWellFormed(attrs)
    ensures Unrepeated(Marks(attrs)) <==> !RepeatsAttr(attrs)
  {
    var marks := Marks(attrs);
    forall i, j | 0 <= i < j < |attrs|
      ensures marks[i] == marks[j] <==> attrs[i].name == attrs[j].name && TypeEquals(attrs[i].typ, attrs[j].typ) {
      EqualsIsSameMeaning(attrs[i].typ, attrs[j].typ);
    }
  }

  /** With another attribute in the place of a repetition, the type is equal to the new one, but not the other way. */
  lemma HidesAttr(attrs: seq<Attr>) returns (attrs2: seq<Attr>)
    requires ComponentsWellFormed(attrs) && !Unrepeated(Marks(attrs))
    ensures ComponentsWellFormed(attrs2)
    ensures TypeEquals(Tuple(attrs), Tuple(attrs2)) && !TypeEquals(Tuple(attrs2), Tuple(attrs))
  {
    var n := FreshName(Names(attrs));
    var a := Attr(n, Scalar([]));
    forall i | 0 <= i < |attrs| ensures Marks(attrs)[i] != MarkOf(a) {
      assert attrs[i].name in Names(attrs);
    }
    var j := CoveredStill(Marks(attrs), MarkOf(a));
    attrs2 := attrs[j := a];
    assert Marks(attrs2) == Marks(attrs)[j := MarkOf(a)];
    forall b | b in attrs2 ensures WellFormed(b.typ) {
      assert b == a || b in attrs;
    }
    AllAppearIsCover(attrs, attrs2);
    AllAppearIsCover(attrs2, attrs);
  }
}
