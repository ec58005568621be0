/** Whether a value matches a type (obj/objmatch.c), for types without open tuple parts. */
module ObjectTypes {
  import opened ByteStrings
  import opened Options
  import opened Renamings
  import opened Types
  import opened TupleTypes
  import opened Subtyping

  /** An object that carries its type, or a tuple or an array that does not. */
  datatype Value =
    | Typed(typ: Type)
    | TupleOf(attrs: map<Name, Value>)
    | ArrayOf(elems: seq<Value>)

  predicate ObjMatches(g: Graph, v: Value, t: Type)
    requires g.Acyclic()
    decreases v, 1, 0
  {
    match v
    case Typed(typ) => IsSubtype(g, typ, t)
    case TupleOf(m) => t.Tuple? && |m| == |t.attrs| && AttrsMatch(g, v, t.attrs)
    case ArrayOf(elems) => t.Array? && (elems == [] || ObjMatches(g, elems[0], t.base))  // only the first is looked at
  }

  predicate AttrsMatch(g: Graph, v: Value, attrs: seq<Attr>)
    requires g.Acyclic() && v.TupleOf?
    decreases v, 0, |attrs|
  {
    attrs == [] ||
    (attrs[0].name in v.attrs && ObjMatches(g, v.attrs[attrs[0].name], attrs[0].typ) && AttrsMatch(g, v, attrs[1..]))
  }

  /** No object inside carries an ill-formed type. */
  ghost predicate WellTyped(v: Value) {
    match v
    case Typed(typ) => WellFormed(typ)
    case TupleOf(m) => forall n :: n in m ==> WellTyped(m[n])
    case ArrayOf(elems) => forall e :: e in elems ==> WellTyped(e)
  }

  lemma {:induction false} AttrsMatchEach(g: Graph, v: Value, attrs: seq<Attr>)
    requires g.Acyclic() && v.TupleOf?
    ensures AttrsMatch(g, v, attrs) <==>
            forall a :: a in attrs ==> a.name in v.attrs && ObjMatches(g, v.attrs[a.name], a.typ)
  {
    if attrs != [] {
      AttrsMatchEach(g, v, attrs[1..]);
      assert forall a :: a in attrs <==> a == attrs[0] || a in attrs[1..];
    }
  }

  /** A matching tuple has exactly the attributes of the type. */
  lemma MatchedNames(g: Graph, m: map<Name, Value>, attrs: seq<Attr>)
    requires g.Acyclic() && DistinctNames(attrs) && ObjMatches(g, TupleOf(m), Tuple(attrs))
    ensures m.Keys == Names(attrs)
  {
    AttrsMatchEach(g, TupleOf(m), attrs);
    DistinctByNames(attrs);
    assert Names(attrs) <= m.Keys;
    assert m.Keys == Names(attrs) + (m.Keys - Names(attrs));
    assert |m.Keys| == |Names(attrs)| + |m.Keys - Names(attrs)|;
  }

  lemma MatchFromEach(g: Graph, m: map<Name, Value>, attrs: seq<Attr>)
    requires g.Acyclic() && DistinctNames(attrs) && m.Keys == Names(attrs)
    requires forall a :: a in attrs ==> ObjMatches(g, m[a.name], a.typ)
    ensures ObjMatches(g, TupleOf(m), Tuple(attrs))
  {
    AttrsMatchEach(g, TupleOf(m), attrs);
    DistinctByNames(attrs);
    assert |m| == |m.Keys|;
  }

  // ----- What a match means -----

  /**
   * A value of this meaning: the type that it carries is at most the meaning, or it has the attributes of the meaning
   * with values of theirs, or it is an array, empty or with a first element of the meaning of the elements.
   */
  ghost predicate HasMeaning(g: Graph, v: Value, m: Meaning) {
    match v
    case Typed(typ) => SubMeaning(g, MeaningOf(typ), m)
    case TupleOf(attrs) =>
      m.MTuple? && attrs.Keys == m.heading.Keys &&
      forall n :: n in attrs && n in m.heading ==> HasMeaning(g, attrs[n], m.heading[n])
    case ArrayOf(elems) => m.MArray? && (elems == [] || HasMeaning(g, elems[0], m.base))
  }

  /** The code decides whether a value has the meaning of a type. */
  lemma {:induction false} MatchIsMeaning(g: Graph, v: Value, t: Type)
    requires g.Acyclic() && WellTyped(v) && WellFormed(t)
    ensures ObjMatches(g, v, t) <==> HasMeaning(g, v, MeaningOf(t))
    decreases v
  {
    match v
    case Typed(typ) => SubtypeIsSubMeaning(g, typ, t);
    case TupleOf(m) =>
      if t.Tuple? {
        HeadingKeys(t.attrs);
        AttrsMatchEach(g, v, t.attrs);
        forall a | a in t.attrs && a.name in m
          ensures a.name in Heading(t.attrs) && Heading(t.attrs)[a.name] == MeaningOf(a.typ)
          ensures ObjMatches(g, m[a.name], a.typ) <==> HasMeaning(g, m[a.name], MeaningOf(a.typ)) {
          HeadingAt(t.attrs, a);
          MatchIsMeaning(g, m[a.name], a.typ);
        }
        if ObjMatches(g, v, t) {
          MatchedNames(g, m, t.attrs);
        } else if HasMeaning(g, v, MeaningOf(t)) {
          MatchFromEach(g, m, t.attrs);
        }
      }
    case ArrayOf(elems) =>
      if t.Array? && elems != [] {
        MatchIsMeaning(g, elems[0], t.base);
      }
  }

  /**
   * So a value that carries its type matches iff that is a subtype, a tuple iff it has the attributes of the type and
   * each one matches, and an array iff it is empty or its first element matches.
   */
  lemma MatchMeans(g: Graph, v: Value, t: Type)
    requires g.Acyclic() && WellTyped(v) && WellFormed(t)
    ensures v.Typed? ==> (ObjMatches(g, v, t) <==> SubMeaning(g, MeaningOf(v.typ), MeaningOf(t)))
    ensures v.TupleOf? ==> (ObjMatches(g, v, t) <==>
      t.Tuple? && v.attrs.Keys == Names(t.attrs) && forall a :: a in t.attrs ==> ObjMatches(g, v.attrs[a.name], a.typ))
    ensures v.ArrayOf? ==> (ObjMatches(g, v, t) <==>
      t.Array? && (v.elems == [] || ObjMatches(g, v.elems[0], t.base)))
  {
    match v
    case Typed(typ) => SubtypeIsSubMeaning(g, typ, t);
    case TupleOf(m) =>
      if t.Tuple? {
        AttrsMatchEach(g, v, t.attrs);
        if ObjMatches(g, v, t) {
          MatchedNames(g, m, t.attrs);
        } else if m.Keys == Names(t.attrs) && forall a :: a in t.attrs ==> ObjMatches(g, m[a.name], a.typ) {
          MatchFromEach(g, m, t.attrs);
        }
      }
    case ArrayOf(_) =>
  }

  /** A value that matches a type matches each supertype of it. */
  lemma {:induction false} MatchesSupertype(g: Graph, v: Value, t1: Type, t2: Type)
    requires g.Acyclic() && WellTyped(v) && WellFormed(t1) && WellFormed(t2)
    requires ObjMatches(g, v, t1) && IsSubtype(g, t1, t2)
    ensures ObjMatches(g, v, t2)
    decreases v
  {
    SubtypeIsSubMeaning(g, t1, t2);
    match v
    case Typed(typ) => SubtypingIsOrder(g, typ, t1, t2);
    case ArrayOf(elems) =>
      if elems != [] {
        SubtypeIsSubMeaning(g, t1.base, t2.base);
        MatchesSupertype(g, elems[0], t1.base, t2.base);
      }
    case TupleOf(m) =>
      MatchedNames(g, m, t1.attrs);
      HeadingKeys(t1.attrs);
      HeadingKeys(t2.attrs);
      AttrsMatchEach(g, v, t1.attrs);
      forall a2 | a2 in t2.attrs ensures ObjMatches(g, m[a2.name], a2.typ) {
        var a1 := SubtypeAttr(g, t1.attrs, t2.attrs, a2);
        MatchesSupertype(g, m[a2.name], a1.typ, a2.typ);
      }
      MatchFromEach(g, m, t2.attrs);
  }

  lemma SubtypeAttr(g: Graph, attrs1: seq<Attr>, attrs2: seq<Attr>, a2: Attr) returns (a1: Attr)
    requires g.Acyclic() && WellFormed(Tuple(attrs1)) && WellFormed(Tuple(attrs2)) && a2 in attrs2
    requires SubMeaning(g, MTuple(Heading(attrs1)), MTuple(Heading(attrs2)))
    ensures a1 in attrs1 && a1.name == a2.name && IsSubtype(g, a1.typ, a2.typ)
  {
    HeadingKeys(attrs1);
    HeadingAt(attrs2, a2);
    a1 :| a1 in attrs1 && a1.name == a2.name;
    HeadingAt(attrs1, a1);
    SubtypeIsSubMeaning(g, a1.typ, a2.typ);
  }

  /** A tuple that matches a type matches, once renamed, the renamed type. */
  lemma RenamedMatches(g: Graph, m: map<Name, Value>, attrs: seq<Attr>, renv: seq<Renaming>, r: map<Name, Value>)
    requires g.Acyclic() && WellFormed(Tuple(attrs)) && ObjMatches(g, TupleOf(m), Tuple(attrs))
    requires RenameAttrs(attrs, renv).Ok? && IsRenamed(m, renv, map[], r)
    ensures ObjMatches(g, TupleOf(r), Tuple(RenameAttrs(attrs, renv).value))
  {
    var attrs' := RenameAttrs(attrs, renv).value;
    MatchedNames(g, m, attrs);
    AttrsMatchEach(g, TupleOf(m), attrs);
    RenamedKeys(m, attrs, renv, r);
    forall b | b in attrs' ensures ObjMatches(g, r[b.name], b.typ) {
      var a := RenamedFrom(attrs, renv, b);
      assert a.name in m;
    }
    MatchFromEach(g, r, attrs');
  }

  lemma RenamedKeys(m: map<Name, Value>, attrs: seq<Attr>, renv: seq<Renaming>, r: map<Name, Value>)
    requires WellFormed(Tuple(attrs)) && RenameAttrs(attrs, renv).Ok?
    requires m.Keys == Names(attrs) && IsRenamed(m, renv, map[], r)
    ensures r.Keys == Names(RenamedAttrs(attrs, renv)) && DistinctNames(RenamedAttrs(attrs, renv))
  {
    FaultlessIsAccepted(Names(attrs), renv);
    RenamingInvertible(Names(attrs), renv);
    RenamedNames(attrs, renv, Names(attrs));
  }

  /** A tuple that matches a type matches, once projected on distinct names, the projected type. */
  lemma ProjectedMatches(g: Graph, m: map<Name, Value>, attrs: seq<Attr>, names: seq<Name>)
    requires g.Acyclic() && WellFormed(Tuple(attrs)) && ObjMatches(g, TupleOf(m), Tuple(attrs))
    requires ProjectAttrs(attrs, names).Ok? && NoRepeats(names)
    ensures ObjMatches(g, TupleOf(map n | n in m && n in names :: m[n]), Tuple(ProjectAttrs(attrs, names).value))
  {
    var p, r := ProjectAttrs(attrs, names).value, map n | n in m && n in names :: m[n];
    MatchedNames(g, m, attrs);
    AttrsMatchEach(g, TupleOf(m), attrs);
    ProjectMeans(attrs, names);
    assert r.Keys == Names(p);
    forall b | b in p ensures ObjMatches(g, r[b.name], b.typ) {
      assert b in attrs && b.name in r;
    }
    MatchFromEach(g, r, p);
  }
}
