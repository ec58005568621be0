/** Visiting the attributes of a tuple type in the order of their names (obj/type.c). */
module SortedAttrs {
  import opened ByteStrings
  import opened Options
  import opened Types
  import opened TupleTypes

  predicate After(name: Name, last: Option<Name>) {
    last.None? || Less(last.value, name)
  }

  /** The position of the attribute with the smallest name after last, or -1. */
  ghost predicate IsNext(attrs: seq<Attr>, last: Option<Name>, idx: int) {
    && -1 <= idx < |attrs|
    && (idx == -1 ==> forall a :: a in attrs ==> !After(a.name, last))
    && (idx >= 0 ==> After(attrs[idx].name, last) &&
                     forall a :: a in attrs && After(a.name, last) ==> AtMost(attrs[idx].name, a.name))
  }

  /** The best position among the first n. */
  function NextUpTo(attrs: seq<Attr>, last: Option<Name>, n: nat): (idx: int)
    requires n <= |attrs|
    ensures -1 <= idx < n
  {
    if n == 0 then -1
    else
      var best, name := NextUpTo(attrs, last, n - 1), attrs[n - 1].name;
      if After(name, last) && (best == -1 || Less(name, attrs[best].name)) then n - 1 else best
  }

  method NextAttrSorted(attrs: seq<Attr>, last: Option<Name>) returns (attridx: int)
    ensures attridx == NextUpTo(attrs, last, |attrs|)
    ensures IsNext(attrs, last, attridx)
  {
    attridx := -1;
    for i := 0 to |attrs|
      invariant attridx == NextUpTo(attrs, last, i)
    {
      if After(attrs[i].name, last) && (attridx == -1 || Less(attrs[i].name, attrs[attridx].name)) {
        attridx := i;
      }
    }
    NextUpToIsNext(attrs, last, |attrs|);
    assert attrs[..|attrs|] == attrs;
  }

  lemma {:induction false} NextUpToIsNext(attrs: seq<Attr>, last: Option<Name>, n: nat)
    requires n <= |attrs|
    ensures IsNext(attrs[..n], last, NextUpTo(attrs, last, n))
  {
    if n > 0 {
      NextUpToIsNext(attrs, last, n - 1);
      var best, idx, name := NextUpTo(attrs, last, n - 1), NextUpTo(attrs, last, n), attrs[n - 1].name;
      assert attrs[..n] == attrs[..n - 1] + [attrs[n - 1]];
      forall a | a in attrs[..n] && After(a.name, last) ensures idx >= 0 && AtMost(attrs[idx].name, a.name) {
        if a != attrs[n - 1] {
          assert a in attrs[..n - 1];
          if idx == n - 1 && Less(name, attrs[best].name) && Less(attrs[best].name, a.name) {
            LessTransitive(name, attrs[best].name, a.name);
          }
        } else if idx != n - 1 {
          LessTotal(name, attrs[best].name);
        }
      }
    }
  }

  /** The names still to come after last. */
  function Later(attrs: seq<Attr>, last: Option<Name>): set<Name> {
    set a | a in attrs && After(a.name, last) :: a.name
  }

  lemma NextIsLeast(attrs: seq<Attr>, last: Option<Name>, idx: int)
    requires IsNext(attrs, last, idx)
    ensures idx == -1 <==> Later(attrs, last) == {}
    ensures idx >= 0 ==> attrs[idx].name == Least(Later(attrs, last))
    ensures idx >= 0 ==> Later(attrs, Some(attrs[idx].name)) == Later(attrs, last) - {attrs[idx].name}
  {
    if idx >= 0 {
      var name, later := attrs[idx].name, Later(attrs, last);
      assert attrs[idx] in attrs;
      LeastUnique(name, later);
      RestIsLater(later, name);
      forall a | a in attrs && Less(name, a.name) ensures After(a.name, last) {
        if last.Some? {
          LessTransitive(last.value, name, a.name);
        }
      }
      assert Later(attrs, Some(name)) == set k | k in later && Less(name, k);
    }
  }

  /** What calling for the next attribute again and again, from last on, visits before it answers -1. */
  function Visited(attrs: seq<Attr>, last: Option<Name>): seq<Attr>
    decreases |Later(attrs, last)|
  {
    NextUpToIsNext(attrs, last, |attrs|);
    assert attrs[..|attrs|] == attrs;
    var idx := NextUpTo(attrs, last, |attrs|);
    NextIsLeast(attrs, last, idx);
    if idx == -1 then [] else [attrs[idx]] + Visited(attrs, Some(attrs[idx].name))
  }

  lemma {:induction false} VisitedInOrder(attrs: seq<Attr>, last: Option<Name>)
    ensures forall a :: a in Visited(attrs, last) ==> a in attrs
    ensures NameList(Visited(attrs, last)) == Listing(Later(attrs, last))
    decreases |Later(attrs, last)|
  {
    NextUpToIsNext(attrs, last, |attrs|);
    assert attrs[..|attrs|] == attrs;
    var idx := NextUpTo(attrs, last, |attrs|);
    NextIsLeast(attrs, last, idx);
    if idx != -1 {
      VisitedInOrder(attrs, Some(attrs[idx].name));
    }
  }

  /** Starting from NULL, every attribute is visited exactly once, in strictly increasing order of names. */
  lemma VisitsEachOnce(attrs: seq<Attr>)
    requires DistinctNames(attrs)
    ensures var v := Visited(attrs, None);
      && |v| == |attrs| && DistinctNames(v) && (forall a :: a in v <==> a in attrs)
      && NameList(v) == Listing(Names(attrs)) && Ascending(NameList(v))
  {
    var v := Visited(attrs, None);
    VisitedInOrder(attrs, None);
    assert Later(attrs, None) == Names(attrs);
    ListingMeans(Names(attrs));
    NameListMeans(v);
    assert Names(v) == Names(attrs);
    DistinctByNames(attrs);
    DistinctByNames(v);
    forall a | a in attrs ensures a in v {
      assert a.name in Names(v);
      var b :| b in v && b.name == a.name;
      FindOwn(attrs, a);
      FindOwn(attrs, b);
    }
  }

  /** The same names with equal types, attribute by attribute. */
  predicate Alike(v1: seq<Attr>, v2: seq<Attr>) {
    if v1 == [] || v2 == [] then v1 == v2
    else v1[0].name == v2[0].name && TypeEquals(v1[0].typ, v2[0].typ) && Alike(v1[1..], v2[1..])
  }

  lemma {:induction false} AlikeIsSameHeading(v1: seq<Attr>, v2: seq<Attr>)
    requires WellFormed(Tuple(v1)) && WellFormed(Tuple(v2))
    ensures Alike(v1, v2) <==> NameList(v1) == NameList(v2) && Heading(v1) == Heading(v2)
  {
    if v1 != [] && v2 != [] {
      var t1, t2 := v1[1..], v2[1..];
      EqualsIsSameMeaning(v1[0].typ, v2[0].typ);
      AlikeIsSameHeading(t1, t2);
      HeadingKeys(t1);
      HeadingKeys(t2);
      ConsEqual(v1[0].name, NameList(t1), v2[0].name, NameList(t2));
      if v1[0].name == v2[0].name {
        MapConsEqual(v1[0].name, MeaningOf(v1[0].typ), Heading(t1), MeaningOf(v2[0].typ), Heading(t2));
      }
    }
  }

  lemma ConsEqual<T>(x: T, xs: seq<T>, y: T, ys: seq<T>)
    ensures [x] + xs == [y] + ys <==> x == y && xs == ys
  {
    assert ([x] + xs)[1..] == xs && ([y] + ys)[1..] == ys && ([x] + xs)[0] == x && ([y] + ys)[0] == y;
  }

  lemma MapConsEqual<K, V>(k: K, x: V, m: map<K, V>, y: V, m': map<K, V>)
    requires k !in m && k !in m'
    ensures m[k := x] == m'[k := y] <==> x == y && m == m'
  {
    assert m[k := x] - {k} == m && m'[k := y] - {k} == m' && m[k := x][k] == x && m'[k := y][k] == y;
  }

  /** Two tuple types are equal iff visiting their attributes in order shows the same names with equal types. */
  lemma EqualIffVisitedAlike(a1: seq<Attr>, a2: seq<Attr>)
    requires WellFormed(Tuple(a1)) && WellFormed(Tuple(a2))
    ensures TypeEquals(Tuple(a1), Tuple(a2)) <==> Alike(Visited(a1, None), Visited(a2, None))
  {
    hide Visited, Alike, TypeEquals, DistinctNames;
    var v1, v2 := Visited(a1, None), Visited(a2, None);
    VisitsEachOnce(a1);
    VisitsEachOnce(a2);
    SameAttributes(a1, v1);
    SameAttributes(a2, v2);
    EqualsIsSameMeaning(Tuple(a1), Tuple(a2));
    AlikeIsSameHeading(v1, v2);
    HeadingKeys(a1);
    HeadingKeys(a2);
  }
}
