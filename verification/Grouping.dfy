/** GROUP and UNGROUP on relation types (obj/type.c), by the attributes of the relation's tuple type. */
module GroupTypes {
  import opened ByteStrings
  import opened Options
  import opened Types
  import opened TupleTypes
  import opened WrapTypes

  // ----- GROUP -----

  /** GROUP { names } AS gattr. */
  function GroupAttrs(attrs: seq<Attr>, names: seq<Name>, gattr: Name): Attrs {
    var sub := ProjectAttrs(attrs, names);
    if sub.Err? then sub
    else if !DistinctNames(sub.value) then Err(InvalidArgument)
    else
      var rest := Without(attrs, NameList(sub.value));
      if gattr in Names(rest) then Err(InvalidArgument)
      else Ok(rest + [Attr(gattr, Relation(Tuple(sub.value)))])
  }

  method GroupType(attrs: seq<Attr>, names: seq<Name>, gattr: Name) returns (r: Attrs)
    ensures r == GroupAttrs(attrs, names, gattr)
  {
    var sub := ProjectTupleType(attrs, names);
    if sub.Err? {
      return sub;
    }
    if !DistinctNames(sub.value) {
      return Err(InvalidArgument);
    }
    var rest := CopyUngrouped(attrs, sub.value, gattr);
    return if rest.Err? then rest else Ok(rest.value + [Attr(gattr, Relation(Tuple(sub.value)))]);
  }

  /** Copies the attributes that are not in the group, none of which may have the new name. */
  method CopyUngrouped(attrs: seq<Attr>, group: seq<Attr>, gattr: Name) returns (r: Attrs)
    ensures r == var rest := Without(attrs, NameList(group));
                 if gattr in Names(rest) then Err(InvalidArgument) else Ok(rest)
  {
    hide DistinctNames, NoRepeats;
    var attrv: seq<Attr> := [];
    ghost var names := NameList(group);
    NameListMeans(group);
    for i := 0 to |attrs|
      invariant Without(attrs, names) == attrv + Without(attrs[i..], names)
      invariant gattr in Names(Without(attrs, names)) <==> gattr in Names(Without(attrs[i..], names))
    {
      assert attrs[i..][1..] == attrs[i + 1..];
      DistinctConcat([attrs[i]], Without(attrs[i + 1..], names));
      assert [] + Without(attrs[i + 1..], names) == Without(attrs[i + 1..], names);
      assert attrs[i].name in names <==> attrs[i].name in Names(group);
      var attrp := TupleTypeAttr(group, attrs[i].name);
      if attrp.None? {
        if attrs[i].name == gattr {
          return Err(InvalidArgument);
        }
        attrv := attrv + [attrs[i]];
      }
    }
    assert attrs[|attrs|..] == [] && attrv + [] == attrv;
    return Ok(attrv);
  }

  // ----- UNGROUP -----

  /** A name of sub, other than attr itself, that is also a name of attrs. */
  predicate Clash(attrs: seq<Attr>, sub: seq<Attr>, attr: Name) {
    sub != [] && ((sub[0].name != attr && sub[0].name in Names(attrs)) || Clash(attrs, sub[1..], attr))
  }

  /** The attributes of the relations that a relation-typed attribute holds. */
  function GroupedAttrs(attrs: seq<Attr>, attr: Name): Attrs {
    var found := FindAttr(attrs, attr);
    if found.None? then Err(NoSuchName(attr))
    else match found.value.typ
      case Relation(Tuple(sub)) => Ok(sub)
      case _ => Err(InvalidArgument)
  }

  function UngroupAttrs(attrs: seq<Attr>, attr: Name): Attrs {
    var sub := GroupedAttrs(attrs, attr);
    if sub.Err? then sub
    else if Clash(attrs, sub.value, attr) then Err(InvalidArgument)
    else Ok(Without(attrs, [attr]) + sub.value)
  }

  method UngroupType(attrs: seq<Attr>, attr: Name) returns (r: Attrs)
    requires WellFormed(Tuple(attrs))
    ensures r == UngroupAttrs(attrs, attr)
  {
    var relattrp := TupleTypeAttr(attrs, attr);
    if relattrp.None? {
      return Err(NoSuchName(attr));
    }
    if !relattrp.value.typ.Relation? {
      return Err(InvalidArgument);
    }
    var attrv := CopyOthers(attrs, attr);
    var sub := relattrp.value.typ.base.attrs;
    ghost var kept := attrv;
    for i := 0 to |sub|
      invariant attrv == kept + sub[..i]
      invariant Clash(attrs, sub, attr) == Clash(attrs, sub[i..], attr)
    {
      assert sub[i..][1..] == sub[i + 1..];
      var clashing := TupleTypeAttr(attrs, sub[i].name);
      if sub[i].name != attr && clashing.Some? {
        return Err(InvalidArgument);
      }
      attrv := attrv + [sub[i]];
    }
    assert sub[..|sub|] == sub;
    return Ok(attrv);
  }

  /** Copies the attributes with other names. */
  method CopyOthers(attrs: seq<Attr>, attr: Name) returns (rest: seq<Attr>)
    ensures rest == Without(attrs, [attr])
  {
    rest := [];
    for i := 0 to |attrs|
      invariant rest + Without(attrs[i..], [attr]) == Without(attrs, [attr])
    {
      WithoutStep(attrs, [attr], i, rest);
      if attrs[i].name != attr {
        rest := rest + [attrs[i]];
      }
    }
    assert Without([], [attr]) == [] && rest + [] == rest;
  }

  // ----- When they succeed -----

  /** What a successful GROUP makes of the attributes: the grouped ones go, the group comes last. */
  lemma GroupResult(attrs: seq<Attr>, names: seq<Name>, gattr: Name)
    requires WellFormed(Tuple(attrs)) && ProjectAttrs(attrs, names).Ok?
    ensures NameList(ProjectAttrs(attrs, names).value) == names
    ensures GroupAttrs(attrs, names, gattr).Ok? <==> NoRepeats(names) && gattr !in Names(attrs) - (set n | n in names)
  {
    ProjectMeans(attrs, names);
    WithoutMeans(attrs, names);
    assert NameList(ProjectAttrs(attrs, names).value) == names;
  }

  /**
   * GROUP succeeds iff the grouped names are attributes, none is listed twice, and the new name is not
   * that of an attribute left over; the result is well-formed and as long as the array that was reserved for it.
   */
  lemma GroupSucceeds(attrs: seq<Attr>, names: seq<Name>, gattr: Name)
    requires WellFormed(Tuple(attrs))
    ensures GroupAttrs(attrs, names, gattr).Ok? <==>
      && (forall n :: n in names ==> n in Names(attrs)) && NoRepeats(names)
      && gattr !in Names(attrs) - (set n | n in names)
    ensures GroupAttrs(attrs, names, gattr).Ok? ==> WellFormed(Tuple(GroupAttrs(attrs, names, gattr).value))
    ensures GroupAttrs(attrs, names, gattr).Ok? ==> |GroupAttrs(attrs, names, gattr).value| == |attrs| + 1 - |names|
  {
    hide DistinctNames, NoRepeats, Without, ProjectAttrs;
    ProjectMeans(attrs, names);
    if ProjectAttrs(attrs, names).Ok? {
      GroupResult(attrs, names, gattr);
      if GroupAttrs(attrs, names, gattr).Ok? {
        var sub := ProjectAttrs(attrs, names).value;
        GroupWellFormed(attrs, Without(attrs, names), sub, gattr) by {
          WithoutMeans(attrs, names);
        }
        WithoutSize(attrs, names);
        NoRepeatsBySize(names);
      }
    }
  }

  lemma GroupWellFormed(attrs: seq<Attr>, rest: seq<Attr>, sub: seq<Attr>, gattr: Name)
    requires WellFormed(Tuple(attrs)) && DistinctNames(rest) && DistinctNames(sub) && gattr !in Names(rest)
    requires (forall a :: a in rest ==> a in attrs) && forall a :: a in sub ==> a in attrs
    ensures WellFormed(Tuple(rest + [Attr(gattr, Relation(Tuple(sub)))]))
  {
    hide DistinctNames;
    var g := Attr(gattr, Relation(Tuple(sub)));
    WellFormedPart(attrs, rest);
    WellFormedPart(attrs, sub);
    assert WellFormed(g.typ);
    WellFormedSingle(g);
    WellFormedConcat(rest, [g]);
  }

  lemma WellFormedSingle(a: Attr)
    requires WellFormed(a.typ)
    ensures WellFormed(Tuple([a])) && Names([a]) == {a.name}
  {}

  lemma {:induction false} ClashMeans(attrs: seq<Attr>, sub: seq<Attr>, attr: Name)
    ensures Clash(attrs, sub, attr) <==> exists n :: n in Names(sub) && n != attr && n in Names(attrs)
  {
    if sub != [] {
      ClashMeans(attrs, sub[1..], attr);
      NamesStep(sub);
    }
  }

  /**
   * UNGROUP succeeds iff the name is that of a relation-typed attribute and no attribute of its relations,
   * other than one with that same name, has the name of an attribute; the result is well-formed and as long as
   * the array that was reserved for it.
   */
  lemma UngroupSucceeds(attrs: seq<Attr>, attr: Name)
    requires WellFormed(Tuple(attrs))
    ensures UngroupAttrs(attrs, attr).Ok? <==>
            GroupedAttrs(attrs, attr).Ok? && Names(GroupedAttrs(attrs, attr).value) !! Names(attrs) - {attr}
    ensures UngroupAttrs(attrs, attr).Ok? ==> WellFormed(Tuple(UngroupAttrs(attrs, attr).value))
    ensures UngroupAttrs(attrs, attr).Ok? ==>
      |UngroupAttrs(attrs, attr).value| == |attrs| + |GroupedAttrs(attrs, attr).value| - 1
  {
    hide DistinctNames, Without, Clash;
    if GroupedAttrs(attrs, attr).Ok? {
      var rest, sub := Without(attrs, [attr]), GroupedAttrs(attrs, attr).value;
      ClashMeans(attrs, sub, attr);
      WithoutMeans(attrs, [attr]);
      assert (set n | n in [attr]) == {attr};
      WithoutSize(attrs, [attr]);
      WellFormedPart(attrs, rest);
      GroupedWellFormed(attrs, attr);
      WellFormedConcat(rest, sub);
    }
  }

  lemma GroupedWellFormed(attrs: seq<Attr>, attr: Name)
    requires WellFormed(Tuple(attrs)) && GroupedAttrs(attrs, attr).Ok?
    ensures WellFormed(Tuple(GroupedAttrs(attrs, attr).value))
  {
    var found := FindAttr(attrs, attr).value;
    assert found in attrs;
    assert WellFormed(found.typ) && WellFormed(found.typ.base);
  }

  /** A failing GROUP reports the first name that is missing; if none is, a repeated name or a clash. */
  lemma GroupFails(attrs: seq<Attr>, names: seq<Name>, gattr: Name)
    requires GroupAttrs(attrs, names, gattr).Err?
    ensures var e := GroupAttrs(attrs, names, gattr).error;
      if forall n :: n in names ==> n in Names(attrs) then e == InvalidArgument
      else exists i: nat :: MissingAt(attrs, names, i) && e == NoSuchName(names[i])
  {
    ProjectMeans(attrs, names);
    if ProjectAttrs(attrs, names).Err? {
      ProjectFails(attrs, names);
    }
  }

  // ----- What becomes of the attributes -----

  lemma RestHeading(attrs: seq<Attr>, names: seq<Name>)
    requires DistinctNames(attrs)
    ensures DistinctNames(Without(attrs, names))
    ensures Heading(Without(attrs, names)) == Heading(attrs) - (set n | n in names)
  {
    WithoutMeans(attrs, names);
    HeadingKeys(attrs);
    HeadingOfPart(attrs, Without(attrs, names));
  }

  lemma HeadingOfOne(a: Attr)
    ensures Heading([a]) == map[a.name := MeaningOf(a.typ)]
  {
    assert [a][1..] == [];
  }

  /**
   * GROUP takes the named attributes out of the heading and puts the group in, whose heading has exactly the named
   * attributes with their types.
   */
  lemma GroupMeans(attrs: seq<Attr>, names: seq<Name>, gattr: Name)
    requires WellFormed(Tuple(attrs)) && GroupAttrs(attrs, names, gattr).Ok?
    ensures var h, gone := Heading(attrs), set n | n in names;
      Heading(GroupAttrs(attrs, names, gattr).value) == (h - gone)[gattr := MRelation(MTuple(Restrict(h, gone)))]
  {
    var sub, rest := ProjectAttrs(attrs, names).value, Without(attrs, names);
    var g := Attr(gattr, Relation(Tuple(sub)));
    ProjectMeans(attrs, names);
    GroupResult(attrs, names, gattr);
    hide DistinctNames, Without, Names, NoRepeats;
    assert MeaningOf(g.typ) == MRelation(MTuple(Heading(sub)));
    hide Heading, MeaningOf, Restrict;
    assert GroupAttrs(attrs, names, gattr).value == rest + [g];
    RestHeading(attrs, names);
    HeadingOfPart(attrs, sub);
    HeadingConcat(rest, [g]);
    HeadingOfOne(g);
    HeadingKeys(rest);
    NotLeftOver(attrs, names, gattr);
    AddedLast(Heading(rest), gattr, MeaningOf(g.typ));
  }

  lemma AddedLast(h: map<Name, Meaning>, n: Name, m: Meaning)
    requires n !in h
    ensures map[n := m] + h == h[n := m]
  {}

  lemma NotLeftOver(attrs: seq<Attr>, names: seq<Name>, gattr: Name)
    requires WellFormed(Tuple(attrs)) && GroupAttrs(attrs, names, gattr).Ok?
    ensures gattr !in Names(Without(attrs, names))
  {
    ProjectMeans(attrs, names);
    GroupResult(attrs, names, gattr);
  }

  /** UNGROUP takes the group out of the heading and puts its heading in. */
  lemma UngroupMeans(attrs: seq<Attr>, attr: Name)
    requires WellFormed(Tuple(attrs)) && UngroupAttrs(attrs, attr).Ok?
    ensures var h := Heading(attrs);
      attr in h && h[attr].MRelation? && h[attr].base.MTuple? &&
      Heading(UngroupAttrs(attrs, attr).value) == (h - {attr}) + h[attr].base.heading
  {
    var found, sub := FindAttr(attrs, attr).value, GroupedAttrs(attrs, attr).value;
    HeadingAt(attrs, found);
    UngroupDisjoint(attrs, attr);
    hide DistinctNames, Without, Names, Clash;
    assert MeaningOf(found.typ) == MRelation(MTuple(Heading(sub)));
    hide Heading, MeaningOf;
    assert (set n | n in [attr]) == {attr};
    RestHeading(attrs, [attr]);
    HeadingConcat(Without(attrs, [attr]), sub);
    HeadingKeys(sub);
    HeadingKeys(attrs);
    DisjointSum(Heading(sub), Heading(attrs) - {attr});
  }

  lemma DisjointSum(h: map<Name, Meaning>, h': map<Name, Meaning>)
    requires h.Keys !! h'.Keys
    ensures h + h' == h' + h
  {}

  lemma UngroupDisjoint(attrs: seq<Attr>, attr: Name)
    requires WellFormed(Tuple(attrs)) && UngroupAttrs(attrs, attr).Ok?
    ensures Names(GroupedAttrs(attrs, attr).value) !! Names(attrs) - {attr}
  {
    UngroupSucceeds(attrs, attr);
  }

  // ----- Each undoes the other -----

  /** Ungrouping the new attribute of a successful GROUP succeeds and restores the type. */
  lemma GroupThenUngroup(attrs: seq<Attr>, names: seq<Name>, gattr: Name)
    requires WellFormed(Tuple(attrs)) && GroupAttrs(attrs, names, gattr).Ok?
    ensures WellFormed(Tuple(GroupAttrs(attrs, names, gattr).value))
    ensures var u := UngroupAttrs(GroupAttrs(attrs, names, gattr).value, gattr);
            u.Ok? && TypeEquals(Tuple(u.value), Tuple(attrs))
  {
    hide DistinctNames, NoRepeats, Without, ProjectAttrs, Clash, TypeEquals;
    GroupSucceeds(attrs, names, gattr);
    GroupResult(attrs, names, gattr);
    ProjectMeans(attrs, names);
    WithoutMeans(attrs, names);
    var sub, rest := ProjectAttrs(attrs, names).value, Without(attrs, names);
    GroupedLast(rest, sub, gattr);
    DistinctConcat(rest, sub);
    WithoutSize(attrs, names);
    NoRepeatsBySize(names);
    SameAttributes(attrs, rest + sub);
  }

  /** Ungrouping a last attribute whose relations share no name with the other attributes. */
  lemma GroupedLast(rest: seq<Attr>, sub: seq<Attr>, gattr: Name)
    requires DistinctNames(rest) && gattr !in Names(rest) && Names(sub) !! Names(rest)
    ensures UngroupAttrs(rest + [Attr(gattr, Relation(Tuple(sub)))], gattr) == Ok(rest + sub)
  {
    var g := Attr(gattr, Relation(Tuple(sub)));
    DistinctConcat(rest, [g]);
    FindOwn(rest + [g], g);
    ClashMeans(rest + [g], sub, gattr);
    WithoutLast(rest, g);
  }

  lemma WithoutLast(rest: seq<Attr>, g: Attr)
    requires g.name !in Names(rest)
    ensures Without(rest + [g], [g.name]) == rest
  {
    WithoutConcat(rest, [g], [g.name]);
    WithoutAll(rest, [g.name]);
    WithoutAll([g], [g.name]);
  }

  /** Grouping again what a successful UNGROUP spread out succeeds and restores the type. */
  lemma UngroupThenGroup(attrs: seq<Attr>, attr: Name)
    requires WellFormed(Tuple(attrs)) && UngroupAttrs(attrs, attr).Ok?
    ensures var names := NameList(GroupedAttrs(attrs, attr).value);
            var g := GroupAttrs(UngroupAttrs(attrs, attr).value, names, attr);
            g.Ok? && TypeEquals(Tuple(g.value), Tuple(attrs))
  {
    hide DistinctNames, NoRepeats, Without, ProjectAttrs, Clash, TypeEquals;
    var found := FindAttr(attrs, attr).value;
    var rest, sub := Without(attrs, [attr]), GroupedAttrs(attrs, attr).value;
    UngroupSucceeds(attrs, attr);
    GroupedWellFormed(attrs, attr);
    ProjectOnNames(rest + sub, sub);
    WithoutSecondPart(rest, sub);
    WithoutMeans(attrs, [attr]);
    WithoutSize(attrs, [attr]);
    assert (set n | n in [attr]) == {attr};
    DistinctConcat(rest, [found]);
    DistinctByNames([found]);
    SameAttributes(attrs, rest + [found]);
  }

  lemma WithoutSecondPart(a: seq<Attr>, b: seq<Attr>)
    requires DistinctNames(a + b)
    ensures Without(a + b, NameList(b)) == a
  {
    DistinctConcat(a, b);
    NameListMeans(b);
    WithoutConcat(a, b, NameList(b));
    forall x | x in a ensures x.name !in NameList(b) {
      assert x.name in Names(a);
    }
    forall x | x in b ensures x.name in NameList(b) {
      assert x.name in Names(b);
    }
    WithoutAll(a, NameList(b));
    WithoutAll(b, NameList(b));
  }
}
