/** WRAP and UNWRAP on tuple types (obj/type.c). */
module WrapTypes {
  import opened ByteStrings
  import opened Options
  import opened Types
  import opened TupleTypes

  /** WRAP { attrs } AS name. */
  datatype Wrapping = Wrapping(attrs: seq<Name>, name: Name)

  function AllNames(wrapv: seq<Wrapping>): seq<Name> {
    if wrapv == [] then [] else wrapv[0].attrs + AllNames(wrapv[1..])
  }

  function WrapNames(wrapv: seq<Wrapping>): seq<Name> {
    if wrapv == [] then [] else [wrapv[0].name] + WrapNames(wrapv[1..])
  }

  /** The attributes that are not named, in their order. */
  function Without(attrs: seq<Attr>, names: seq<Name>): seq<Attr> {
    if attrs == [] then []
    else (if attrs[0].name in names then [] else [attrs[0]]) + Without(attrs[1..], names)
  }

  /**
   * The new type, or how the attempt to build it ends: with an error, with a store outside of the array that was
   * reserved for the attributes, or because no array of that size can be reserved.
   */
  datatype Built = Done(attrs: seq<Attr>) | Failed(error: TypeError) | Overrun | NoMemory

  /** The array after these attributes were stored behind the others. */
  function Stored(buf: seq<Attr>, more: seq<Attr>, room: int): Built {
    if |buf| + |more| > room then Overrun else Done(buf + more)
  }

  // ----- WRAP -----

  /** One tuple-typed attribute for each wrapping. */
  function WrapTuples(attrs: seq<Attr>, wrapv: seq<Wrapping>): Attrs {
    if wrapv == [] then Ok([])
    else
      var sub := ProjectAttrs(attrs, wrapv[0].attrs);
      if sub.Err? then sub
      else Prefixed([Attr(wrapv[0].name, Tuple(sub.value))], WrapTuples(attrs, wrapv[1..]))
  }

  /** The number of attributes the code reserves before it looks at any of them. */
  function WrapCount(n: int, wrapv: seq<Wrapping>): int
    decreases wrapv
  {
    if wrapv == [] then n else WrapCount(n + 1 - |wrapv[0].attrs|, wrapv[1..])
  }

  /** Stores the attributes for the wrappings in an array with this room. */
  function StoreTuples(attrs: seq<Attr>, wrapv: seq<Wrapping>, buf: seq<Attr>, room: int): Built
    decreases wrapv
  {
    if wrapv == [] then Done(buf)
    else
      var sub := ProjectAttrs(attrs, wrapv[0].attrs);
      if sub.Err? then Failed(sub.error)
      else if |buf| >= room then Overrun
      else StoreTuples(attrs, wrapv[1..], buf + [Attr(wrapv[0].name, Tuple(sub.value))], room)
  }

  /** The final comparison of the counters. */
  function Counted(b: Built, count: int): Built {
    if b.Done? && |b.attrs| != count then Failed(InvalidArgument) else b
  }

  function WrapAttrs(attrs: seq<Attr>, wrapv: seq<Wrapping>): Built {
    var attrc := WrapCount(|attrs|, wrapv);
    if attrc < 0 then NoMemory
    else
      var tuples := StoreTuples(attrs, wrapv, [], attrc);
      if !tuples.Done? then tuples
      else Counted(Stored(tuples.attrs, Without(attrs, AllNames(wrapv)), attrc), attrc)
  }

  method WrapTupleType(attrs: seq<Attr>, wrapv: seq<Wrapping>) returns (r: Built)
    ensures r == WrapAttrs(attrs, wrapv)
  {
    var attrc := |attrs|;
    for i := 0 to |wrapv|
      invariant WrapCount(|attrs|, wrapv) == WrapCount(attrc, wrapv[i..])
    {
      assert wrapv[i..][1..] == wrapv[i + 1..];
      attrc := attrc + 1 - |wrapv[i].attrs|;
    }
    if attrc < 0 {
      return NoMemory;
    }
    var attrv := new Attr[attrc](i => Attr([], Scalar([])));

    for i := 0 to |wrapv|
      invariant i <= attrv.Length
      invariant StoreTuples(attrs, wrapv, [], attrc) == StoreTuples(attrs, wrapv[i..], attrv[..i], attrc)
    {
      assert wrapv[i..][1..] == wrapv[i + 1..];
      var sub := ProjectTupleType(attrs, wrapv[i].attrs);
      if sub.Err? {
        return Failed(sub.error);
      }
      if i >= attrv.Length {
        return Overrun;
      }
      ghost var before := attrv[..i];
      attrv[i] := Attr(wrapv[i].name, Tuple(sub.value));
      assert attrv[..i + 1] == before + [Attr(wrapv[i].name, Tuple(sub.value))];
    }
    var k, ok := CopyRemaining(attrs, wrapv, attrv, |wrapv|);
    if !ok {
      return Overrun;
    }
    return if k != attrc then Failed(InvalidArgument) else Done(attrv[..k]);
  }

  /** Copies the attributes that appear in no wrapping behind the first k, unless there is no room. */
  method CopyRemaining(attrs: seq<Attr>, wrapv: seq<Wrapping>, attrv: array<Attr>, first: nat)
    returns (k: nat, ok: bool)
    requires first <= attrv.Length
    modifies attrv
    ensures var b := Stored(old(attrv[..first]), Without(attrs, AllNames(wrapv)), attrv.Length);
      ok == b.Done? && (ok ==> k <= attrv.Length && attrv[..k] == b.attrs)
  {
    k := first;
    ghost var names := AllNames(wrapv);
    ghost var done: seq<Attr> := [];
    for i := 0 to |attrs|
      invariant k == first + |done| <= attrv.Length && attrv[..k] == old(attrv[..first]) + done
      invariant done + Without(attrs[i..], names) == Without(attrs, names)
    {
      var j := 0;
      while j < |wrapv| && attrs[i].name !in wrapv[j].attrs
        invariant j <= |wrapv|
        invariant attrs[i].name in names <==> attrs[i].name in AllNames(wrapv[j..])
      {
        assert wrapv[j..][1..] == wrapv[j + 1..];
        j := j + 1;
      }
      WithoutStep(attrs, names, i, done);
      if j == |wrapv| {
        if k >= attrv.Length {
          return k, false;
        }
        attrv[k] := attrs[i];
        k := k + 1;
        done := done + [attrs[i]];
      }
    }
    assert Without([], names) == [] && done + [] == done;
    return k, true;
  }

  lemma WithoutStep(attrs: seq<Attr>, names: seq<Name>, i: nat, done: seq<Attr>)
    requires i < |attrs|
    ensures var kept := if attrs[i].name in names then done else done + [attrs[i]];
      done + Without(attrs[i..], names) == kept + Without(attrs[i + 1..], names)
  {
    var tail := Without(attrs[i + 1..], names);
    assert attrs[i..][1..] == attrs[i + 1..];
    assert [] + tail == tail && done + ([attrs[i]] + tail) == done + [attrs[i]] + tail;
  }

  // ----- UNWRAP -----

  function UnwrapSubs(attrs: seq<Attr>, names: seq<Name>): Attrs {
    if names == [] then Ok([])
    else
      var found := FindAttr(attrs, names[0]);
      if found.None? then Err(NoSuchName(names[0]))
      else if !found.value.typ.Tuple? then Err(InvalidArgument)
      else Prefixed(found.value.typ.attrs, UnwrapSubs(attrs, names[1..]))
  }

  function UnwrapAttrs(attrs: seq<Attr>, names: seq<Name>): Built {
    var subs := UnwrapSubs(attrs, names);
    if subs.Err? then Failed(subs.error)
    else
      var nattrc := |attrs| + |subs.value| - |names|;
      if nattrc < 0 then NoMemory
      else Counted(Stored([], subs.value + Without(attrs, names), nattrc), nattrc)
  }

  method UnwrapTupleType(attrs: seq<Attr>, names: seq<Name>) returns (r: Built)
    ensures r == UnwrapAttrs(attrs, names)
  {
    var nattrc := |attrs|;
    ghost var subs: seq<Attr> := [];
    PrefixedTwice([], [], UnwrapSubs(attrs, names));
    for i := 0 to |names|
      invariant UnwrapSubs(attrs, names) == Prefixed(subs, UnwrapSubs(attrs, names[i..]))
      invariant nattrc == |attrs| + |subs| - i
      invariant forall l :: 0 <= l < i ==> IsTupleAttr(attrs, names[l])
    {
      assert names[i..][1..] == names[i + 1..];
      var tuptyp := TupleTypeAttr(attrs, names[i]);
      if tuptyp.None? {
        return Failed(NoSuchName(names[i]));
      }
      if !tuptyp.value.typ.Tuple? {
        return Failed(InvalidArgument);
      }
      var sub := tuptyp.value.typ.attrs;
      nattrc := nattrc + |sub| - 1;
      PrefixedTwice(subs, sub, UnwrapSubs(attrs, names[i + 1..]));
      subs := subs + sub;
    }
    assert names[|names|..] == [] && subs + [] == subs;
    if nattrc < 0 {
      return NoMemory;
    }
    var attrv := new Attr[nattrc](i => Attr([], Scalar([])));
    var k, ok := CopySubs(attrs, names, attrv);
    if ok {
      k, ok := CopyUnnamed(attrs, names, attrv, k);
    }
    assert [] + (subs + Without(attrs, names)) == subs + Without(attrs, names);
    if !ok {
      return Overrun;
    }
    return if k != nattrc then Failed(InvalidArgument) else Done(attrv[..k]);
  }

  /** Copies the attributes of the tuples into the array, unless there is no room. */
  method CopySubs(attrs: seq<Attr>, names: seq<Name>, attrv: array<Attr>) returns (k: nat, ok: bool)
    requires forall n :: n in names ==> IsTupleAttr(attrs, n)
    modifies attrv
    ensures UnwrapSubs(attrs, names).Ok?
    ensures var b := Stored([], UnwrapSubs(attrs, names).value, attrv.Length);
      ok == b.Done? && (ok ==> k <= attrv.Length && attrv[..k] == UnwrapSubs(attrs, names).value)
  {
    k := 0;
    UnwrapSubsMeans(attrs, names);
    PrefixedTwice([], [], UnwrapSubs(attrs, names));
    for i := 0 to |names|
      invariant k <= attrv.Length
      invariant UnwrapSubs(attrs, names) == Prefixed(attrv[..k], UnwrapSubs(attrs, names[i..]))
    {
      assert names[i..][1..] == names[i + 1..] && names[i] in names;
      var tuptyp := TupleTypeAttr(attrs, names[i]);
      var sub := tuptyp.value.typ.attrs;
      ghost var before := attrv[..k];
      PrefixedTwice(before, sub, UnwrapSubs(attrs, names[i + 1..]));
      for j := 0 to |sub|
        invariant k == |before| + j <= attrv.Length && attrv[..k] == before + sub[..j]
      {
        if k >= attrv.Length {
          return k, false;
        }
        attrv[k] := sub[j];
        k := k + 1;
      }
      assert sub[..|sub|] == sub;
    }
    assert names[|names|..] == [] && attrv[..k] + [] == attrv[..k];
    return k, true;
  }

  /** Copies the attributes that are not named behind the first ones, unless there is no room. */
  method CopyUnnamed(attrs: seq<Attr>, names: seq<Name>, attrv: array<Attr>, first: nat) returns (k: nat, ok: bool)
    requires first <= attrv.Length
    modifies attrv
    ensures var b := Stored(old(attrv[..first]), Without(attrs, names), attrv.Length);
      ok == b.Done? && (ok ==> k <= attrv.Length && attrv[..k] == b.attrs)
  {
    k := first;
    ghost var done: seq<Attr> := [];
    for i := 0 to |attrs|
      invariant k == first + |done| <= attrv.Length && attrv[..k] == old(attrv[..first]) + done
      invariant done + Without(attrs[i..], names) == Without(attrs, names)
    {
      WithoutStep(attrs, names, i, done);
      if attrs[i].name !in names {
        if k >= attrv.Length {
          return k, false;
        }
        attrv[k] := attrs[i];
        k := k + 1;
        done := done + [attrs[i]];
      }
    }
    assert Without([], names) == [] && done + [] == done;
    return k, true;
  }

  // ----- Counting -----

  lemma {:induction false} WithoutHas(attrs: seq<Attr>, names: seq<Name>, a: Attr)
    ensures a in Without(attrs, names) <==> a in attrs && a.name !in names
  {
    if attrs != [] {
      WithoutHas(attrs[1..], names, a);
      assert attrs == [attrs[0]] + attrs[1..];
    }
  }

  lemma WithoutNames(attrs: seq<Attr>, names: seq<Name>)
    ensures forall a :: a in Without(attrs, names) <==> a in attrs && a.name !in names
    ensures Names(Without(attrs, names)) == Names(attrs) - (set n | n in names)
  {
    forall a ensures a in Without(attrs, names) <==> a in attrs && a.name !in names {
      WithoutHas(attrs, names, a);
    }
  }

  lemma {:induction false} WithoutDistinct(attrs: seq<Attr>, names: seq<Name>)
    requires DistinctNames(attrs)
    ensures DistinctNames(Without(attrs, names))
  {
    if attrs != [] {
      var rest := Without(attrs[1..], names);
      WithoutDistinct(attrs[1..], names);
      WithoutNames(attrs[1..], names);
      assert [] + rest == rest && ([attrs[0]] + rest)[1..] == rest;
    }
  }

  lemma WithoutMeans(attrs: seq<Attr>, names: seq<Name>)
    requires DistinctNames(attrs)
    ensures DistinctNames(Without(attrs, names)) && Names(Without(attrs, names)) == Names(attrs) - (set n | n in names)
    ensures forall a :: a in Without(attrs, names) <==> a in attrs && a.name !in names
  {
    WithoutNames(attrs, names);
    WithoutDistinct(attrs, names);
  }

  /** Leaving out existing attributes makes the list shorter by the number of different names. */
  lemma WithoutSize(attrs: seq<Attr>, names: seq<Name>)
    requires DistinctNames(attrs) && forall n :: n in names ==> n in Names(attrs)
    ensures |Without(attrs, names)| == |attrs| - |set n | n in names|
  {
    var gone := set n | n in names;
    WithoutMeans(attrs, names);
    DistinctByNames(attrs);
    DistinctByNames(Without(attrs, names));
    assert Names(attrs) == (Names(attrs) - gone) + gone;
    assert |Names(attrs)| == |Names(attrs) - gone| + |gone|;
  }

  lemma {:induction false} WrapCountIs(n: int, wrapv: seq<Wrapping>)
    ensures WrapCount(n, wrapv) == n + |wrapv| - |AllNames(wrapv)|
    decreases wrapv
  {
    if wrapv != [] {
      WrapCountIs(n + 1 - |wrapv[0].attrs|, wrapv[1..]);
    }
  }

  lemma {:induction false} WrapTuplesMeans(attrs: seq<Attr>, wrapv: seq<Wrapping>)
    ensures WrapTuples(attrs, wrapv).Ok? <==> forall n :: n in AllNames(wrapv) ==> n in Names(attrs)
    ensures WrapTuples(attrs, wrapv).Ok? ==> NameList(WrapTuples(attrs, wrapv).value) == WrapNames(wrapv)
  {
    if wrapv != [] {
      ProjectMeans(attrs, wrapv[0].attrs);
      WrapTuplesMeans(attrs, wrapv[1..]);
      if WrapTuples(attrs, wrapv).Ok? {
        var tuples := WrapTuples(attrs, wrapv).value;
        assert tuples[1..] == WrapTuples(attrs, wrapv[1..]).value;
      }
    }
  }

  lemma {:induction false} WrapNamesLength(wrapv: seq<Wrapping>)
    ensures |WrapNames(wrapv)| == |wrapv|
  {
    if wrapv != [] {
      WrapNamesLength(wrapv[1..]);
    }
  }

  /** The number of wrappings before the first one with a name that is not there. */
  function Present(attrs: seq<Attr>, wrapv: seq<Wrapping>): nat {
    if wrapv == [] || ProjectAttrs(attrs, wrapv[0].attrs).Err? then 0 else 1 + Present(attrs, wrapv[1..])
  }

  lemma {:induction false} StoreTuplesIs(attrs: seq<Attr>, wrapv: seq<Wrapping>, buf: seq<Attr>, room: int)
    requires |buf| <= room
    ensures Present(attrs, wrapv) <= |wrapv|
    ensures WrapTuples(attrs, wrapv).Ok? <==> Present(attrs, wrapv) == |wrapv|
    ensures StoreTuples(attrs, wrapv, buf, room) ==
            if |buf| + Present(attrs, wrapv) > room then Overrun
            else if WrapTuples(attrs, wrapv).Err? then Failed(WrapTuples(attrs, wrapv).error)
            else Done(buf + WrapTuples(attrs, wrapv).value)
    decreases wrapv
  {
    if wrapv == [] {
      assert buf + [] == buf;
    } else {
      var sub := ProjectAttrs(attrs, wrapv[0].attrs);
      if sub.Ok? {
        var a, more := Attr(wrapv[0].name, Tuple(sub.value)), WrapTuples(attrs, wrapv[1..]);
        if |buf| < room {
          StoreTuplesIs(attrs, wrapv[1..], buf + [a], room);
        } else {
          StoreTuplesIs(attrs, wrapv[1..], buf, room);
        }
        assert more.Ok? ==> buf + [a] + more.value == buf + ([a] + more.value);
      }
    }
  }

  /** All ways in which WRAP ends, decided by the number of reserved attributes, missing names and repetitions. */
  lemma WrapOutcome(attrs: seq<Attr>, wrapv: seq<Wrapping>)
    requires WellFormed(Tuple(attrs))
    ensures WrapAttrs(attrs, wrapv) ==
            var attrc, tuples := |attrs| + |wrapv| - |AllNames(wrapv)|, WrapTuples(attrs, wrapv);
            if attrc < 0 then NoMemory
            else if Present(attrs, wrapv) > attrc then Overrun
            else if tuples.Err? then Failed(tuples.error)
            else if NoRepeats(AllNames(wrapv)) then Done(tuples.value + Without(attrs, AllNames(wrapv)))
            else Overrun
  {
    hide WrapCount, StoreTuples, WrapTuples, Present, Without, DistinctNames, NoRepeats;
    var attrc := |attrs| + |wrapv| - |AllNames(wrapv)|;
    WrapCountIs(|attrs|, wrapv);
    WrapTuplesMeans(attrs, wrapv);
    if attrc >= 0 {
      StoreTuplesIs(attrs, wrapv, [], attrc);
      if WrapTuples(attrs, wrapv).Ok? {
        var tuples := WrapTuples(attrs, wrapv).value;
        assert [] + tuples == tuples;
        WrapNamesLength(wrapv);
        WithoutSize(attrs, AllNames(wrapv));
        NoRepeatsBySize(AllNames(wrapv));
      }
    }
  }

  /**
   * WRAP succeeds iff every wrapped name is an attribute and none is wrapped twice. If the names are attributes,
   * every store is within the array iff none is wrapped twice; the final comparison of the two counters never
   * finds anything, because a repeated name makes the stores run over the end before.
   */
  lemma WrapSucceeds(attrs: seq<Attr>, wrapv: seq<Wrapping>)
    requires WellFormed(Tuple(attrs))
    ensures var r, present := WrapAttrs(attrs, wrapv), forall n :: n in AllNames(wrapv) ==> n in Names(attrs);
      (r.Done? <==> present && NoRepeats(AllNames(wrapv))) &&
      (present ==> (r == Overrun || r == NoMemory <==> !NoRepeats(AllNames(wrapv)))) &&
      (r.Failed? ==> r.error.NoSuchName? && r.error.name in AllNames(wrapv) && r.error.name !in Names(attrs))
  {
    WrapOutcome(attrs, wrapv);
    WrapTuplesMeans(attrs, wrapv);
    WrapError(attrs, wrapv);
    WrapNamesLength(wrapv);
    if WrapTuples(attrs, wrapv).Ok? {
      NoRepeatsBySize(AllNames(wrapv));
      WithoutSize(attrs, AllNames(wrapv));
      StoreTuplesIs(attrs, wrapv, [], |wrapv|);
    }
  }

  lemma {:induction false} ProjectError(attrs: seq<Attr>, names: seq<Name>)
    ensures var r := ProjectAttrs(attrs, names);
      r.Err? ==> r.error.NoSuchName? && r.error.name in names && r.error.name !in Names(attrs)
  {
    if names != [] {
      ProjectError(attrs, names[1..]);
    }
  }

  lemma {:induction false} WrapError(attrs: seq<Attr>, wrapv: seq<Wrapping>)
    ensures var r := WrapTuples(attrs, wrapv);
      r.Err? ==> r.error.NoSuchName? && r.error.name in AllNames(wrapv) && r.error.name !in Names(attrs)
  {
    if wrapv != [] {
      ProjectError(attrs, wrapv[0].attrs);
      WrapError(attrs, wrapv[1..]);
    }
  }

  predicate IsTupleAttr(attrs: seq<Attr>, n: Name) {
    FindAttr(attrs, n).Some? && FindAttr(attrs, n).value.typ.Tuple?
  }

  lemma {:induction false} UnwrapSubsMeans(attrs: seq<Attr>, names: seq<Name>)
    ensures UnwrapSubs(attrs, names).Ok? <==> forall n :: n in names ==> IsTupleAttr(attrs, n)
  {
    if names != [] {
      UnwrapSubsMeans(attrs, names[1..]);
      assert names == [names[0]] + names[1..] && names[0] in names;
    }
  }

  /** The first of the names that is not that of a tuple-typed attribute is at this place. */
  ghost predicate NoTupleAt(attrs: seq<Attr>, names: seq<Name>, i: nat) {
    i < |names| && !IsTupleAttr(attrs, names[i]) && forall j :: 0 <= j < i ==> IsTupleAttr(attrs, names[j])
  }

  /** UNWRAP fails with the error for this name, which is missing or that of no tuple. */
  predicate FailsAt(attrs: seq<Attr>, names: seq<Name>, name: Name) {
    UnwrapAttrs(attrs, names) == Failed(if name in Names(attrs) then InvalidArgument else NoSuchName(name))
  }

  /** A failing UNWRAP reports the first name that is not that of a tuple-typed attribute. */
  lemma {:induction false} UnwrapFails(attrs: seq<Attr>, names: seq<Name>)
    requires UnwrapSubs(attrs, names).Err?
    ensures exists i: nat :: NoTupleAt(attrs, names, i) && FailsAt(attrs, names, names[i])
  {
    if IsTupleAttr(attrs, names[0]) {
      var rest := names[1..];
      UnwrapFails(attrs, rest);
      var i: nat :| NoTupleAt(attrs, rest, i) && FailsAt(attrs, rest, rest[i]);
      forall j | 0 <= j < i + 1 ensures IsTupleAttr(attrs, names[j]) {
        assert j > 0 ==> rest[j - 1] == names[j];
      }
      assert NoTupleAt(attrs, names, i + 1);
    } else {
      assert NoTupleAt(attrs, names, 0);
    }
  }

  /**
   * UNWRAP succeeds iff every name is that of a tuple-typed attribute and no name occurs twice. If they are
   * tuple-typed attributes, every store is within the array iff no name occurs twice.
   */
  lemma UnwrapSucceeds(attrs: seq<Attr>, names: seq<Name>)
    requires WellFormed(Tuple(attrs))
    ensures var r, present := UnwrapAttrs(attrs, names), forall n :: n in names ==> IsTupleAttr(attrs, n);
      (r.Done? <==> present && NoRepeats(names)) &&
      (r.Failed? <==> !present) &&
      (r == Overrun || r == NoMemory <==> present && !NoRepeats(names)) &&
      (r.Done? ==> r.attrs == UnwrapSubs(attrs, names).value + Without(attrs, names))
  {
    UnwrapSubsMeans(attrs, names);
    if UnwrapSubs(attrs, names).Ok? {
      var all := UnwrapSubs(attrs, names).value + Without(attrs, names);
      assert [] + all == all;
      forall n | n in names ensures n in Names(attrs) {
        assert IsTupleAttr(attrs, n);
      }
      WithoutSize(attrs, names);
      NoRepeatsBySize(names);
    }
  }

  // ----- What becomes of the attributes -----

  lemma {:induction false} WrappedAt(attrs: seq<Attr>, wrapv: seq<Wrapping>, i: nat)
    requires WrapTuples(attrs, wrapv).Ok? && i < |wrapv|
    ensures |WrapTuples(attrs, wrapv).value| == |wrapv| && ProjectAttrs(attrs, wrapv[i].attrs).Ok?
    ensures WrapTuples(attrs, wrapv).value[i] == Attr(wrapv[i].name, Tuple(ProjectAttrs(attrs, wrapv[i].attrs).value))
  {
    OneEach(attrs, wrapv);
    if i > 0 {
      WrappedAt(attrs, wrapv[1..], i - 1);
    }
  }

  lemma {:induction false} NoRepeatsInside(wrapv: seq<Wrapping>, i: nat)
    requires NoRepeats(AllNames(wrapv)) && i < |wrapv|
    ensures NoRepeats(wrapv[i].attrs)
  {
    NoRepeatsInParts(wrapv[0].attrs, AllNames(wrapv[1..]));
    if i > 0 {
      NoRepeatsInside(wrapv[1..], i - 1);
    }
  }

  lemma {:induction false} NoRepeatsInParts(a: seq<Name>, b: seq<Name>)
    requires NoRepeats(a + b)
    ensures NoRepeats(a) && NoRepeats(b)
  {
    if a == [] {
      assert a + b == b;
    } else {
      assert (a + b)[1..] == a[1..] + b;
      NoRepeatsInParts(a[1..], b);
    }
  }

  /**
   * The first attributes of a WRAP are those of the wrappings in their order, each one with exactly the attributes
   * that its wrapping names; then come the attributes that no wrapping names.
   */
  lemma WrapMeans(attrs: seq<Attr>, wrapv: seq<Wrapping>)
    requires WellFormed(Tuple(attrs)) && WrapAttrs(attrs, wrapv).Done?
    ensures var r := WrapAttrs(attrs, wrapv).attrs;
      |wrapv| <= |r| &&
      (forall i :: 0 <= i < |wrapv| ==>
         r[i].name == wrapv[i].name &&
         MeaningOf(r[i].typ) == MTuple(Restrict(Heading(attrs), set n | n in wrapv[i].attrs))) &&
      forall a :: a in r[|wrapv|..] <==> a in attrs && forall i :: 0 <= i < |wrapv| ==> a.name !in wrapv[i].attrs
  {
    WrapOutcome(attrs, wrapv);
    WrapSucceeds(attrs, wrapv);
    hide WrapAttrs, DistinctNames;
    var r, rest := WrapAttrs(attrs, wrapv).attrs, Without(attrs, AllNames(wrapv));
    WrapTuplesMeans(attrs, wrapv);
    OneEach(attrs, wrapv);
    assert r[|wrapv|..] == rest;
    forall i | 0 <= i < |wrapv| ensures r[i].name == wrapv[i].name &&
      MeaningOf(r[i].typ) == MTuple(Restrict(Heading(attrs), set n | n in wrapv[i].attrs)) {
      WrappedAt(attrs, wrapv, i);
      NoRepeatsInside(wrapv, i);
      ProjectMeans(attrs, wrapv[i].attrs);
      HeadingOfPart(attrs, ProjectAttrs(attrs, wrapv[i].attrs).value);
    }
    WithoutMeans(attrs, AllNames(wrapv));
    forall a: Attr ensures a.name in AllNames(wrapv) <==> exists i :: 0 <= i < |wrapv| && a.name in wrapv[i].attrs {
      NamedSomewhere(wrapv, a.name);
    }
  }

  lemma {:induction false} NamedSomewhere(wrapv: seq<Wrapping>, n: Name)
    ensures n in AllNames(wrapv) <==> exists i :: 0 <= i < |wrapv| && n in wrapv[i].attrs
  {
    if wrapv != [] {
      NamedSomewhere(wrapv[1..], n);
      if n in AllNames(wrapv[1..]) {
        var i :| 0 <= i < |wrapv| - 1 && n in wrapv[1..][i].attrs;
        assert n in wrapv[i + 1].attrs;
      }
      if i :| 0 < i < |wrapv| && n in wrapv[i].attrs {
        assert n in wrapv[1..][i - 1].attrs;
      }
    }
  }

  predicate InTuple(attrs: seq<Attr>, n: Name, a: Attr) {
    IsTupleAttr(attrs, n) && a in FindAttr(attrs, n).value.typ.attrs
  }

  lemma {:induction false} SubsAre(attrs: seq<Attr>, names: seq<Name>, a: Attr)
    requires UnwrapSubs(attrs, names).Ok?
    ensures a in UnwrapSubs(attrs, names).value <==> exists n :: n in names && InTuple(attrs, n, a)
  {
    if names != [] {
      var rest := names[1..];
      SubsAre(attrs, rest, a);
      assert forall n :: n in names <==> n == names[0] || n in rest;
      assert UnwrapSubs(attrs, names).value ==
        FindAttr(attrs, names[0]).value.typ.attrs + UnwrapSubs(attrs, rest).value;
      hide UnwrapSubs;
      assert a in FindAttr(attrs, names[0]).value.typ.attrs <==> InTuple(attrs, names[0], a);
    }
  }

  /** The attribute is part of a tuple-typed attribute with one of these names. */
  ghost predicate PartOfNamed(attrs: seq<Attr>, names: seq<Name>, a: Attr) {
    exists t :: t in attrs && t.name in names && t.typ.Tuple? && a in t.typ.attrs
  }

  /** The attributes of an UNWRAP are those of the named attributes, and the ones that are not named. */
  lemma UnwrapMeans(attrs: seq<Attr>, names: seq<Name>)
    requires WellFormed(Tuple(attrs)) && UnwrapAttrs(attrs, names).Done?
    ensures forall a :: a in UnwrapAttrs(attrs, names).attrs <==>
      (a in attrs && a.name !in names) || PartOfNamed(attrs, names, a)
  {
    UnwrapSucceeds(attrs, names);
    UnwrapSubsMeans(attrs, names);
    WithoutMeans(attrs, names);
    var subs, rest := UnwrapSubs(attrs, names).value, Without(attrs, names);
    assert UnwrapAttrs(attrs, names).attrs == subs + rest;
    hide UnwrapAttrs, UnwrapSubs, Without, PartOfNamed;
    assert forall a :: a in subs + rest <==> a in subs || a in rest;
    forall a ensures a in UnwrapSubs(attrs, names).value <==> PartOfNamed(attrs, names, a) {
      UnwrappedFrom(attrs, names, a);
    }
  }

  lemma UnwrappedFrom(attrs: seq<Attr>, names: seq<Name>, a: Attr)
    requires DistinctNames(attrs) && UnwrapSubs(attrs, names).Ok?
    ensures a in UnwrapSubs(attrs, names).value <==> PartOfNamed(attrs, names, a)
  {
    SubsAre(attrs, names, a);
    if a in UnwrapSubs(attrs, names).value {
      var n :| n in names && InTuple(attrs, n, a);
      assert FindAttr(attrs, n).value in attrs;
    }
    if PartOfNamed(attrs, names, a) {
      var t :| t in attrs && t.name in names && t.typ.Tuple? && a in t.typ.attrs;
      FindOwn(attrs, t);
      assert FindAttr(attrs, t.name) == Some(t) && InTuple(attrs, t.name, a);
    }
  }

  // ----- Each undoes the other -----

  lemma {:induction false} ProjectConcat(attrs: seq<Attr>, a: seq<Name>, b: seq<Name>)
    requires ProjectAttrs(attrs, a).Ok?
    ensures ProjectAttrs(attrs, a + b) == Prefixed(ProjectAttrs(attrs, a).value, ProjectAttrs(attrs, b))
  {
    if a == [] {
      assert a + b == b;
      PrefixedTwice([], [], ProjectAttrs(attrs, b));
    } else {
      assert (a + b)[1..] == a[1..] + b;
      ProjectConcat(attrs, a[1..], b);
      PrefixedTwice([FindAttr(attrs, a[0]).value], ProjectAttrs(attrs, a[1..]).value, ProjectAttrs(attrs, b));
    }
  }

  lemma {:induction false} WithoutConcat(a: seq<Attr>, b: seq<Attr>, names: seq<Name>)
    ensures Without(a + b, names) == Without(a, names) + Without(b, names)
  {
    if a == [] {
      assert a + b == b;
    } else {
      assert (a + b)[1..] == a[1..] + b;
      WithoutConcat(a[1..], b, names);
    }
  }

  lemma {:induction false} WithoutAll(attrs: seq<Attr>, names: seq<Name>)
    ensures (forall a :: a in attrs ==> a.name in names) ==> Without(attrs, names) == []
    ensures (forall a :: a in attrs ==> a.name !in names) ==> Without(attrs, names) == attrs
  {
    if attrs != [] {
      WithoutAll(attrs[1..], names);
      assert attrs == [attrs[0]] + attrs[1..];
    }
  }

  /** Taking away the first part of a list with distinct names leaves the second. */
  lemma WithoutFirstPart(a: seq<Attr>, b: seq<Attr>)
    requires DistinctNames(a + b)
    ensures Without(a + b, NameList(a)) == b
  {
    DistinctConcat(a, b);
    NameListMeans(a);
    WithoutConcat(a, b, NameList(a));
    forall x | x in a ensures x.name in NameList(a) {
      assert x.name in Names(a);
    }
    forall x | x in b ensures x.name !in NameList(a) {
      assert x.name in Names(b);
    }
    WithoutAll(a, NameList(a));
    WithoutAll(b, NameList(a));
  }

  /** The tuples of a WRAP, found again in r by their names, hold the wrapped attributes. */
  lemma {:induction false} UnwrapWrapped(attrs: seq<Attr>, wrapv: seq<Wrapping>, r: seq<Attr>)
    requires WrapTuples(attrs, wrapv).Ok? && DistinctNames(r)
    requires forall a :: a in WrapTuples(attrs, wrapv).value ==> a in r
    ensures UnwrapSubs(r, WrapNames(wrapv)) == ProjectAttrs(attrs, AllNames(wrapv))
  {
    if wrapv != [] {
      var tuples, rest := WrapTuples(attrs, wrapv).value, wrapv[1..];
      var sub := ProjectAttrs(attrs, wrapv[0].attrs).value;
      assert tuples == [Attr(wrapv[0].name, Tuple(sub))] + WrapTuples(attrs, rest).value;
      UnwrapWrapped(attrs, rest, r);
      FindOwn(r, tuples[0]);
      ProjectConcat(attrs, wrapv[0].attrs, AllNames(rest));
      assert WrapNames(wrapv)[1..] == WrapNames(rest);
    }
  }

  /** WRAP gives a well-formed tuple type iff the new names are distinct and clash with no attribute left over. */
  lemma WrapWellFormed(attrs: seq<Attr>, wrapv: seq<Wrapping>)
    requires WellFormed(Tuple(attrs)) && WrapAttrs(attrs, wrapv).Done?
    ensures DistinctNames(WrapAttrs(attrs, wrapv).attrs) <==>
            NoRepeats(WrapNames(wrapv)) &&
            forall n :: n in WrapNames(wrapv) && n in Names(attrs) ==> n in AllNames(wrapv)
  {
    WrapOutcome(attrs, wrapv);
    var tuples, rest := WrapTuples(attrs, wrapv).value, Without(attrs, AllNames(wrapv));
    WrapTuplesMeans(attrs, wrapv);
    WithoutMeans(attrs, AllNames(wrapv));
    DistinctConcat(tuples, rest);
    NameListMeans(tuples);
    assert forall n :: n in WrapNames(wrapv) <==> n in Names(tuples);
  }

  /** Unwrapping the new attributes of a successful WRAP succeeds and restores the type. */
  lemma WrapThenUnwrap(attrs: seq<Attr>, wrapv: seq<Wrapping>)
    requires WellFormed(Tuple(attrs)) && WrapAttrs(attrs, wrapv).Done?
    requires DistinctNames(WrapAttrs(attrs, wrapv).attrs)
    ensures var u := UnwrapAttrs(WrapAttrs(attrs, wrapv).attrs, WrapNames(wrapv));
            u.Done? && TypeEquals(Tuple(u.attrs), Tuple(attrs))
  {
    hide DistinctNames, NoRepeats, Without, WrapCount, WrapAttrs, UnwrapAttrs, ProjectAttrs, TypeEquals, StoreTuples;
    var r, names := WrapAttrs(attrs, wrapv).attrs, AllNames(wrapv);
    WrapOutcome(attrs, wrapv);
    WrapSucceeds(attrs, wrapv);
    var tuples, rest := WrapTuples(attrs, wrapv).value, Without(attrs, names);
    WrapTuplesMeans(attrs, wrapv);
    UnwrapWrapped(attrs, wrapv, r);
    WithoutFirstPart(tuples, rest);
    ProjectMeans(attrs, names);
    WrapNamesLength(wrapv);
    var subs := ProjectAttrs(attrs, names).value;
    WithoutSize(attrs, names);
    NoRepeatsBySize(names);
    UnwrapExactly(r, WrapNames(wrapv), subs, rest);
    WithoutMeans(attrs, names);
    DistinctConcat(subs, rest);
    SameAttributes(attrs, subs + rest);
  }

  lemma UnwrapExactly(attrs: seq<Attr>, names: seq<Name>, subs: seq<Attr>, rest: seq<Attr>)
    requires UnwrapSubs(attrs, names) == Ok(subs) && Without(attrs, names) == rest
    requires |subs| + |rest| == |attrs| + |subs| - |names|
    ensures UnwrapAttrs(attrs, names) == Done(subs + rest)
  {
    assert [] + (subs + rest) == subs + rest;
  }

  /** The wrappings that undo an UNWRAP. */
  function Rewrap(attrs: seq<Attr>, names: seq<Name>): seq<Wrapping>
    requires UnwrapSubs(attrs, names).Ok?
  {
    if names == [] then []
    else [Wrapping(NameList(FindAttr(attrs, names[0]).value.typ.attrs), names[0])] + Rewrap(attrs, names[1..])
  }

  lemma {:induction false} NameListConcat(a: seq<Attr>, b: seq<Attr>)
    ensures NameList(a + b) == NameList(a) + NameList(b)
  {}

  lemma {:induction false} WrapUnwrapped(attrs: seq<Attr>, names: seq<Name>, u: seq<Attr>)
    requires UnwrapSubs(attrs, names).Ok? && DistinctNames(u)
    requires forall a :: a in UnwrapSubs(attrs, names).value ==> a in u
    ensures WrapTuples(u, Rewrap(attrs, names)) == ProjectAttrs(attrs, names)
    ensures AllNames(Rewrap(attrs, names)) == NameList(UnwrapSubs(attrs, names).value)
  {
    if names != [] {
      var found, rest := FindAttr(attrs, names[0]).value, names[1..];
      var sub, subs := found.typ.attrs, UnwrapSubs(attrs, rest).value;
      assert UnwrapSubs(attrs, names).value == sub + subs;
      WrapUnwrapped(attrs, rest, u);
      ProjectOnNames(u, sub);
      NameListConcat(sub, subs);
      assert Rewrap(attrs, names)[1..] == Rewrap(attrs, rest);
    }
  }

  /** Wrapping up again what a successful UNWRAP took apart succeeds and restores the type. */
  lemma UnwrapThenWrap(attrs: seq<Attr>, names: seq<Name>)
    requires WellFormed(Tuple(attrs)) && UnwrapAttrs(attrs, names).Done?
    requires DistinctNames(UnwrapAttrs(attrs, names).attrs)
    ensures var w := WrapAttrs(UnwrapAttrs(attrs, names).attrs, Rewrap(attrs, names));
            w.Done? && TypeEquals(Tuple(w.attrs), Tuple(attrs))
  {
    hide DistinctNames, NoRepeats, Without, WrapCount, Rewrap, ProjectAttrs, UnwrapSubs, UnwrapAttrs, WrapAttrs,
      TypeEquals;
    UnwrapSucceeds(attrs, names);
    UnwrapSubsMeans(attrs, names);
    var u, subs, rest := UnwrapAttrs(attrs, names).attrs, UnwrapSubs(attrs, names).value, Without(attrs, names);
    var wrapv := Rewrap(attrs, names);
    WrapUnwrapped(attrs, names, u);
    WithoutFirstPart(subs, rest);
    ProjectMeans(attrs, names);
    var tuples := ProjectAttrs(attrs, names).value;
    WithoutMeans(attrs, names);
    DistinctConcat(tuples, rest);
    WithoutSize(attrs, names);
    NoRepeatsBySize(names);
    RewrapLength(attrs, names);
    WrapExactly(u, wrapv, tuples, rest);
    SameAttributes(attrs, tuples + rest);
  }

  lemma WrapExactly(attrs: seq<Attr>, wrapv: seq<Wrapping>, tuples: seq<Attr>, rest: seq<Attr>)
    requires WrapTuples(attrs, wrapv) == Ok(tuples) && Without(attrs, AllNames(wrapv)) == rest
    requires |tuples| + |rest| == |attrs| + |wrapv| - |AllNames(wrapv)|
    ensures WrapAttrs(attrs, wrapv) == Done(tuples + rest)
  {
    hide WrapCount, StoreTuples, WrapTuples, Present, Without, AllNames;
    WrapCountIs(|attrs|, wrapv);
    OneEach(attrs, wrapv);
    StoreTuplesIs(attrs, wrapv, [], |tuples| + |rest|);
    assert StoreTuples(attrs, wrapv, [], |tuples| + |rest|) == Done(tuples) by {
      assert [] + tuples == tuples;
    }
  }

  lemma {:induction false} OneEach(attrs: seq<Attr>, wrapv: seq<Wrapping>)
    requires WrapTuples(attrs, wrapv).Ok?
    ensures |WrapTuples(attrs, wrapv).value| == |wrapv|
  {
    if wrapv != [] {
      OneEach(attrs, wrapv[1..]);
    }
  }

  lemma {:induction false} RewrapLength(attrs: seq<Attr>, names: seq<Name>)
    requires UnwrapSubs(attrs, names).Ok?
    ensures |Rewrap(attrs, names)| == |names|
  {
    if names != [] {
      RewrapLength(attrs, names[1..]);
    }
  }
}
