/** Tuple values (obj/tuple.c): attribute names mapped to values by a hash table. */
module Tuples {
  import opened ByteStrings
  import opened Options
  import opened Hashtables
  import opened Renamings

  const TUPLE_CAPACITY := 31
  const MAX_ATTRS := 0x7FF_FFFF

  datatype TupleEntry<V> = TupleEntry(key: Name, obj: V)

  datatype TupleError = NotATuple | NoSuchAttribute(name: Name)

  // ----- What the operations compute, on maps -----

  function Restrict<V>(m: map<Name, V>, names: seq<Name>): (r: map<Name, V>) {
    map n | n in m && n in names :: m[n]
  }

  /** How many of the names come before the first that is not an attribute. */
  function FirstMissing<V>(m: map<Name, V>, names: seq<Name>): (n: nat)
    ensures n <= |names| && (forall i :: 0 <= i < n ==> names[i] in m) && (n < |names| ==> names[n] !in m)
  {
    if names == [] || names[0] !in m then 0 else 1 + FirstMissing(m, names[1..])
  }

  /** Writing entries one after the other under their new names, except those of dropped attributes. */
  function WriteInto<V>(dst: map<Name, V>, es: seq<TupleEntry<V>>, drop: seq<Name>, renv: seq<Renaming>): map<Name, V> {
    if es == [] then dst
    else
      var last := es[|es| - 1];
      var r := WriteInto(dst, es[..|es| - 1], drop, renv);
      if last.key in drop then r else r[NewName(renv, last.key) := last.obj]
  }

  lemma WriteStep<V>(dst: map<Name, V>, es: seq<TupleEntry<V>>, drop: seq<Name>, renv: seq<Renaming>, n: nat)
    requires n < |es|
    ensures var r := WriteInto(dst, es[..n], drop, renv);
      WriteInto(dst, es[..n + 1], drop, renv) ==
        if es[n].key in drop then r else r[NewName(renv, es[n].key) := es[n].obj]
    ensures |WriteInto(dst, es[..n], drop, renv)| <= |dst| + n
  {
    assert es[..n + 1][..n] == es[..n];
    WriteSize(dst, es[..n], drop, renv);
  }

  lemma {:induction false} WriteSize<V>(dst: map<Name, V>, es: seq<TupleEntry<V>>, drop: seq<Name>, renv: seq<Renaming>)
    ensures |WriteInto(dst, es, drop, renv)| <= |dst| + |es|
  {
    if es != [] {
      WriteSize(dst, es[..|es| - 1], drop, renv);
    }
  }

  /** Where the renaming keeps attributes apart, the order in which they are written does not matter. */
  lemma WrittenIsRenamed<V>(dst: map<Name, V>, es: seq<TupleEntry<V>>, m: map<Name, V>, renv: seq<Renaming>)
    requires forall e :: e in es <==> e.key in m && m[e.key] == e.obj
    requires KeepsApart(m.Keys, renv)
    ensures IsRenamed(m, renv, dst, WriteInto(dst, es, [], renv))
  {
    Written(dst, es, m, renv);
    forall n | n in m ensures TupleEntry(n, m[n]) in es {}
  }

  lemma {:induction false} Written<V>(dst: map<Name, V>, es: seq<TupleEntry<V>>, m: map<Name, V>, renv: seq<Renaming>)
    requires forall e :: e in es ==> e.key in m && m[e.key] == e.obj
    requires KeepsApart(m.Keys, renv)
    ensures var r := WriteInto(dst, es, [], renv);
      && (forall e :: e in es ==> NewName(renv, e.key) in r && r[NewName(renv, e.key)] == e.obj)
      && (forall n' :: n' in r ==> (exists n :: n in m && NewName(renv, n) == n') || (n' in dst && r[n'] == dst[n']))
      && dst.Keys <= r.Keys
  {
    if es != [] {
      var init, last := es[..|es| - 1], es[|es| - 1];
      assert es == init + [last];
      Written(dst, init, m, renv);
    }
  }

  /** Leaving out the dropped attributes leaves the rest of the map. */
  lemma WrittenIsRest<V>(es: seq<TupleEntry<V>>, m: map<Name, V>, drop: seq<Name>)
    requires forall e :: e in es <==> e.key in m && m[e.key] == e.obj
    ensures WriteInto(map[], es, drop, []) == m - (set n | n in drop)
  {
    WrittenRest(es, m, drop);
    forall n | n in m ensures TupleEntry(n, m[n]) in es {}
  }

  lemma {:induction false} WrittenRest<V>(es: seq<TupleEntry<V>>, m: map<Name, V>, drop: seq<Name>)
    requires forall e :: e in es ==> e.key in m && m[e.key] == e.obj
    ensures var r := WriteInto(map[], es, drop, []);
      && (forall n :: n in r ==> n in m && r[n] == m[n] && n !in drop)
      && (forall e :: e in es && e.key !in drop ==> e.key in r)
  {
    if es != [] {
      var init, last := es[..|es| - 1], es[|es| - 1];
      assert es == init + [last];
      WrittenRest(init, m, drop);
    }
  }

  function Values<V>(m: map<Name, TupleEntry<V>>): map<Name, V> {
    map n | n in m :: m[n].obj
  }

  lemma ValuesUpdate<V>(m: map<Name, TupleEntry<V>>, n: Name, e: TupleEntry<V>)
    ensures Values(m[n := e]) == Values(m)[n := e.obj]
  {}

  lemma ValuesSize<V>(m: map<Name, TupleEntry<V>>)
    ensures |Values(m)| == |m|
  {
    assert Values(m).Keys == m.Keys;
    assert |Values(m)| == |Values(m).Keys| && |m| == |m.Keys|;
  }

  // ----- The tuple object -----

  class TupleObject<V(!new)> {
    ghost var M: map<Name, V>  // the attributes and their values
    ghost var Repr: set<object>

    const hash: Name -> uint32
    var tab: Hashtable?<TupleEntry<V>, Name>  // none until the first attribute is set

    ghost predicate Valid()
      reads this, Repr
      ensures Valid() ==> this in Repr
    {
      && this in Repr
      && (tab == null ==> M == map[])
      && (tab != null ==>
        && tab in Repr && tab.Repr <= Repr && this !in tab.Repr && tab.Valid()
        && (forall e :: tab.key(e) == e.key)
        && M == Values(tab.M)
        && (tab.capacity <= TUPLE_CAPACITY || tab.capacity <= 4 * |tab.M|))
    }

    constructor (hash: Name -> uint32)
      ensures Valid() && fresh(Repr) && M == map[] && tab == null && this.hash == hash
    {
      this.hash := hash;
      tab, M, Repr := null, map[], {this};
    }

    method Init()
      requires Valid()
      modifies this
      ensures Valid() && fresh(Repr - old(Repr)) && tab != null && M == map[]
    {
      tab := new Hashtable<TupleEntry<V>, Name>(TUPLE_CAPACITY, (e: TupleEntry<V>) => e.key, hash);
      M, Repr := map[], {this} + tab.Repr;
    }

    method Clear()
      requires Valid()
      modifies this
      ensures Valid() && Repr == old(Repr) && M == map[] && tab == null
    {
      tab, M := null, map[];
    }

    method Set(attrname: Name, v: V)
      requires Valid() && |M| < MAX_ATTRS
      modifies Repr
      ensures Valid() && fresh(Repr - old(Repr)) && tab != null
      ensures M == old(M)[attrname := v]
    {
      if tab == null {
        Init();
      }
      ProvideEntry(attrname, v);
    }

    /** Overwrites the value of the attribute's entry, or inserts a new entry. */
    method ProvideEntry(attrname: Name, v: V)
      requires Valid() && tab != null && |M| < MAX_ATTRS
      modifies Repr
      ensures Valid() && fresh(Repr - old(Repr)) && tab != null
      ensures M == old(M)[attrname := v]
    {
      var found := tab.Get(attrname);
      if found.Some? {
        Overwrite(TupleEntry(attrname, v));
      } else {
        Insert(TupleEntry(attrname, v));
      }
    }

    method Overwrite(e: TupleEntry<V>)
      requires Valid() && tab != null && e.key in M
      modifies Repr
      ensures Valid() && Repr == old(Repr) && tab == old(tab)
      ensures M == old(M)[e.key := e.obj]
    {
      ValuesUpdate(tab.M, e.key, e);
      assert tab.key(e) == e.key;
      tab.Store(e);
      M := M[e.key := e.obj];
    }

    method Insert(e: TupleEntry<V>)
      requires Valid() && tab != null && e.key !in M && |M| < MAX_ATTRS
      modifies Repr
      ensures Valid() && fresh(Repr - old(Repr)) && tab == old(tab)
      ensures M == old(M)[e.key := e.obj]
    {
      ValuesUpdate(tab.M, e.key, e);
      assert tab.key(e) == e.key;
      HasRoom(tab);
      tab.Put(e);
      M, Repr := M[e.key := e.obj], Repr + tab.Repr;
    }

    lemma HasRoom(t: Hashtable<TupleEntry<V>, Name>)
      requires t.Valid() && |Values(t.M)| < MAX_ATTRS && (t.capacity <= TUPLE_CAPACITY || t.capacity <= 4 * |t.M|)
      ensures t.RoomToGrow()
    {
      ValuesSize(t.M);
    }

    method Get(attrname: Name) returns (r: Option<V>)
      requires Valid()
      ensures r == if attrname in M then Some(M[attrname]) else None
    {
      if tab == null {
        return None;
      }
      var e := tab.Get(attrname);
      return if e.Some? then Some(e.value.obj) else None;
    }

    /** The table behind the tuple; everything a caller needs of Valid that M and Repr do not say. */
    lemma Parts()
      requires Valid() && tab != null
      ensures tab.Valid() && tab.Repr <= Repr && this !in tab.Repr
      ensures |tab.Order| == |M|
      ensures forall e :: e in tab.Order <==> e.key in M && M[e.key] == e.obj
    {
      tab.OrderEnumerates();
      ValuesSize(tab.M);
    }

    /** Copies the named attributes into res, which is emptied first; stops at a name that is no attribute. */
    method Project(attrv: seq<Name>, res: TupleObject<V>) returns (r: Result<(), TupleError>)
      requires Valid() && res.Valid() && Repr !! res.Repr && |attrv| <= MAX_ATTRS
      modifies res.Repr
      ensures Valid() && res.Valid() && fresh(res.Repr - old(res.Repr))
      ensures tab == null ==> r == Err(NotATuple) && res.M == old(res.M)
      ensures tab != null ==>
        var n := FirstMissing(M, attrv);
        && r == (if n == |attrv| then Ok(()) else Err(NoSuchAttribute(attrv[n])))
        && res.M == Restrict(M, attrv[..n])
    {
      hide Valid;
      if tab == null {
        return Err(NotATuple);
      }
      res.Clear();
      for i := 0 to |attrv|
        invariant Valid() && res.Valid() && Repr !! res.Repr && fresh(res.Repr - old(res.Repr))
        invariant i <= FirstMissing(M, attrv)
        invariant res.M == Restrict(M, attrv[..i])
      {
        MissingStep(M, attrv, i);
        var v := Get(attrv[i]);
        if v.None? {
          return Err(NoSuchAttribute(attrv[i]));
        }
        RestrictStep(M, attrv, i);
        res.Set(attrv[i], v.value);
      }
      return Ok(());
    }

    /** Copies into res, which is emptied first, the attributes that are not named. */
    method Remove(attrv: seq<Name>, res: TupleObject<V>) returns (r: Result<(), TupleError>)
      requires Valid() && res.Valid() && Repr !! res.Repr && |M| < MAX_ATTRS
      modifies res.Repr
      ensures Valid() && res.Valid() && fresh(res.Repr - old(res.Repr))
      ensures r == if tab == null then Err(NotATuple) else Ok(())
      ensures res.M == if tab == null then old(res.M) else M - (set n | n in attrv)
    {
      hide Valid;
      if tab == null {
        return Err(NotATuple);
      }
      res.Clear();
      Parts();
      CopyEntries(attrv, [], res);
      WrittenIsRest(tab.Order, M, attrv);
      return Ok(());
    }

    /** Copies the attributes to res under their new names. Attributes that are not renamed over stay in res. */
    method Rename(renv: seq<Renaming>, res: TupleObject<V>) returns (r: Result<(), TupleError>)
      requires Valid() && res.Valid() && Repr !! res.Repr && |M| + |res.M| < MAX_ATTRS
      modifies res.Repr
      ensures Valid() && res.Valid() && fresh(res.Repr - old(res.Repr))
      ensures r == if tab == null then Err(NotATuple) else Ok(())
      ensures tab == null ==> res.M == old(res.M)
      ensures tab != null && KeepsApart(M.Keys, renv) ==> IsRenamed(M, renv, old(res.M), res.M)
      ensures tab != null ==> res.M == WriteInto(old(res.M), tab.Order, [], renv)
    {
      hide Valid;
      if tab == null {
        return Err(NotATuple);
      }
      ghost var dst := res.M;
      Parts();
      CopyEntries([], renv, res);
      if KeepsApart(M.Keys, renv) {
        WrittenIsRenamed(dst, tab.Order, M, renv);
      }
      return Ok(());
    }

    method CopyEntry(e: TupleEntry<V>, drop: seq<Name>, renv: seq<Renaming>, res: TupleObject<V>)
      requires res.Valid() && |res.M| < MAX_ATTRS
      modifies res.Repr
      ensures res.Valid() && fresh(res.Repr - old(res.Repr))
      ensures res.M == if e.key in drop then old(res.M) else old(res.M)[NewName(renv, e.key) := e.obj]
    {
      hide Valid;
      if e.key !in drop {
        var i := FindRenameFrom(renv, e.key);
        res.Set(if i >= 0 then renv[i].to else e.key, e.obj);
      }
    }

    /** The loop over the table that Remove and Rename share. */
    method CopyEntries(drop: seq<Name>, renv: seq<Renaming>, res: TupleObject<V>)
      requires Valid() && tab != null && res.Valid() && Repr !! res.Repr && |M| + |res.M| < MAX_ATTRS
      modifies res.Repr
      ensures Valid() && res.Valid() && fresh(res.Repr - old(res.Repr))
      ensures res.M == WriteInto(old(res.M), tab.Order, drop, renv)
    {
      hide Valid, Hashtable.Valid, HashtableIter.Valid;
      Parts();
      var it := new HashtableIter<TupleEntry<V>, Name>(tab);
      ghost var es, dst, n := it.Rest, res.M, 0;
      var entry := it.Next();
      while entry.Some?
        invariant res.Valid() && fresh(res.Repr - old(res.Repr)) && Repr !! res.Repr
        invariant it.hp == tab && it.Valid() && fresh(it) && it !in res.Repr
        invariant n <= |es| && it.Rest == (if n < |es| then es[n + 1..] else [])
        invariant entry == if n < |es| then Some(es[n]) else None
        invariant res.M == WriteInto(dst, es[..n], drop, renv)
        decreases |es| - n
      {
        WriteStep(dst, es, drop, renv, n);
        CopyEntry(entry.value, drop, renv, res);
        entry := it.Next();
        n := n + 1;
      }
      assert es[..n] == es;
    }
  }

  lemma {:induction false} MissingStep<V>(m: map<Name, V>, names: seq<Name>, i: nat)
    requires i < |names| && i <= FirstMissing(m, names)
    ensures names[i] in m <==> i < FirstMissing(m, names)
  {}

  lemma RestrictStep<V>(m: map<Name, V>, names: seq<Name>, i: nat)
    requires i < |names| && names[i] in m
    ensures Restrict(m, names[..i + 1]) == Restrict(m, names[..i])[names[i] := m[names[i]]]
    ensures |Restrict(m, names[..i])| <= i
  {
    assert names[..i + 1] == names[..i] + [names[i]];
    NamesBound(m, names[..i]);
  }

  lemma {:induction false} NamesBound<V>(m: map<Name, V>, names: seq<Name>)
    ensures |Restrict(m, names)| <= |names|
  {
    if names != [] {
      var init := names[..|names| - 1];
      NamesBound(m, init);
      var n := names[|names| - 1];
      assert names == init + [n];
      if n in m {
        assert Restrict(m, names) == Restrict(m, init)[n := m[n]];
      } else {
        assert Restrict(m, names) == Restrict(m, init);
      }
    }
  }
}
