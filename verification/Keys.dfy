/** Candidate keys of a relation type: their validity and the equality of key families (obj/key.c). */
module CandidateKeys {
  import opened ByteStrings
  import opened Options
  import opened Types
  import opened TupleTypes
  import opened Lists

  type Key = seq<Name>

  function NameSet(k: Key): set<Name> {
    set n | n in k
  }

  /** A family of keys as what it means: a set of sets of names. */
  function Family(keyv: seq<Key>): set<set<Name>> {
    set k | k in keyv :: NameSet(k)
  }

  // ----- Searching -----

  method FindStr(strv: seq<Name>, str: Name) returns (i: int)
    ensures i == -1 <==> str !in strv
    ensures i != -1 ==> 0 <= i < |strv| && strv[i] == str
  {
    for k := 0 to |strv|
      invariant str !in strv[..k]
    {
      if strv[k] == str {
        return k;
      }
    }
    return -1;
  }

  method StrvecIsSubset(v1: Key, v2: Key) returns (b: bool)
    ensures b <==> NameSet(v1) <= NameSet(v2)
  {
    for i := 0 to |v1|
      invariant forall k :: 0 <= k < i ==> v1[k] in v2
    {
      var j := FindStr(v2, v1[i]);
      if j == -1 {
        assert v1[i] in NameSet(v1) && v1[i] !in NameSet(v2);
        return false;
      }
    }
    return true;
  }

  // ----- Validity -----

  /** Neither key's names are all among the other's. */
  predicate Incomparable(k1: Key, k2: Key) {
    !(NameSet(k1) <= NameSet(k2)) && !(NameSet(k2) <= NameSet(k1))
  }

  ghost predicate Antichain(keyv: seq<Key>) {
    forall i, j :: 0 <= i < j < |keyv| ==> Incomparable(keyv[i], keyv[j])
  }

  ghost predicate ValidKey(names: set<Name>, k: Key) {
    NameSet(k) <= names && NoRepeats(k)
  }

  /** The families of keys that a relation type with these attribute names can have. */
  ghost predicate ValidFamily(names: set<Name>, keyv: seq<Key>) {
    keyv != [] && (forall k :: k in keyv ==> ValidKey(names, k)) && Antichain(keyv)
  }

  lemma ShorterOrEqualDecides(k1: Key, k2: Key)
    requires NoRepeats(k1) && NoRepeats(k2) && |k1| <= |k2|
    ensures Incomparable(k1, k2) <==> !(NameSet(k1) <= NameSet(k2))
  {
    NoRepeatsBySize(k1);
    NoRepeatsBySize(k2);
    if NameSet(k2) <= NameSet(k1) {
      SubsetOfEqualSize(NameSet(k2), NameSet(k1));
    }
  }

  method CheckKey(attrs: seq<Attr>, key: Key) returns (ok: bool)
    ensures ok <==> ValidKey(Names(attrs), key)
  {
    for j := 0 to |key|
      invariant forall k :: 0 <= k < j ==> key[k] in Names(attrs)
    {
      var attrp := TupleTypeAttr(attrs, key[j]);
      if attrp.None? {
        assert key[j] in NameSet(key);
        return false;
      }
    }
    var j := 0;
    while j < |key| - 1
      invariant 0 <= j <= |key|
      invariant NoRepeats(key) <==> NoRepeats(key[j..])
    {
      assert key[j..][1..] == key[j + 1..];
      var found := FindStr(key[j + 1..], key[j]);
      if found != -1 {
        return false;
      }
      j := j + 1;
    }
    assert |key[j..]| <= 1;
    return true;
  }

  method CheckKeys(attrs: seq<Attr>, keyv: seq<Key>) returns (r: Result<(), TypeError>)
    ensures r == if ValidFamily(Names(attrs), keyv) then Ok(()) else Err(InvalidArgument)
  {
    if |keyv| < 1 {
      return Err(InvalidArgument);
    }
    for i := 0 to |keyv|
      invariant forall k :: 0 <= k < i ==> ValidKey(Names(attrs), keyv[k])
    {
      var ok := CheckKey(attrs, keyv[i]);
      if !ok {
        return Err(InvalidArgument);
      }
    }
    for i := 0 to |keyv| - 1
      invariant forall k, l :: 0 <= k < i && k < l < |keyv| ==> Incomparable(keyv[k], keyv[l])
    {
      for j := i + 1 to |keyv|
        invariant forall l :: i < l < j ==> Incomparable(keyv[i], keyv[l])
      {
        var comparable := Comparable(keyv[i], keyv[j]);
        if comparable {
          return Err(InvalidArgument);
        }
      }
    }
    return Ok(());
  }

  /** Tests only whether the shorter key is part of the longer one. */
  method Comparable(k1: Key, k2: Key) returns (b: bool)
    requires NoRepeats(k1) && NoRepeats(k2)
    ensures b <==> !Incomparable(k1, k2)
  {
    if |k1| <= |k2| {
      ShorterOrEqualDecides(k1, k2);
      b := StrvecIsSubset(k1, k2);
    } else {
      ShorterOrEqualDecides(k2, k1);
      b := StrvecIsSubset(k2, k1);
    }
  }

  // ----- Equality of families -----

  ghost predicate KeyFound(k: Key, keyv: seq<Key>) {
    exists k' :: k' in keyv && |k| == |k'| && NameSet(k) <= NameSet(k')
  }

  /** What the code compares: as many keys, and every key of the first family found in the second. */
  ghost predicate SearchedEqual(keyv1: seq<Key>, keyv2: seq<Key>) {
    |keyv1| == |keyv2| && forall k :: k in keyv1 ==> KeyFound(k, keyv2)
  }

  method FindKey(k: Key, keyv: seq<Key>) returns (i: int)
    ensures i == -1 <==> !KeyFound(k, keyv)
  {
    for j := 0 to |keyv|
      invariant forall l :: 0 <= l < j ==> !(|k| == |keyv[l]| && NameSet(k) <= NameSet(keyv[l]))
    {
      if |k| == |keyv[j]| {
        var sub := StrvecIsSubset(k, keyv[j]);
        if sub {
          return j;
        }
      }
    }
    return -1;
  }

  method KeysEqual(keyv1: seq<Key>, keyv2: seq<Key>) returns (b: bool)
    ensures b <==> SearchedEqual(keyv1, keyv2)
  {
    if |keyv1| != |keyv2| {
      return false;
    }
    for i := 0 to |keyv1|
      invariant forall l :: 0 <= l < i ==> KeyFound(keyv1[l], keyv2)
    {
      var j := FindKey(keyv1[i], keyv2);
      if j == -1 {
        return false;
      }
    }
    return true;
  }

  /** No key repeats a name. */
  ghost predicate RepeatFree(keyv: seq<Key>) {
    forall k :: k in keyv ==> NoRepeats(k)
  }

  /** Found means that the second family has a key with the same names. */
  lemma KeyFoundIsMember(k: Key, keyv: seq<Key>)
    requires NoRepeats(k) && RepeatFree(keyv)
    ensures KeyFound(k, keyv) <==> NameSet(k) in Family(keyv)
  {
    NoRepeatsBySize(k);
    forall k' | k' in keyv
      ensures |k| == |k'| && NameSet(k) <= NameSet(k') <==> NameSet(k) == NameSet(k')
    {
      NoRepeatsBySize(k');
      if NameSet(k) <= NameSet(k') {
        SubsetOfEqualSize(NameSet(k), NameSet(k'));
      }
    }
  }

  /** The keys as sets of names. */
  function NameSets(keyv: seq<Key>): (s: seq<set<Name>>)
    ensures SetOf(s) == Family(keyv)
  {
    var s := seq(|keyv|, i requires 0 <= i < |keyv| => NameSet(keyv[i]));
    assert forall k :: k in keyv ==> NameSet(k) in s by {
      forall k | k in keyv ensures NameSet(k) in s {
        var i :| 0 <= i < |keyv| && keyv[i] == k;
        assert s[i] == NameSet(k);
      }
    }
    s
  }

  lemma SearchIsCover(keyv1: seq<Key>, keyv2: seq<Key>)
    requires RepeatFree(keyv1) && RepeatFree(keyv2)
    ensures SearchedEqual(keyv1, keyv2) <==> |keyv1| == |keyv2| && Family(keyv1) <= Family(keyv2)
  {
    forall k | k in keyv1 ensures KeyFound(k, keyv2) <==> NameSet(k) in Family(keyv2) {
      KeyFoundIsMember(k, keyv2);
    }
    if Family(keyv1) <= Family(keyv2) {
      forall k | k in keyv1 ensures NameSet(k) in Family(keyv2) {
        assert NameSet(k) in Family(keyv1);
      }
    }
  }

  lemma AntichainUnrepeated(keyv: seq<Key>)
    requires Antichain(keyv)
    ensures Unrepeated(NameSets(keyv))
  {
    var s := NameSets(keyv);
    forall i, j | 0 <= i < j < |s| ensures s[i] != s[j] {
      assert Incomparable(keyv[i], keyv[j]);
    }
  }

  /**
   * On valid families the one-sided search decides whether the two families are the same set of sets;
   * so it is symmetric and transitive.
   */
  lemma SearchedEqualIsSameFamily(names1: set<Name>, names2: set<Name>, keyv1: seq<Key>, keyv2: seq<Key>)
    requires ValidFamily(names1, keyv1) && ValidFamily(names2, keyv2)
    ensures SearchedEqual(keyv1, keyv2) <==> Family(keyv1) == Family(keyv2)
  {
    RepeatFreeIfValid(names1, keyv1);
    RepeatFreeIfValid(names2, keyv2);
    SearchIsCover(keyv1, keyv2);
    AntichainUnrepeated(keyv1);
    AntichainUnrepeated(keyv2);
    UnrepeatedBySize(NameSets(keyv1));
    UnrepeatedBySize(NameSets(keyv2));
    if SearchedEqual(keyv1, keyv2) {
      CoveredBack(NameSets(keyv1), NameSets(keyv2));
    }
  }

  lemma RepeatFreeIfValid(names: set<Name>, keyv: seq<Key>)
    requires ValidFamily(names, keyv)
    ensures RepeatFree(keyv)
  {
    forall k | k in keyv ensures NoRepeats(k) {
      assert ValidKey(names, k);
    }
  }

  /** The search finds the same from the second family to this one, whatever the second is. */
  ghost predicate SearchesBack(keyv: seq<Key>) {
    forall keyv2 :: RepeatFree(keyv2) && SearchedEqual(keyv, keyv2) ==> SearchedEqual(keyv2, keyv)
  }

  /** Among lists of keys that repeat no name, the search from a list is symmetric iff the list repeats no key. */
  lemma SearchSymmetricIffUnrepeated(keyv: seq<Key>)
    requires RepeatFree(keyv)
    ensures SearchesBack(keyv) <==> |Family(keyv)| == |keyv|
  {
    UnrepeatedBySize(NameSets(keyv));
    forall keyv2 | RepeatFree(keyv2) && SearchedEqual(keyv, keyv2) && |Family(keyv)| == |keyv|
      ensures SearchedEqual(keyv2, keyv) {
      SearchIsCover(keyv, keyv2);
      SearchIsCover(keyv2, keyv);
      CoveredBack(NameSets(keyv), NameSets(keyv2));
    }
    if |Family(keyv)| != |keyv| {
      var keyv2 := HidesKey(keyv);
    }
  }

  /** A family with a key in the place of a repetition is searched equal, but not the other way. */
  lemma HidesKey(keyv: seq<Key>) returns (keyv2: seq<Key>)
    requires RepeatFree(keyv) && !Unrepeated(NameSets(keyv))
    ensures RepeatFree(keyv2) && SearchedEqual(keyv, keyv2) && !SearchedEqual(keyv2, keyv)
  {
    var n := FreshName(set k, n | k in keyv && n in k :: n);
    var key: Key := [n];
    assert n in NameSet(key);
    var j := CoveredStill(NameSets(keyv), NameSet(key));
    keyv2 := keyv[j := key];
    assert NameSets(keyv2) == NameSets(keyv)[j := NameSet(key)];
    assert RepeatFree(keyv2) by {
      assert key[1..] == [];
      forall k | k in keyv2 ensures NoRepeats(k) {
        assert k == key || k in keyv;
      }
    }
    SearchIsCover(keyv, keyv2);
    SearchIsCover(keyv2, keyv);
  }
}
