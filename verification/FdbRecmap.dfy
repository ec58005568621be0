/**
 * Record maps with secondary indexes over the FoundationDB key space (fdbrec/fdbrecmap.c, fdbrec/fdbindex.c).
 *
 * Keys and values are the byte strings into which the fields of a record are encoded. A secondary key is a
 * function of them (RDB_make_skey).
 */
module FdbRecmaps {
  import opened ByteStrings
  import opened Options
  import opened FdbStore

  datatype Index = Index(name: Name, skey: (Bytes, Bytes) -> Bytes)

  datatype RecError = KeyViolation | NotFound

  function RecKey(name: Name, key: Bytes): Bytes {
    RecPrefix(name) + key
  }

  function IdxKey(ix: Index, key: Bytes, value: Bytes): Bytes {
    IdxPrefix(ix.name) + ix.skey(key, value)
  }

  // ----- What the operations do to the store -----

  function SetIndexes(kv: KV, ixs: seq<Index>, key: Bytes, value: Bytes): KV
    decreases ixs
  {
    if ixs == [] then kv else SetIndexes(kv[IdxKey(ixs[0], key, value) := key], ixs[1..], key, value)
  }

  function ClearIndexes(kv: KV, ixs: seq<Index>, key: Bytes, value: Bytes): KV
    decreases ixs
  {
    if ixs == [] then kv else ClearIndexes(kv - {IdxKey(ixs[0], key, value)}, ixs[1..], key, value)
  }

  function WithoutRecord(kv: KV, name: Name, ixs: seq<Index>, key: Bytes): KV {
    var full := RecKey(name, key);
    (if full in kv then ClearIndexes(kv, ixs, key, kv[full]) else kv) - {full}
  }

  /** A change to one record; the last two are those of a cursor standing on the record. */
  datatype Op =
    | Insert(key: Bytes, value: Bytes)
    | KeyUpdate(key: Bytes, newKey: Bytes, newValue: Bytes)
    | ValueUpdate(key: Bytes, newValue: Bytes)
    | Delete(key: Bytes)
    | CursorSet(key: Bytes, newValue: Bytes)
    | CursorDelete(key: Bytes, value: Bytes)

  function Step(kv: KV, name: Name, ixs: seq<Index>, op: Op): KV {
    var full := RecKey(name, op.key);
    match op
    case Insert(key, value) =>
      if full in kv then kv else SetIndexes(kv[full := value], ixs, key, value)
    case KeyUpdate(key, newKey, newValue) =>
      if full !in kv then kv
      else SetIndexes(WithoutRecord(kv, name, ixs, key)[RecKey(name, newKey) := newValue], ixs, newKey, newValue)
    case ValueUpdate(_, newValue) => if full !in kv then kv else kv[full := newValue]
    case Delete(key) => WithoutRecord(kv, name, ixs, key)
    case CursorSet(_, newValue) => kv[full := newValue]
    case CursorDelete(key, value) => ClearIndexes(kv - {full}, ixs, key, value)
  }

  // ----- The record map -----

  class Recmap {
    const name: Name
    var indexes: seq<Index>

    constructor (name: Name)
      ensures this.name == name && indexes == []
    {
      this.name, indexes := name, [];
    }

    /**
     * The most recent index comes first. It gets no entries for the records that are there, so with it a consistent
     * record map stays consistent iff it has none.
     */
    method CreateIndex(ix: Index)
      modifies this
      ensures indexes == [ix] + old(indexes)
      ensures forall kv :: Entries(kv, ix) == map[] && Consistent(kv, name, old(indexes)) ==>
        (Consistent(kv, name, indexes) <==> Recs(kv, name) == map[])
    {
      indexes := [ix] + indexes;
      forall kv | Entries(kv, ix) == map[] {
        NewIndexConsistent(kv, name, indexes[1..], ix);
      }
    }

    method InsertIntoIndexes(tx: Transaction, key: Bytes, value: Bytes)
      modifies tx
      ensures tx.kv == SetIndexes(old(tx.kv), indexes, key, value)
    {
      for i := 0 to |indexes|
        invariant SetIndexes(old(tx.kv), indexes, key, value) == SetIndexes(tx.kv, indexes[i..], key, value)
      {
        assert indexes[i..][1..] == indexes[i + 1..];
        var keyName := IdxPrefix(indexes[i].name) + indexes[i].skey(key, value);
        tx.Set(keyName, key);
      }
    }

    method DeleteFromIndexes(tx: Transaction, key: Bytes, value: Bytes)
      modifies tx
      ensures tx.kv == ClearIndexes(old(tx.kv), indexes, key, value)
    {
      for i := 0 to |indexes|
        invariant ClearIndexes(old(tx.kv), indexes, key, value) == ClearIndexes(tx.kv, indexes[i..], key, value)
      {
        assert indexes[i..][1..] == indexes[i + 1..];
        var keyName := IdxPrefix(indexes[i].name) + indexes[i].skey(key, value);
        tx.Clear(keyName);
      }
    }

    method InsertRec(tx: Transaction, key: Bytes, value: Bytes) returns (r: Result<(), RecError>)
      modifies tx
      ensures r == if RecKey(name, key) in old(tx.kv) then Err(KeyViolation) else Ok(())
      ensures tx.kv == Step(old(tx.kv), name, indexes, Insert(key, value))
    {
      var keyName := RecPrefix(name) + key;
      var present := tx.Get(keyName);
      if present.Some? {
        return Err(KeyViolation);
      }
      tx.Set(keyName, value);
      InsertIntoIndexes(tx, key, value);
      return Ok(());
    }

    method DeleteKv(tx: Transaction, key: Bytes)
      modifies tx
      ensures tx.kv == Step(old(tx.kv), name, indexes, Delete(key))
    {
      var keyName := RecPrefix(name) + key;
      if indexes != [] {
        var value := tx.Get(keyName);
        if value.Some? {
          DeleteFromIndexes(tx, key, value.value);
        }
      }
      tx.Clear(keyName);
    }

    /** Succeeds whether or not there was a record. */
    method DeleteRec(tx: Transaction, key: Bytes) returns (r: Result<(), RecError>)
      modifies tx
      ensures r == Ok(()) && tx.kv == Step(old(tx.kv), name, indexes, Delete(key))
    {
      DeleteKv(tx, key);
      return Ok(());
    }

    /** set gives the new key and the new value of a record; unless it is a key update the key stays. */
    method UpdateRec(tx: Transaction, key: Bytes, isKeyUpdate: bool, setFields: (Bytes, Bytes) -> (Bytes, Bytes))
      returns (r: Result<(), RecError>)
      modifies tx
      ensures var full := RecKey(name, key);
        if full !in old(tx.kv) then r == Err(NotFound) && tx.kv == old(tx.kv)
        else
          var (newKey, newValue) := setFields(key, old(tx.kv)[full]);
          && r == Ok(())
          && tx.kv == Step(old(tx.kv), name, indexes,
                           if isKeyUpdate then KeyUpdate(key, newKey, newValue) else ValueUpdate(key, newValue))
    {
      var keyName := RecPrefix(name) + key;
      var value := tx.Get(keyName);
      if value.None? {
        return Err(NotFound);
      }
      var (newKey, newValue) := setFields(key, value.value);
      if isKeyUpdate {
        DeleteKv(tx, key);
        tx.Set(RecPrefix(name) + newKey, newValue);
        InsertIntoIndexes(tx, newKey, newValue);
      } else {
        tx.Set(keyName, newValue);
      }
      return Ok(());
    }

    /** Clears the records; the indexes have to be deleted one by one. */
    method DeleteRecmap(tx: Transaction)
      modifies tx
      ensures tx.kv == WithoutPrefix(old(tx.kv), RecPrefix(name))
    {
      var keybuf := RecPrefix(name);
      forall k {
        RangeIsPrefix(keybuf, k);
      }
      tx.ClearRange(keybuf, RangeEnd(keybuf));
    }

    method DeleteIndex(tx: Transaction, ix: Index)
      modifies tx
      ensures tx.kv == WithoutPrefix(old(tx.kv), IdxPrefix(ix.name))
    {
      var keybuf := IdxPrefix(ix.name);
      forall k {
        RangeIsPrefix(keybuf, k);
      }
      tx.ClearRange(keybuf, RangeEnd(keybuf));
    }
  }

  function WithoutPrefix(kv: KV, p: Bytes): KV {
    map k | k in kv && !(p <= k) :: kv[k]
  }

  /** Clearing one range empties what is below that prefix, and nothing else if no key has both prefixes. */
  lemma ClearedParts(kv: KV, p: Bytes, q: Bytes)
    ensures Part(WithoutPrefix(kv, p), p) == map[]
    ensures !(p <= q) && !(q <= p) ==> Part(WithoutPrefix(kv, p), q) == Part(kv, q)
  {
    forall k ensures p <= p + k && q <= q + k {}
    forall k ensures p <= q + k ==> p <= q || q <= p {
      PrefixOfBoth(p, q, k);
    }
  }

  lemma PrefixOfBoth(p: Bytes, q: Bytes, k: Bytes)
    ensures p <= q + k ==> p <= q || q <= p
  {
    if p <= q + k {
      assert if |p| <= |q| then p == q[..|p|] else q == p[..|q|];
    }
  }

  /** Deleting a record map or an index leaves every other record map and index as it is. */
  lemma DeletedAlone(kv: KV, n1: Name, n2: Name)
    requires NoSlash(n1) && NoSlash(n2)
    ensures n1 != n2 ==> Recs(WithoutPrefix(kv, RecPrefix(n1)), n2) == Recs(kv, n2)
    ensures Part(WithoutPrefix(kv, RecPrefix(n1)), IdxPrefix(n2)) == Part(kv, IdxPrefix(n2))
    ensures n1 != n2 ==> Part(WithoutPrefix(kv, IdxPrefix(n1)), IdxPrefix(n2)) == Part(kv, IdxPrefix(n2))
    ensures Recs(WithoutPrefix(kv, IdxPrefix(n1)), n2) == Recs(kv, n2)
  {
    PrefixesApart(n1, n2);
    PrefixesApart(n2, n1);
    ClearedParts(kv, RecPrefix(n1), RecPrefix(n2));
    ClearedParts(kv, RecPrefix(n1), IdxPrefix(n2));
    ClearedParts(kv, IdxPrefix(n1), IdxPrefix(n2));
    ClearedParts(kv, IdxPrefix(n1), RecPrefix(n2));
  }

  lemma PrefixesApart(n1: Name, n2: Name)
    requires NoSlash(n1) && NoSlash(n2)
    ensures n1 != n2 ==> !(RecPrefix(n1) <= RecPrefix(n2)) && !(IdxPrefix(n1) <= IdxPrefix(n2))
    ensures !(RecPrefix(n1) <= IdxPrefix(n2)) && !(IdxPrefix(n1) <= RecPrefix(n2))
  {
    PrefixesDisjoint(n1, n2, RecPrefix(n2));
    PrefixesDisjoint(n1, n2, IdxPrefix(n2));
    PrefixesDisjoint(n2, n1, RecPrefix(n2));
  }

  // ----- Records and index entries as maps -----

  ghost function Recs(kv: KV, name: Name): KV {
    Part(kv, RecPrefix(name))
  }

  ghost function Entries(kv: KV, ix: Index): KV {
    Part(kv, IdxPrefix(ix.name))
  }

  /** idx holds exactly one entry, secondary key to primary key, for each record, and nothing else. */
  ghost predicate IndexOf(recs: KV, idx: KV, skey: (Bytes, Bytes) -> Bytes) {
    && (forall k :: k in recs ==> skey(k, recs[k]) in idx && idx[skey(k, recs[k])] == k)
    && (forall s :: s in idx ==> idx[s] in recs && skey(idx[s], recs[idx[s]]) == s)
  }

  /** So an index has as many entries as there are records, and finds a record by its secondary key. */
  lemma IndexFinds(recs: KV, idx: KV, skey: (Bytes, Bytes) -> Bytes, s: Bytes)
    requires IndexOf(recs, idx, skey)
    ensures s in idx <==> exists k :: k in recs && skey(k, recs[k]) == s
    ensures forall k :: k in recs && skey(k, recs[k]) == s ==> s in idx && idx[s] == k
    ensures idx.Values == recs.Keys
  {
    forall k | k in recs ensures k in idx.Values {
      assert idx[skey(k, recs[k])] == k;
    }
  }

  function RecStep(recs: KV, op: Op): KV {
    match op
    case Insert(key, value) => if key in recs then recs else recs[key := value]
    case KeyUpdate(key, newKey, newValue) => if key !in recs then recs else (recs - {key})[newKey := newValue]
    case ValueUpdate(key, newValue) => if key !in recs then recs else recs[key := newValue]
    case Delete(key) => recs - {key}
    case CursorSet(key, newValue) => recs[key := newValue]
    case CursorDelete(key, _) => recs - {key}
  }

  function IdxStep(recs: KV, idx: KV, skey: (Bytes, Bytes) -> Bytes, op: Op): KV {
    match op
    case Insert(key, value) => if key in recs then idx else idx[skey(key, value) := key]
    case KeyUpdate(key, newKey, newValue) =>
      if key !in recs then idx else (idx - {skey(key, recs[key])})[skey(newKey, newValue) := newKey]
    case ValueUpdate(_, _) => idx
    case Delete(key) => if key !in recs then idx else idx - {skey(key, recs[key])}
    case CursorSet(_, _) => idx
    case CursorDelete(key, value) => idx - {skey(key, value)}
  }

  // ----- The operations act on records and entries as on separate maps -----

  predicate DistinctIndexes(ixs: seq<Index>) {
    ixs == [] || (NoSlash(ixs[0].name) && DistinctIndexes(ixs[1..]) && !HasIndex(ixs[1..], ixs[0].name))
  }

  predicate HasIndex(ixs: seq<Index>, name: Name) {
    ixs != [] && (ixs[0].name == name || HasIndex(ixs[1..], name))
  }

  /** No entry of these indexes is below p. */
  ghost predicate Apart(p: Bytes, ixs: seq<Index>) {
    ixs == [] || ((forall s :: !(p <= IdxPrefix(ixs[0].name) + s)) && Apart(p, ixs[1..]))
  }

  lemma {:induction false} RecordsApart(name: Name, ixs: seq<Index>)
    requires NoSlash(name) && DistinctIndexes(ixs)
    ensures Apart(RecPrefix(name), ixs)
  {
    if ixs != [] {
      RecordsApart(name, ixs[1..]);
      forall s ensures !(RecPrefix(name) <= IdxPrefix(ixs[0].name) + s) {
        PrefixesDisjoint(name, ixs[0].name, IdxPrefix(ixs[0].name) + s);
      }
    }
  }

  lemma {:induction false} OtherIndexApart(name: Name, ixs: seq<Index>)
    requires NoSlash(name) && DistinctIndexes(ixs) && !HasIndex(ixs, name)
    ensures Apart(IdxPrefix(name), ixs)
  {
    if ixs != [] {
      OtherIndexApart(name, ixs[1..]);
      forall s ensures !(IdxPrefix(name) <= IdxPrefix(ixs[0].name) + s) {
        PrefixesDisjoint(name, ixs[0].name, IdxPrefix(ixs[0].name) + s);
      }
    }
  }

  lemma {:induction false} IndexesElsewhere(kv: KV, ixs: seq<Index>, key: Bytes, value: Bytes, p: Bytes)
    requires Apart(p, ixs)
    ensures Part(SetIndexes(kv, ixs, key, value), p) == Part(kv, p)
    ensures Part(ClearIndexes(kv, ixs, key, value), p) == Part(kv, p)
    decreases ixs
  {
    if ixs != [] {
      var full := IdxKey(ixs[0], key, value);
      PartSetElsewhere(kv, p, full, key);
      IndexesElsewhere(kv[full := key], ixs[1..], key, value, p);
      IndexesElsewhere(kv - {full}, ixs[1..], key, value, p);
    }
  }

  lemma {:induction false} IndexesAt(kv: KV, ixs: seq<Index>, key: Bytes, value: Bytes, ix: Index)
    requires DistinctIndexes(ixs) && ix in ixs
    ensures Entries(SetIndexes(kv, ixs, key, value), ix) == Entries(kv, ix)[ix.skey(key, value) := key]
    ensures Entries(ClearIndexes(kv, ixs, key, value), ix) == Entries(kv, ix) - {ix.skey(key, value)}
    decreases ixs
  {
    var p, full := IdxPrefix(ix.name), IdxKey(ixs[0], key, value);
    if ix == ixs[0] {
      PartSet(kv, p, ix.skey(key, value), key);
      OtherIndexApart(ix.name, ixs[1..]);
      IndexesElsewhere(kv[full := key], ixs[1..], key, value, p);
      IndexesElsewhere(kv - {full}, ixs[1..], key, value, p);
    } else {
      assert ix in ixs[1..];
      IndexInDistinct(ixs[1..], ix);
      PrefixesDisjoint(ix.name, ixs[0].name, full);
      PartSetElsewhere(kv, p, full, key);
      IndexesAt(kv[full := key], ixs[1..], key, value, ix);
      IndexesAt(kv - {full}, ixs[1..], key, value, ix);
    }
  }

  lemma {:induction false} IndexInDistinct(ixs: seq<Index>, ix: Index)
    requires DistinctIndexes(ixs) && ix in ixs
    ensures NoSlash(ix.name) && HasIndex(ixs, ix.name)
  {
    if ix != ixs[0] {
      IndexInDistinct(ixs[1..], ix);
    }
  }

  /** The records of this map change as a plain map would. */
  lemma StepRecords(kv: KV, name: Name, ixs: seq<Index>, op: Op)
    requires NoSlash(name) && DistinctIndexes(ixs)
    ensures Recs(Step(kv, name, ixs, op), name) == RecStep(Recs(kv, name), op)
  {
    var p, full := RecPrefix(name), RecKey(name, op.key);
    RecordsApart(name, ixs);
    if !op.Insert? && full in kv {
      IndexesElsewhere(kv, ixs, op.key, kv[full], p);
    }
    match op
    case Insert(key, value) =>
      PartSet(kv, p, key, value);
      IndexesElsewhere(kv[full := value], ixs, key, value, p);
    case KeyUpdate(key, newKey, newValue) =>
      var kv' := WithoutRecord(kv, name, ixs, key);
      if full in kv {
        PartSet(ClearIndexes(kv, ixs, key, kv[full]), p, key, []);
        PartSet(kv', p, newKey, newValue);
        IndexesElsewhere(kv'[RecKey(name, newKey) := newValue], ixs, newKey, newValue, p);
      }
    case ValueUpdate(key, newValue) => PartSet(kv, p, key, newValue);
    case Delete(key) =>
      PartSet(if full in kv then ClearIndexes(kv, ixs, key, kv[full]) else kv, p, key, []);
    case CursorSet(key, newValue) => PartSet(kv, p, key, newValue);
    case CursorDelete(key, value) =>
      PartSet(kv, p, key, value);
      IndexesElsewhere(kv - {full}, ixs, key, value, p);
  }

  /** So do the entries of each of its indexes. */
  lemma StepEntries(kv: KV, name: Name, ixs: seq<Index>, op: Op, ix: Index)
    requires NoSlash(name) && DistinctIndexes(ixs) && ix in ixs
    ensures Entries(Step(kv, name, ixs, op), ix) == IdxStep(Recs(kv, name), Entries(kv, ix), ix.skey, op)
  {
    var q, full := IdxPrefix(ix.name), RecKey(name, op.key);
    IndexInDistinct(ixs, ix);
    forall k ensures !(q <= RecKey(name, k)) {
      PrefixesDisjoint(name, ix.name, RecKey(name, k));
    }
    if !op.Insert? && full in kv {
      IndexesAt(kv, ixs, op.key, kv[full], ix);
    }
    match op
    case Insert(key, value) =>
      PartSetElsewhere(kv, q, full, value);
      IndexesAt(kv[full := value], ixs, key, value, ix);
    case KeyUpdate(key, newKey, newValue) =>
      var kv' := WithoutRecord(kv, name, ixs, key);
      if full in kv {
        PartSetElsewhere(ClearIndexes(kv, ixs, key, kv[full]), q, full, []);
        PartSetElsewhere(kv', q, RecKey(name, newKey), newValue);
        IndexesAt(kv'[RecKey(name, newKey) := newValue], ixs, newKey, newValue, ix);
      }
    case ValueUpdate(key, newValue) => PartSetElsewhere(kv, q, full, newValue);
    case Delete(key) =>
      PartSetElsewhere(if full in kv then ClearIndexes(kv, ixs, key, kv[full]) else kv, q, full, []);
    case CursorSet(key, newValue) => PartSetElsewhere(kv, q, full, newValue);
    case CursorDelete(key, value) =>
      PartSetElsewhere(kv, q, full, value);
      IndexesAt(kv - {full}, ixs, key, value, ix);
  }

  /** Nothing below another prefix changes: not the other record maps, and not their indexes. */
  lemma StepElsewhere(kv: KV, name: Name, ixs: seq<Index>, op: Op, p: Bytes)
    requires Apart(p, ixs) && forall k :: !(p <= RecKey(name, k))
    ensures Part(Step(kv, name, ixs, op), p) == Part(kv, p)
  {
    var full := RecKey(name, op.key);
    if full in kv {
      IndexesElsewhere(kv, ixs, op.key, kv[full], p);
    }
    match op
    case Insert(key, value) =>
      PartSetElsewhere(kv, p, full, value);
      IndexesElsewhere(kv[full := value], ixs, key, value, p);
    case KeyUpdate(key, newKey, newValue) =>
      var kv' := WithoutRecord(kv, name, ixs, key);
      if full in kv {
        PartSetElsewhere(ClearIndexes(kv, ixs, key, kv[full]), p, full, []);
        PartSetElsewhere(kv', p, RecKey(name, newKey), newValue);
        IndexesElsewhere(kv'[RecKey(name, newKey) := newValue], ixs, newKey, newValue, p);
      }
    case ValueUpdate(key, newValue) => PartSetElsewhere(kv, p, full, newValue);
    case Delete(key) =>
      PartSetElsewhere(if full in kv then ClearIndexes(kv, ixs, key, kv[full]) else kv, p, full, []);
    case CursorSet(key, newValue) => PartSetElsewhere(kv, p, full, newValue);
    case CursorDelete(key, value) =>
      PartSetElsewhere(kv, p, full, value);
      IndexesElsewhere(kv - {full}, ixs, key, value, p);
  }

  // ----- When the indexes stay right -----

  /** Storing a record and its entry: right iff the secondary key is new, or that of the record replaced. */
  predicate EntryFits(recs: KV, idx: KV, skey: (Bytes, Bytes) -> Bytes, key: Bytes, value: Bytes) {
    if key in recs then skey(key, recs[key]) == skey(key, value) else skey(key, value) !in idx
  }

  lemma StoredIndexOf(recs: KV, idx: KV, skey: (Bytes, Bytes) -> Bytes, key: Bytes, value: Bytes)
    requires IndexOf(recs, idx, skey)
    ensures IndexOf(recs[key := value], idx[skey(key, value) := key], skey) <==> EntryFits(recs, idx, skey, key, value)
  {
    var recs', idx' := recs[key := value], idx[skey(key, value) := key];
    if !EntryFits(recs, idx, skey, key, value) {
      if key in recs {
        assert skey(key, recs[key]) in idx';
      } else {
        var k := idx[skey(key, value)];
        assert k in recs';
      }
    }
  }

  lemma RemovedIndexOf(recs: KV, idx: KV, skey: (Bytes, Bytes) -> Bytes, key: Bytes)
    requires IndexOf(recs, idx, skey) && key in recs
    ensures IndexOf(recs - {key}, idx - {skey(key, recs[key])}, skey)
  {}

  lemma ChangedIndexOf(recs: KV, idx: KV, skey: (Bytes, Bytes) -> Bytes, key: Bytes, value: Bytes)
    requires IndexOf(recs, idx, skey) && key in recs
    ensures IndexOf(recs[key := value], idx, skey) <==> skey(key, recs[key]) == skey(key, value)
  {
    var s := skey(key, recs[key]);
    assert s in idx && idx[s] == key;
    var recs' := recs[key := value];
    assert recs'[key] == value;
  }

  /**
   * The condition under which an operation keeps an index right, checkable before the operation: the uniqueness
   * of secondary keys and of new primary keys, and the secondary keys a value update must not touch, none of
   * which the code checks. A cursor has to stand on a record that is still there unchanged.
   */
  predicate Fits(recs: KV, idx: KV, skey: (Bytes, Bytes) -> Bytes, op: Op) {
    match op
    case Insert(key, value) => key in recs || skey(key, value) !in idx
    case KeyUpdate(key, newKey, newValue) =>
      key !in recs || EntryFits(recs - {key}, idx - {skey(key, recs[key])}, skey, newKey, newValue)
    case ValueUpdate(key, newValue) => key !in recs || skey(key, recs[key]) == skey(key, newValue)
    case Delete(_) => true
    case CursorSet(key, newValue) => key in recs && skey(key, recs[key]) == skey(key, newValue)
    case CursorDelete(key, value) => key in recs && skey(key, recs[key]) == skey(key, value)
  }

  /** For the cursor's operations: the cursor stands on an existing record. */
  predicate OnRecord(recs: KV, op: Op) {
    op.CursorSet? || op.CursorDelete? ==> op.key in recs
  }

  lemma StepIndexOf(recs: KV, idx: KV, skey: (Bytes, Bytes) -> Bytes, op: Op)
    requires IndexOf(recs, idx, skey) && OnRecord(recs, op)
    ensures IndexOf(RecStep(recs, op), IdxStep(recs, idx, skey, op), skey) <==> Fits(recs, idx, skey, op)
  {
    match op
    case Insert(key, value) => StoredIndexOf(recs, idx, skey, key, value);
    case KeyUpdate(key, newKey, newValue) =>
      if key in recs {
        RemovedIndexOf(recs, idx, skey, key);
        StoredIndexOf(recs - {key}, idx - {skey(key, recs[key])}, skey, newKey, newValue);
      }
    case ValueUpdate(key, newValue) =>
      if key in recs {
        ChangedIndexOf(recs, idx, skey, key, newValue);
      }
    case Delete(key) =>
      if key in recs {
        RemovedIndexOf(recs, idx, skey, key);
      } else {
        assert recs - {key} == recs;
      }
    case CursorSet(key, newValue) => ChangedIndexOf(recs, idx, skey, key, newValue);
    case CursorDelete(key, value) =>
      RemovedIndexOf(recs, idx, skey, key);
      var s, idx' := skey(key, recs[key]), idx - {skey(key, value)};
      assert s in idx && idx[s] == key;
      if s != skey(key, value) {
        assert s in idx' && idx'[s] == key && key !in recs - {key};
      }
  }

  // ----- Over every run -----

  /** Every index holds exactly one entry for each record. */
  ghost predicate Consistent(kv: KV, name: Name, ixs: seq<Index>) {
    forall ix :: ix in ixs ==> IndexOf(Recs(kv, name), Entries(kv, ix), ix.skey)
  }

  ghost predicate AllFit(kv: KV, name: Name, ixs: seq<Index>, op: Op) {
    OnRecord(Recs(kv, name), op) && forall ix :: ix in ixs ==> Fits(Recs(kv, name), Entries(kv, ix), ix.skey, op)
  }

  /** An operation on a consistent record map leaves it consistent iff it fits every index. */
  lemma StepConsistent(kv: KV, name: Name, ixs: seq<Index>, op: Op)
    requires NoSlash(name) && DistinctIndexes(ixs) && Consistent(kv, name, ixs) && OnRecord(Recs(kv, name), op)
    ensures Consistent(Step(kv, name, ixs, op), name, ixs) <==> AllFit(kv, name, ixs, op)
  {
    StepRecords(kv, name, ixs, op);
    forall ix | ix in ixs
      ensures IndexOf(Recs(Step(kv, name, ixs, op), name), Entries(Step(kv, name, ixs, op), ix), ix.skey) <==>
              Fits(Recs(kv, name), Entries(kv, ix), ix.skey, op)
    {
      StepEntries(kv, name, ixs, op, ix);
      StepIndexOf(Recs(kv, name), Entries(kv, ix), ix.skey, op);
    }
  }

  function Run(kv: KV, name: Name, ixs: seq<Index>, ops: seq<Op>): KV
    decreases ops
  {
    if ops == [] then kv else Run(Step(kv, name, ixs, ops[0]), name, ixs, ops[1..])
  }

  function RecRun(recs: KV, ops: seq<Op>): KV
    decreases ops
  {
    if ops == [] then recs else RecRun(RecStep(recs, ops[0]), ops[1..])
  }

  ghost predicate RunFits(kv: KV, name: Name, ixs: seq<Index>, ops: seq<Op>)
    decreases ops
  {
    ops == [] || (AllFit(kv, name, ixs, ops[0]) && RunFits(Step(kv, name, ixs, ops[0]), name, ixs, ops[1..]))
  }

  /**
   * Over every run of fitting operations the indexes stay exact, the records behave as a plain map, and the
   * records and entries of other record maps stay as they are.
   */
  lemma {:induction false} RunConsistent(kv: KV, name: Name, ixs: seq<Index>, ops: seq<Op>, p: Bytes)
    requires NoSlash(name) && DistinctIndexes(ixs) && Consistent(kv, name, ixs) && RunFits(kv, name, ixs, ops)
    ensures Consistent(Run(kv, name, ixs, ops), name, ixs)
    ensures Recs(Run(kv, name, ixs, ops), name) == RecRun(Recs(kv, name), ops)
    ensures Apart(p, ixs) && (forall k :: !(p <= RecKey(name, k))) ==> Part(Run(kv, name, ixs, ops), p) == Part(kv, p)
    decreases ops
  {
    if ops != [] {
      var kv' := Step(kv, name, ixs, ops[0]);
      StepConsistent(kv, name, ixs, ops[0]);
      StepRecords(kv, name, ixs, ops[0]);
      RunConsistent(kv', name, ixs, ops[1..], p);
      if Apart(p, ixs) && forall k :: !(p <= RecKey(name, k)) {
        StepElsewhere(kv, name, ixs, ops[0], p);
      }
    }
  }

  /** Every record map starts out consistent, with no records and no index entries. */
  lemma EmptyConsistent(kv: KV, name: Name, ixs: seq<Index>)
    requires Recs(kv, name) == map[] && forall ix :: ix in ixs ==> Entries(kv, ix) == map[]
    ensures Consistent(kv, name, ixs)
  {}

  /** A new index has no entries: it is exact, like those before it, iff there are no records. */
  lemma NewIndexConsistent(kv: KV, name: Name, ixs: seq<Index>, ix: Index)
    requires Entries(kv, ix) == map[]
    ensures Consistent(kv, name, [ix] + ixs) <==> Consistent(kv, name, ixs) && Recs(kv, name) == map[]
  {
    assert forall i :: i in [ix] + ixs <==> i == ix || i in ixs;
    if Consistent(kv, name, [ix] + ixs) {
      assert IndexOf(Recs(kv, name), Entries(kv, ix), ix.skey);
      assert forall k :: k !in Recs(kv, name);
    }
  }
}
