/** Cursors over a record map (fdbrec/fdbcursor.c). */
module FdbCursors {
  import opened ByteStrings
  import opened Options
  import opened FdbStore
  import opened FdbRecmaps

  // ----- Ranges of the store and keys of the records -----

  /** The keys of the records after last, or of all records. */
  function LaterKeys(recs: KV, last: Option<Bytes>): set<Bytes> {
    set k | k in recs && (last.None? || Less(last.value, k))
  }

  lemma LeastBelow(p: Bytes, ks: set<Bytes>, full: set<Bytes>)
    requires ks != {} && (forall k :: k in full ==> p <= k && k[|p|..] in ks) && forall k :: k in ks ==> p + k in full
    ensures full != {} && Least(full) == p + Least(ks)
  {
    var least := Least(ks);
    assert least in ks && forall k :: k in ks ==> AtMost(least, k);
    hide Least, AtMost, Less;
    forall k | k in full ensures AtMost(p + least, k) {
      AtMostBelowPrefix(p, least, k[|p|..]);
      assert k == p + k[|p|..];
    }
    LeastUnique(p + least, full);
  }

  lemma PrefixSplit(p: Bytes, k: Bytes)
    requires p <= k
    ensures k == p + k[|p|..]
  {}

  lemma AtMostBelowPrefix(p: Bytes, a: Bytes, b: Bytes)
    requires AtMost(a, b)
    ensures AtMost(p + a, p + b)
  {
    LessBelowPrefix(p, a, b);
  }

  /** What lies in a record map's range from begin on are the keys of its records, prefixed. */
  lemma RangeHolds(kv: KV, name: Name, last: Option<Bytes>)
    ensures var p := RecPrefix(name);
      var begin := if last.None? then p else p + last.value;
      var full := set k | k in kv && InRange(k, begin, RangeEnd(p)) && !(last.Some? && k == begin);
      var ks := LaterKeys(Recs(kv, name), last);
      if ks == {} then full == {} else full != {} && Least(full) == p + Least(ks)
  {
    var p := RecPrefix(name);
    var begin := if last.None? then p else p + last.value;
    var full := set k | k in kv && InRange(k, begin, RangeEnd(p)) && !(last.Some? && k == begin);
    var recs := Recs(kv, name);
    var ks := LaterKeys(recs, last);
    forall k | k in full ensures p <= k && k[|p|..] in ks {
      RangeIsPrefix(p, begin);
      AtMostTransitive(p, begin, k);
      RangeIsPrefix(p, k);
      assert k == p + k[|p|..];
      if last.Some? {
        LessBelowPrefix(p, last.value, k[|p|..]);
      }
    }
    forall k | k in ks ensures p + k in full {
      RangeIsPrefix(p, p + k);
      if last.Some? {
        LessBelowPrefix(p, last.value, k);
        LessIrreflexive(begin);
      }
    }
    if ks != {} {
      LeastBelow(p, ks, full);
    }
  }

  class Cursor {
    const recmap: Recmap
    const tx: Transaction
    var key: Bytes    // the full key of the current record
    var value: Bytes

    constructor (recmap: Recmap, tx: Transaction)
      ensures this.recmap == recmap && this.tx == tx
    {
      this.recmap, this.tx := recmap, tx;
      key, value := [], [];
    }

    /** The cursor has been moved to a record, which may be gone by now. */
    predicate Positioned()
      reads this, recmap
    {
      RecPrefix(recmap.name) <= key
    }

    function Current(): Bytes
      reads this, recmap
      requires Positioned()
    {
      key[|RecPrefix(recmap.name)|..]
    }

    method First() returns (r: Result<(), RecError>)
      modifies this
      ensures var recs := Recs(tx.kv, recmap.name);
        if recs == map[] then r == Err(NotFound) && key == old(key) && value == old(value)
        else r == Ok(()) && Positioned() && Current() == Least(recs.Keys) && value == recs[Current()]
    {
      var keybuf := RecPrefix(recmap.name);
      RangeHolds(tx.kv, recmap.name, None);
      assert LaterKeys(Recs(tx.kv, recmap.name), None) == Recs(tx.kv, recmap.name).Keys;
      var found := tx.GetRange(keybuf, false, RangeEnd(keybuf));
      if found.None? {
        return Err(NotFound);
      }
      key, value := found.value.0, found.value.1;
      return Ok(());
    }

    method Next() returns (r: Result<(), RecError>)
      requires Positioned()
      modifies this
      ensures var recs := Recs(tx.kv, recmap.name);
        var later := LaterKeys(recs, Some(old(Current())));
        if later == {} then r == Err(NotFound) && key == old(key) && value == old(value)
        else r == Ok(()) && Positioned() && Current() == Least(later) && value == recs[Current()]
    {
      var keybuf := RecPrefix(recmap.name);
      RangeHolds(tx.kv, recmap.name, Some(Current()));
      PrefixSplit(keybuf, key);
      hide InRange, RecPrefix, RangeEnd;
      var found := tx.GetRange(key, true, RangeEnd(keybuf));
      if found.None? {
        return Err(NotFound);
      }
      key, value := found.value.0, found.value.1;
      return Ok(());
    }

    /** Writes the current record back with another value; the key cannot be changed. */
    method Set(isKeyUpdate: bool, setFields: Bytes -> Bytes) returns (ok: bool)
      requires Positioned()
      modifies this, tx
      ensures ok == !isKeyUpdate && key == old(key)
      ensures value == if ok then setFields(old(value)) else old(value)
      ensures tx.kv == if ok then Step(old(tx.kv), recmap.name, recmap.indexes, CursorSet(Current(), value))
        else old(tx.kv)
    {
      if isKeyUpdate {
        return false;
      }
      value := setFields(value);
      assert key == RecKey(recmap.name, Current());
      tx.Set(key, value);
      return true;
    }

    method Delete()
      requires Positioned()
      modifies tx
      ensures tx.kv == Step(old(tx.kv), recmap.name, recmap.indexes, CursorDelete(Current(), value))
    {
      assert key == RecKey(recmap.name, Current());
      tx.Clear(key);
      recmap.DeleteFromIndexes(tx, key[|RecPrefix(recmap.name)|..], value);
    }
  }

  // ----- A whole scan -----

  lemma LaterThanLeast(recs: KV, last: Option<Bytes>, recs': KV)
    requires LaterKeys(recs, last) != {}
    ensures var ks := LaterKeys(recs, last);
      recs' == recs || recs' == recs - {Least(ks)} ==> LaterKeys(recs', Some(Least(ks))) == ks - {Least(ks)}
  {
    var ks := LaterKeys(recs, last);
    var m := Least(ks);
    RestIsLater(ks, m);
    forall k | k in recs && Less(m, k) ensures k in ks {
      if last.Some? {
        LessTransitive(last.value, m, k);
      }
    }
    LessIrreflexive(m);
  }

  /** The store after a record has been shown: unchanged, or without the record if the scan deletes what it shows. */
  ghost function Shown(kv: KV, name: Name, ixs: seq<Index>, k: Bytes, deleting: bool): KV
    requires k in Recs(kv, name)
  {
    if deleting then Step(kv, name, ixs, CursorDelete(k, Recs(kv, name)[k])) else kv
  }

  /** The keys that moving to the first record and then on and on shows, and the store at the end. */
  ghost function Scan(kv: KV, name: Name, ixs: seq<Index>, last: Option<Bytes>, deleting: bool): (seq<Bytes>, KV)
    requires NoSlash(name) && DistinctIndexes(ixs)
    decreases |LaterKeys(Recs(kv, name), last)|
  {
    var recs := Recs(kv, name);
    var ks := LaterKeys(recs, last);
    if ks == {} then ([], kv)
    else
      var k := Least(ks);
      var kv' := Shown(kv, name, ixs, k, deleting);
      StepRecords(kv, name, ixs, CursorDelete(k, recs[k]));
      LaterThanLeast(recs, last, Recs(kv', name));
      var rest := Scan(kv', name, ixs, Some(k), deleting);
      ([k] + rest.0, rest.1)
  }

  lemma ScanStep(kv: KV, name: Name, ixs: seq<Index>, last: Option<Bytes>, deleting: bool)
    requires NoSlash(name) && DistinctIndexes(ixs) && LaterKeys(Recs(kv, name), last) != {}
    ensures var ks := LaterKeys(Recs(kv, name), last);
      var k := Least(ks);
      var kv' := Shown(kv, name, ixs, k, deleting);
      var rest := Scan(kv', name, ixs, Some(k), deleting);
      Scan(kv, name, ixs, last, deleting) == ([k] + rest.0, rest.1) &&
      LaterKeys(Recs(kv', name), Some(k)) == ks - {k} && k in ks && |ks - {k}| < |ks|
  {
    var recs := Recs(kv, name);
    var k := Least(LaterKeys(recs, last));
    StepRecords(kv, name, ixs, CursorDelete(k, recs[k]));
    LaterThanLeast(recs, last, Recs(Shown(kv, name, ixs, k, deleting), name));
  }

  /** A client that moves a cursor to the first record and then on and on, and deletes each record if asked to. */
  method ScanRecords(c: Cursor, deleting: bool) returns (shown: seq<Bytes>)
    requires NoSlash(c.recmap.name) && DistinctIndexes(c.recmap.indexes)
    modifies c, c.tx
    ensures shown == Scan(old(c.tx.kv), c.recmap.name, c.recmap.indexes, None, deleting).0
    ensures c.tx.kv == Scan(old(c.tx.kv), c.recmap.name, c.recmap.indexes, None, deleting).1
  {
    hide Scan, Step, Shown, Recs, Least, NoSlash, DistinctIndexes;
    shown := [];
    ghost var last: Option<Bytes> := None;
    ghost var name, ixs := c.recmap.name, c.recmap.indexes;
    assert LaterKeys(Recs(c.tx.kv, name), None) == Recs(c.tx.kv, name).Keys;
    hide LaterKeys, RecPrefix, RecKey;
    var r := c.First();
    EmptyShown(Scan(c.tx.kv, name, ixs, None, deleting).0);
    while r.Ok?
      invariant c.recmap.indexes == ixs
      invariant var ks := LaterKeys(Recs(c.tx.kv, name), last);
        if r.Err? then ks == {}
        else ks != {} && c.Positioned() && c.Current() == Least(ks) && c.value == Recs(c.tx.kv, name)[Least(ks)]
      invariant Scan(old(c.tx.kv), name, ixs, None, deleting).0 == shown + Scan(c.tx.kv, name, ixs, last, deleting).0
      invariant Scan(old(c.tx.kv), name, ixs, None, deleting).1 == Scan(c.tx.kv, name, ixs, last, deleting).1
      decreases |LaterKeys(Recs(c.tx.kv, name), last)|
    {
      ScanStep(c.tx.kv, name, ixs, last, deleting);
      ghost var kv, before := c.tx.kv, shown;
      shown := shown + [c.Current()];
      last := Some(c.Current());
      if deleting {
        c.Delete();
      }
      assert c.tx.kv == Shown(kv, name, ixs, last.value, deleting) by {
        ShownIs(kv, name, ixs, last.value, deleting);
      }
      AppendShown(before, last.value, Scan(c.tx.kv, name, ixs, last, deleting).0);
      r := c.Next();
    }
    ScanEnds(c.tx.kv, name, ixs, last, deleting);
    assert shown + [] == shown;
  }

  lemma EmptyShown(rest: seq<Bytes>)
    ensures [] + rest == rest
  {}

  lemma AppendShown(before: seq<Bytes>, k: Bytes, rest: seq<Bytes>)
    ensures before + ([k] + rest) == before + [k] + rest
  {}

  lemma ShownIs(kv: KV, name: Name, ixs: seq<Index>, k: Bytes, deleting: bool)
    requires k in Recs(kv, name)
    ensures Shown(kv, name, ixs, k, deleting) ==
      if deleting then Step(kv, name, ixs, CursorDelete(k, Recs(kv, name)[k])) else kv
  {}

  lemma ScanEnds(kv: KV, name: Name, ixs: seq<Index>, last: Option<Bytes>, deleting: bool)
    requires NoSlash(name) && DistinctIndexes(ixs) && LaterKeys(Recs(kv, name), last) == {}
    ensures Scan(kv, name, ixs, last, deleting) == ([], kv)
  {}

  /**
   * A scan shows the records after last, each once, in increasing order of their keys, even if it deletes
   * every record it shows; a deleting scan leaves none of them, and keeps the indexes exact.
   */
  lemma {:induction false} ScanShowsAll(kv: KV, name: Name, ixs: seq<Index>, last: Option<Bytes>, deleting: bool)
    requires NoSlash(name) && DistinctIndexes(ixs) && Consistent(kv, name, ixs)
    ensures var recs, (shown, kv') := Recs(kv, name), Scan(kv, name, ixs, last, deleting);
      && shown == Listing(LaterKeys(recs, last))
      && Recs(kv', name) == (if deleting then recs - LaterKeys(recs, last) else recs)
      && Consistent(kv', name, ixs)
    decreases |LaterKeys(Recs(kv, name), last)|
  {
    hide Step, Consistent, Listing, Shown;
    var recs := Recs(kv, name);
    var ks := LaterKeys(recs, last);
    if ks == {} {
      MinusInSteps(recs, ks, []);
      EmptyListing();
    } else {
      var k := Least(ks);
      var kv' := Shown(kv, name, ixs, k, deleting);
      ShownOne(kv, name, ixs, k, deleting);
      LaterThanLeast(recs, last, Recs(kv', name));
      ScanShowsAll(kv', name, ixs, Some(k), deleting);
      MinusInSteps(recs, ks, k);
      ListingStep(ks);
    }
  }

  lemma ShownOne(kv: KV, name: Name, ixs: seq<Index>, k: Bytes, deleting: bool)
    requires NoSlash(name) && DistinctIndexes(ixs) && Consistent(kv, name, ixs) && k in Recs(kv, name)
    ensures var kv' := Shown(kv, name, ixs, k, deleting);
      Consistent(kv', name, ixs) && Recs(kv', name) == if deleting then Recs(kv, name) - {k} else Recs(kv, name)
  {
    StepRecords(kv, name, ixs, CursorDelete(k, Recs(kv, name)[k]));
    StepConsistent(kv, name, ixs, CursorDelete(k, Recs(kv, name)[k]));
  }

  lemma MinusInSteps<K, V>(m: map<K, V>, ks: set<K>, k: K)
    ensures if ks == {} then m - ks == m else k in ks ==> m - {k} - (ks - {k}) == m - ks
  {}

  lemma EmptyListing()
    ensures Listing({}) == []
  {}

  lemma ListingStep(s: set<Bytes>)
    requires s != {}
    ensures Listing(s) == [Least(s)] + Listing(s - {Least(s)})
  {}

  /** From the first record on, that is every record; emptying a record map by cursor empties its indexes too. */
  lemma FullScan(kv: KV, name: Name, ixs: seq<Index>, deleting: bool)
    requires NoSlash(name) && DistinctIndexes(ixs) && Consistent(kv, name, ixs)
    ensures var (shown, kv') := Scan(kv, name, ixs, None, deleting);
      && Ascending(shown) && |shown| == |Recs(kv, name)| && (forall k :: k in shown <==> k in Recs(kv, name))
      && (deleting ==> Recs(kv', name) == map[] && forall ix :: ix in ixs ==> Entries(kv', ix) == map[])
  {
    hide Scan, Listing, Ascending;
    ScanShowsAll(kv, name, ixs, None, deleting);
    var recs := Recs(kv, name);
    assert LaterKeys(recs, None) == recs.Keys;
    ListingMeans(recs.Keys);
    assert |recs| == |recs.Keys|;
    if deleting {
      var kv' := Scan(kv, name, ixs, None, deleting).1;
      assert Recs(kv', name) == map[];
      NoRecordsNoEntries(kv', name, ixs);
    }
  }

  lemma NoRecordsNoEntries(kv: KV, name: Name, ixs: seq<Index>)
    requires Consistent(kv, name, ixs) && Recs(kv, name) == map[]
    ensures forall ix :: ix in ixs ==> Entries(kv, ix) == map[]
  {
    forall ix | ix in ixs ensures Entries(kv, ix) == map[] {
      assert IndexOf(Recs(kv, name), Entries(kv, ix), ix.skey);
    }
  }
}
