/**
 * The FoundationDB key space as the record maps use it: one ordered map from byte strings to byte strings,
 * in which prefixes keep apart the records of each record map and the entries of each index.
 */
module FdbStore {
  import opened ByteStrings
  import opened Options

  type KV = map<Bytes, Bytes>

  const SLASH: byte := 47
  const TABLE: byte := 116
  const INDEX: byte := 105

  // ----- Prefixes and ranges -----

  /** "t/<name>/" */
  function RecPrefix(name: Name): Bytes {
    [TABLE, SLASH] + name + [SLASH]
  }

  /** "i/<name>/" */
  function IdxPrefix(name: Name): Bytes {
    [INDEX, SLASH] + name + [SLASH]
  }

  /** The prefix with its last byte incremented. */
  function RangeEnd(p: Bytes): Bytes
    requires p != [] && p[|p| - 1] == SLASH
  {
    p[..|p| - 1] + [SLASH + 1]
  }

  predicate InRange(k: Bytes, begin: Bytes, end: Bytes) {
    AtMost(begin, k) && Less(k, end)
  }

  /** Between a prefix that ends with a slash and its successor lie exactly the keys with that prefix. */
  lemma {:induction false} RangeIsPrefix(p: Bytes, k: Bytes)
    requires p != [] && p[|p| - 1] == SLASH
    ensures InRange(k, p, RangeEnd(p)) <==> p <= k
  {
    var end := RangeEnd(p);
    if |p| == 1 {
      assert p == [SLASH] && p[1..] == [] && end == [SLASH + 1] && end[1..] == [];
      if k != [] {
        assert k == [k[0]] + k[1..];
        assert p <= k <==> k[0] == SLASH;
        assert Less(p[1..], k[1..]) <==> k[1..] != [];
        assert p == k <==> k[0] == SLASH && k[1..] == [];
        assert Less(k, end) <==> k[0] < SLASH + 1;
      }
    } else if k != [] && k[0] == p[0] {
      RangeIsPrefix(p[1..], k[1..]);
      assert RangeEnd(p[1..]) == end[1..];
      assert p == [p[0]] + p[1..] && k == [k[0]] + k[1..];
      assert p <= k <==> p[1..] <= k[1..];
    } else {
      assert end[0] == p[0];
    }
  }

  predicate NoSlash(name: Name) {
    SLASH !in name
  }

  /** No key belongs to two record maps or two indexes, or to one of each. */
  lemma PrefixesDisjoint(n1: Name, n2: Name, k: Bytes)
    requires NoSlash(n1) && NoSlash(n2)
    ensures RecPrefix(n1) <= k && RecPrefix(n2) <= k ==> n1 == n2
    ensures IdxPrefix(n1) <= k && IdxPrefix(n2) <= k ==> n1 == n2
    ensures !(RecPrefix(n1) <= k && IdxPrefix(n2) <= k)
  {
    assert RecPrefix(n1)[0] == TABLE && IdxPrefix(n2)[0] == INDEX;
    if (RecPrefix(n1) <= k && RecPrefix(n2) <= k) || (IdxPrefix(n1) <= k && IdxPrefix(n2) <= k) {
      NameEnds(n1, n2, k[2..]);
    }
  }

  lemma {:induction false} NameEnds(n1: Name, n2: Name, rest: Bytes)
    requires NoSlash(n1) && NoSlash(n2) && n1 + [SLASH] <= rest && n2 + [SLASH] <= rest
    ensures n1 == n2
  {
    if n1 == [] || n2 == [] {
      assert rest[0] == (n1 + [SLASH])[0] == (n2 + [SLASH])[0];
    } else {
      assert rest[0] == n1[0] == n2[0];
      assert (n1 + [SLASH])[1..] == n1[1..] + [SLASH] && (n2 + [SLASH])[1..] == n2[1..] + [SLASH];
      NameEnds(n1[1..], n2[1..], rest[1..]);
      assert n1 == [n1[0]] + n1[1..] && n2 == [n2[0]] + n2[1..];
    }
  }

  lemma {:induction false} LessBelowPrefix(p: Bytes, a: Bytes, b: Bytes)
    ensures Less(p + a, p + b) <==> Less(a, b)
  {
    if p == [] {
      assert p + a == a && p + b == b;
    } else {
      assert (p + a)[1..] == p[1..] + a && (p + b)[1..] == p[1..] + b;
      LessBelowPrefix(p[1..], a, b);
    }
  }

  // ----- The part of the store below a prefix -----

  function KeysBelow(kv: KV, p: Bytes): set<Bytes> {
    set k | k in kv && p <= k :: k[|p|..]
  }

  lemma BelowIff(kv: KV, p: Bytes, k: Bytes)
    ensures k in KeysBelow(kv, p) <==> p + k in kv
  {
    if p + k in kv {
      assert (p + k)[|p|..] == k;
    }
    if k in KeysBelow(kv, p) {
      var f :| f in kv && p <= f && f[|p|..] == k;
      assert f == p + k;
    }
  }

  /** What is stored below a prefix, with the prefix taken off the keys. */
  ghost function Part(kv: KV, p: Bytes): (part: KV)
    ensures forall k :: k in part <==> p + k in kv
    ensures forall k :: k in part ==> part[k] == kv[p + k]
  {
    assert forall k :: k in KeysBelow(kv, p) <==> p + k in kv by {
      forall k ensures k in KeysBelow(kv, p) <==> p + k in kv {
        BelowIff(kv, p, k);
      }
    }
    map k | k in KeysBelow(kv, p) :: kv[p + k]
  }

  lemma SameBelow(p: Bytes, k: Bytes, k': Bytes)
    ensures p + k == p + k' ==> k == k'
  {
    assert (p + k)[|p|..] == k && (p + k')[|p|..] == k';
  }

  lemma PartSet(kv: KV, p: Bytes, k: Bytes, v: Bytes)
    ensures Part(kv[p + k := v], p) == Part(kv, p)[k := v]
    ensures Part(kv - {p + k}, p) == Part(kv, p) - {k}
  {
    forall k' ensures p + k' == p + k <==> k' == k {
      SameBelow(p, k, k');
    }
  }

  lemma PartSetElsewhere(kv: KV, p: Bytes, key: Bytes, v: Bytes)
    requires !(p <= key)
    ensures Part(kv[key := v], p) == Part(kv, p)
    ensures Part(kv - {key}, p) == Part(kv, p)
  {
    forall k ensures p + k != key {}
  }

  // ----- The transaction of the client library -----

  /** What the record maps use of a FoundationDB transaction. */
  class Transaction {
    var kv: KV

    constructor (kv: KV)
      ensures this.kv == kv
    {
      this.kv := kv;
    }

    method Get(key: Bytes) returns (r: Option<Bytes>)
      ensures r == if key in kv then Some(kv[key]) else None
    {
      return if key in kv then Some(kv[key]) else None;
    }

    method Set(key: Bytes, value: Bytes)
      modifies this
      ensures kv == old(kv)[key := value]
    {
      kv := kv[key := value];
    }

    method Clear(key: Bytes)
      modifies this
      ensures kv == old(kv) - {key}
    {
      kv := kv - {key};
    }

    method ClearRange(begin: Bytes, end: Bytes)
      modifies this
      ensures kv == map k | k in old(kv) && !InRange(k, begin, end) :: old(kv)[k]
    {
      kv := map k | k in kv && !InRange(k, begin, end) :: kv[k];
    }

    /** The first pair from begin on (or only after begin, if strict) and before end. */
    method GetRange(begin: Bytes, strict: bool, end: Bytes) returns (r: Option<(Bytes, Bytes)>)
      ensures var found := set k | k in kv && InRange(k, begin, end) && !(strict && k == begin);
              r == if found == {} then None else Some((Least(found), kv[Least(found)]))
    {
      var found := set k | k in kv && InRange(k, begin, end) && !(strict && k == begin);
      if found == {} {
        return None;
      }
      ghost var least := Least(found);
      var m :| m in found && forall k :: k in found ==> AtMost(m, k);
      LeastUnique(m, found);
      return Some((m, kv[m]));
    }
  }
}
