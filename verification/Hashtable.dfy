/**
 * The open-addressing hash table of gen/hashtable.c and its iterator (gen/hashtabit.c).
 *
 * A slot holds no entry or one entry. An entry is found by linear probing from its home slot,
 * so no empty slot may separate an entry from its home.
 */
module Hashtables {
  import opened Options

  const INT_MAX := 0x7FFF_FFFF

  newtype uint32 = x: int | 0 <= x < 0x1_0000_0000

  // ----- Slots and probe paths -----

  /** The slot reached after d probe steps from home, wrapping around at the end. */
  function At(home: nat, d: nat, capacity: nat): nat
    requires home < capacity && d <= capacity
  {
    if home + d >= capacity then home + d - capacity else home + d
  }

  /** How many probe steps lead from home to slot i. */
  function Dist(home: nat, i: nat, capacity: nat): (d: nat)
    requires home < capacity && i < capacity
    ensures d < capacity && At(home, d, capacity) == i
  {
    if i >= home then i - home else i + capacity - home
  }

  function Home<K>(hash: K -> uint32, k: K, capacity: nat): (h: nat)
    requires 0 < capacity
    ensures h < capacity
  {
    hash(k) as int % capacity
  }

  /** The probing invariant: every slot before slot i on the probe path of its entry is taken. */
  ghost predicate Probed<E, K>(s: seq<Option<E>>, key: E -> K, hash: K -> uint32) {
    forall i, d: nat :: 0 <= i < |s| && s[i].Some? && d < Dist(Home(hash, key(s[i].value), |s|), i, |s|) ==>
      s[At(Home(hash, key(s[i].value), |s|), d, |s|)].Some?
  }

  /** The slots hold the entries of m, each one once. */
  ghost predicate Holds<E, K>(s: seq<Option<E>>, key: E -> K, m: map<K, E>) {
    && (forall i :: 0 <= i < |s| && s[i].Some? ==> key(s[i].value) in m && m[key(s[i].value)] == s[i].value)
    && (forall k :: k in m ==> key(m[k]) == k && Some(m[k]) in s)
    && (forall i, j :: 0 <= i < j < |s| && s[i].Some? && s[j].Some? ==> key(s[i].value) != key(s[j].value))
  }

  ghost predicate Represents<E, K>(s: seq<Option<E>>, key: E -> K, hash: K -> uint32, m: map<K, E>) {
    0 < |s| && Holds(s, key, m) && Probed(s, key, hash)
  }

  /** The first d slots on the probe path of k are taken by entries with other keys. */
  ghost predicate Passed<E, K>(s: seq<Option<E>>, key: E -> K, hash: K -> uint32, k: K, d: nat)
    requires 0 < |s| && d <= |s|
  {
    forall d': nat :: d' < d ==>
      var slot := s[At(Home(hash, k, |s|), d', |s|)];
      slot.Some? && key(slot.value) != k
  }

  /** A table whose slots are all taken represents a map with as many entries as there are slots. */
  lemma {:induction false} FullTable<E, K>(s: seq<Option<E>>, key: E -> K, m: map<K, E>, n: nat) returns (ks: set<K>)
    requires Holds(s, key, m)
    requires n <= |s| && forall i :: 0 <= i < n ==> s[i].Some?
    ensures ks <= m.Keys && |ks| == n
    ensures forall k :: k in ks ==> exists i :: 0 <= i < n && key(s[i].value) == k
  {
    if n == 0 {
      ks := {};
    } else {
      var rest := FullTable(s, key, m, n - 1);
      ks := rest + {key(s[n - 1].value)};
    }
  }

  lemma SubsetSize<T>(a: set<T>, b: set<T>)
    requires a <= b
    ensures |a| <= |b|
  {
    assert |b| == |a| + |b - a| by { assert b == a + (b - a); }
  }

  /** Probing past every slot is possible only in a full table. */
  lemma PassedAll<E, K>(s: seq<Option<E>>, key: E -> K, hash: K -> uint32, m: map<K, E>, k: K)
    requires Represents(s, key, hash, m) && Passed(s, key, hash, k, |s|)
    ensures k !in m && |s| <= |m|
  {
    var home := Home(hash, k, |s|);
    forall i | 0 <= i < |s| ensures s[i].Some? && key(s[i].value) != k {
      assert At(home, Dist(home, i, |s|), |s|) == i;
    }
    var ks := FullTable(s, key, m, |s|);
    SubsetSize(ks, m.Keys);
  }

  /** In a table that is not full, or that holds k, the probe can take one more step. */
  lemma PassOne<E, K>(s: seq<Option<E>>, key: E -> K, hash: K -> uint32, m: map<K, E>, k: K, d: nat)
    requires Represents(s, key, hash, m) && (|m| < |s| || k in m) && d < |s| && Passed(s, key, hash, k, d)
    requires var slot := s[At(Home(hash, k, |s|), d, |s|)]; slot.Some? && key(slot.value) != k
    ensures d + 1 < |s| && Passed(s, key, hash, k, d + 1)
  {
    assert Passed(s, key, hash, k, d + 1);
    if d + 1 == |s| {
      PassedAll(s, key, hash, m, k);
    }
  }

  /** An empty slot at the end of the passed part of k's probe path shows that k is absent. */
  lemma StoppedAtEmpty<E, K>(s: seq<Option<E>>, key: E -> K, hash: K -> uint32, m: map<K, E>, k: K, d: nat)
    requires Represents(s, key, hash, m) && d < |s| && Passed(s, key, hash, k, d)
    requires s[At(Home(hash, k, |s|), d, |s|)].None?
    ensures k !in m
  {
    forall i | 0 <= i < |s| && s[i].Some? ensures key(s[i].value) != k {
      var di := Dist(Home(hash, key(s[i].value), |s|), i, |s|);
      assert At(Home(hash, key(s[i].value), |s|), di, |s|) == i;
    }
  }

  /** Storing an entry where its probe path stops adds it to the represented map, or replaces it there. */
  lemma StoreAtStop<E, K>(s: seq<Option<E>>, key: E -> K, hash: K -> uint32, m: map<K, E>, e: E, d: nat)
    requires Represents(s, key, hash, m) && d < |s| && Passed(s, key, hash, key(e), d)
    requires var slot := s[At(Home(hash, key(e), |s|), d, |s|)]; slot.Some? ==> key(slot.value) == key(e)
    ensures Represents(s[At(Home(hash, key(e), |s|), d, |s|) := Some(e)], key, hash, m[key(e) := e])
    ensures s[At(Home(hash, key(e), |s|), d, |s|)].Some? <==> key(e) in m
  {
    var home := Home(hash, key(e), |s|);
    var idx := At(home, d, |s|);
    var t := s[idx := Some(e)];
    var m' := m[key(e) := e];
    if s[idx].None? {
      StoppedAtEmpty(s, key, hash, m, key(e), d);
    }
    assert Dist(home, idx, |s|) == d;
    forall k | k in m' ensures key(m'[k]) == k && Some(m'[k]) in t {
      if k == key(e) {
        assert t[idx] == Some(e);
      } else {
        var i :| 0 <= i < |s| && s[i] == Some(m[k]);
        assert t[i] == s[i];
      }
    }
    assert Holds(t, key, m');
    assert Probed(t, key, hash);
  }

  lemma FillRatio(count: nat, capacity: nat)
    requires 0 < capacity
    ensures count * 16 / capacity >= 10 <==> count * 16 >= 10 * capacity
  {}

  // ----- The entries in slot order -----

  /** The entries held by the slots, in slot order: what the iterator delivers. */
  ghost function Entries<E>(s: seq<Option<E>>): seq<E> {
    if s == [] then [] else (if s[0].Some? then [s[0].value] else []) + Entries(s[1..])
  }

  lemma EntriesStep<E>(s: seq<Option<E>>, i: nat)
    requires i <= |s|
    ensures Entries(s[i..]) ==
      if i == |s| then [] else (if s[i].Some? then [s[i].value] else []) + Entries(s[i + 1..])
  {
    assert i < |s| ==> s[i..][1..] == s[i + 1..];
  }

  lemma {:induction false} EntriesAt<E>(s: seq<Option<E>>, e: E)
    ensures e in Entries(s) <==> Some(e) in s
  {
    if s != [] {
      EntriesAt(s[1..], e);
      assert s == [s[0]] + s[1..];
    }
  }

  lemma {:induction false} EntriesDistinct<E, K>(s: seq<Option<E>>, key: E -> K)
    requires forall i, j :: 0 <= i < j < |s| && s[i].Some? && s[j].Some? ==> key(s[i].value) != key(s[j].value)
    ensures forall i, j :: 0 <= i < j < |Entries(s)| ==> key(Entries(s)[i]) != key(Entries(s)[j])
  {
    if s != [] {
      var rest := s[1..];
      EntriesDistinct(rest, key);
      forall j | 0 <= j < |Entries(rest)| && s[0].Some? ensures key(s[0].value) != key(Entries(rest)[j]) {
        EntriesAt(rest, Entries(rest)[j]);
        var p :| 0 <= p < |rest| && rest[p] == Some(Entries(rest)[j]);
        assert s[p + 1] == rest[p];
      }
    }
  }

  lemma {:induction false} DistinctKeys<E, K>(es: seq<E>, key: E -> K)
    requires forall i, j :: 0 <= i < j < |es| ==> key(es[i]) != key(es[j])
    ensures |set e | e in es :: key(e)| == |es|
  {
    if es != [] {
      var init, last := es[..|es| - 1], es[|es| - 1];
      DistinctKeys(init, key);
      assert es == init + [last];
      assert (set e | e in es :: key(e)) == (set e | e in init :: key(e)) + {key(last)};
    }
  }

  lemma CountDistinct<E, K>(es: seq<E>, key: E -> K, m: map<K, E>)
    requires forall i, j :: 0 <= i < j < |es| ==> key(es[i]) != key(es[j])
    requires forall e :: e in es ==> key(e) in m
    requires forall k :: k in m ==> m[k] in es && key(m[k]) == k
    ensures |es| == |m|
  {
    DistinctKeys(es, key);
    var keys := set e | e in es :: key(e);
    forall k | k in m ensures k in keys {
      assert m[k] in es;
    }
    assert keys == m.Keys;
  }

  /** Iterating over a table delivers each entry of its map exactly once. */
  lemma EntriesEnumerate<E, K>(s: seq<Option<E>>, key: E -> K, m: map<K, E>)
    requires Holds(s, key, m)
    ensures |Entries(s)| == |m|
    ensures forall i, j :: 0 <= i < j < |Entries(s)| ==> key(Entries(s)[i]) != key(Entries(s)[j])
    ensures forall e :: e in Entries(s) <==> key(e) in m && m[key(e)] == e
  {
    var es := Entries(s);
    EntriesDistinct(s, key);
    forall e ensures e in es <==> Some(e) in s {
      EntriesAt(s, e);
    }
    forall e | e in es ensures key(e) in m && m[key(e)] == e {
      EntriesAt(s, e);
      assert Some(e) in s;
    }
    CountDistinct(es, key, m);
  }

  // ----- The table -----

  class Hashtable<E, K(==)> {
    ghost var M: map<K, E>          // the finite map the table stands for
    ghost var Order: seq<E>         // its entries in slot order
    ghost var Repr: set<object>

    const key: E -> K               // two entries are equal iff their keys are
    const hash: K -> uint32
    var entries: array?<Option<E>>  // allocated by the first put
    var capacity: nat
    var entry_count: nat

    ghost predicate Valid()
      reads this, Repr
      ensures Valid() ==> this in Repr
    {
      && this in Repr
      && 0 < capacity <= INT_MAX
      && entry_count == |M|
      && entry_count <= capacity
      && (entries == null ==> M == map[] && Order == [])
      && (entries != null ==>
        && entries in Repr
        && entries.Length == capacity
        && Represents(entries[..], key, hash, M)
        && Order == Entries(entries[..]))
    }

    /** The fill ratio has reached 62.5%. */
    predicate NeedsRehash()
      reads this
    {
      entry_count * 16 >= 10 * capacity
    }

    /** No `int` computed by a put overflows. */
    predicate RoomToGrow()
      reads this
    {
      entry_count * 16 <= INT_MAX && (NeedsRehash() ==> 2 * capacity <= INT_MAX)
    }

    constructor (capacity: nat, key: E -> K, hash: K -> uint32)
      requires 0 < capacity <= INT_MAX
      ensures Valid() && fresh(Repr)
      ensures M == map[] && this.capacity == capacity && this.key == key && this.hash == hash
    {
      this.capacity, this.key, this.hash := capacity, key, hash;
      entry_count, entries := 0, null;
      M, Order, Repr := map[], [], {this};
    }

    method AllocMap()
      requires Valid() && entries == null
      modifies this
      ensures Valid() && fresh(Repr - old(Repr)) && entries != null
      ensures M == old(M) && entry_count == old(entry_count) && capacity == old(capacity)
    {
      entries := new Option<E>[capacity](_ => None);
      Repr := Repr + {entries};
      AllEmpty(entries[..]);
    }

    method Put(e: E)
      requires Valid() && RoomToGrow()
      modifies Repr
      ensures Valid() && fresh(Repr - old(Repr))
      ensures M == old(M)[key(e) := e]
      ensures capacity == if old(NeedsRehash()) then 2 * old(capacity) else old(capacity)
      ensures capacity == old(capacity) || capacity <= 4 * |M|
    {
      ghost var before := M;
      if entries == null {
        AllocMap();
      }
      assert entry_count * 16 <= INT_MAX;
      FillRatio(entry_count, capacity);
      if entry_count * 16 / capacity >= 10 {
        Rehash();
      }
      Store(e);
      SubsetSize(before.Keys, M.Keys);
    }

    /** Stores e where its probe path stops; also what writing through a found entry amounts to. */
    method Store(e: E)
      requires Valid() && entries != null && (entry_count < capacity || key(e) in M)
      modifies this, entries
      ensures Valid() && Repr == old(Repr)
      ensures M == old(M)[key(e) := e] && capacity == old(capacity)
    {
      hide Entries, Represents, Passed;
      var idx, d := Probe(e);
      ghost var s := entries[..];
      StoreAtStop(s, key, hash, M, e, d);
      if entries[idx].None? {
        entry_count := entry_count + 1;
      }
      entries[idx] := Some(e);
      assert entries[..] == s[idx := Some(e)];
      M, Order := M[key(e) := e], Entries(entries[..]);
    }

    /** The slot where the probe path of e stops, d steps from home: empty, or with the key of e. */
    method Probe(e: E) returns (idx: nat, ghost d: nat)
      requires Valid() && entries != null && (entry_count < capacity || key(e) in M)
      ensures d < capacity && idx < capacity
      ensures idx == At(Home(hash, key(e), capacity), d, capacity)
      ensures Passed(entries[..], key, hash, key(e), d)
      ensures entries[idx].Some? ==> key(entries[idx].value) == key(e) && key(e) in M
    {
      ghost var s := entries[..];
      idx, d := hash(key(e)) as int % capacity, 0;
      while entries[idx].Some? && key(entries[idx].value) != key(e)
        invariant d < |s|
        invariant idx == At(Home(hash, key(e), |s|), d, |s|)
        invariant Passed(s, key, hash, key(e), d)
        decreases |s| - d
      {
        assert s[idx] == entries[idx];
        PassOne(s, key, hash, M, key(e), d);
        idx, d := if idx + 1 >= capacity then 0 else idx + 1, d + 1;
      }
      assert s[idx] == entries[idx];
    }

    /** Doubles the table and moves every entry over. */
    method Rehash()
      requires Valid() && entries != null && 2 * capacity <= INT_MAX
      modifies Repr
      ensures Valid() && fresh(Repr - old(Repr)) && entries != null
      ensures M == old(M) && entry_count == old(entry_count)
      ensures capacity == 2 * old(capacity)
    {
      var tab := new Option<E>[capacity * 2](_ => None);
      CopyOld(entries, tab, M);
      capacity := capacity * 2;
      entries := tab;
      Repr := Repr + {tab};
      Order := Entries(tab[..]);
    }

    /** Moves the entries of the old table into the empty new one. */
    method CopyOld(oldtab: array<Option<E>>, tab: array<Option<E>>, ghost m: map<K, E>)
      requires tab != oldtab && Holds(oldtab[..], key, m) && |m| < tab.Length
      requires forall i :: 0 <= i < tab.Length ==> tab[i].None?
      modifies tab
      ensures Represents(tab[..], key, hash, m)
    {
      ghost var from := oldtab[..];
      ghost var moved: map<K, E> := map[];
      assert Represents(tab[..], key, hash, moved) && MovedUpTo(from, key, m, moved, 0);
      hide Represents, StandsIn, MovedUpTo;
      for i := 0 to oldtab.Length
        invariant oldtab[..] == from
        invariant Represents(tab[..], key, hash, moved)
        invariant MovedUpTo(from, key, m, moved, i)
      {
        var slot := oldtab[i];
        assert from[i] == slot;
        if slot.Some? {
          MoveOne(from, key, m, moved, i);
          Place(tab, slot.value, moved);
          moved := moved[key(slot.value) := slot.value];
        } else {
          EmptySlot(from, key, m, moved, i);
        }
      }
      AllMoved(from, key, m, moved);
    }

    /** Puts an entry with a new key into the first empty slot on its probe path. */
    method Place(tab: array<Option<E>>, e: E, ghost m: map<K, E>)
      requires Represents(tab[..], key, hash, m) && key(e) !in m && |m| < tab.Length
      modifies tab
      ensures Represents(tab[..], key, hash, m[key(e) := e])
    {
      ghost var s := tab[..];
      var idx := hash(key(e)) as int % tab.Length;
      ghost var d: nat := 0;
      while tab[idx].Some?
        invariant d < |s|
        invariant idx == At(Home(hash, key(e), |s|), d, |s|)
        invariant tab[..] == s
        invariant Passed(s, key, hash, key(e), d)
        decreases |s| - d
      {
        assert s[idx] == tab[idx];
        PassOne(s, key, hash, m, key(e), d);
        idx, d := if idx + 1 >= tab.Length then 0 else idx + 1, d + 1;
      }
      assert s[idx] == tab[idx];
      StoreAtStop(s, key, hash, m, e, d);
      tab[idx] := Some(e);
      assert tab[..] == s[idx := Some(e)];
    }

    /** The entry with key k, if there is one; ends on every table, a full one too. */
    method Get(k: K) returns (r: Option<E>)
      requires Valid()
      ensures r == if k in M then Some(M[k]) else None
    {
      if entries == null {
        return None;
      }
      ghost var s := entries[..];
      var idx := hash(k) as int % capacity;
      var cnt := 0;
      while entries[idx].Some? && key(entries[idx].value) != k
        invariant cnt < capacity
        invariant idx == At(Home(hash, k, capacity), cnt, capacity)
        invariant Passed(s, key, hash, k, cnt)
        decreases capacity - cnt
      {
        assert s[idx] == entries[idx];
        assert Passed(s, key, hash, k, cnt + 1);
        idx := idx + 1;
        if idx >= capacity {
          idx := 0;
        }
        cnt := cnt + 1;
        if cnt >= capacity {
          PassedAll(s, key, hash, M, k);
          return None;
        }
      }
      assert s[idx] == entries[idx];
      if entries[idx].None? {
        StoppedAtEmpty(s, key, hash, M, k, cnt);
      }
      return entries[idx];
    }

    lemma OrderEnumerates()
      requires Valid()
      ensures |Order| == |M|
      ensures forall e :: e in Order <==> key(e) in M && M[key(e)] == e
    {
      if entries != null {
        EntriesEnumerate(entries[..], key, M);
      }
    }

    method Size() returns (n: nat)
      requires Valid()
      ensures n == |M|
    {
      n := entry_count;
    }

    method Clear()
      requires Valid()
      modifies this
      ensures Valid() && Repr == old(Repr)
      ensures M == map[] && capacity == old(capacity)
    {
      entries := null;
      entry_count := 0;
      M, Order := map[], [];
    }
  }

  /** A table below 2^27 slots never overflows: it has no more entries than slots. */
  lemma SmallTableHasRoom<E, K>(t: Hashtable<E, K>)
    requires t.Valid() && t.capacity < 0x800_0000
    ensures t.RoomToGrow()
  {
  }

  // ----- What a rehash has moved so far -----

  ghost predicate StandsIn<E>(s: seq<Option<E>>, n: nat, e: E)
    requires n <= |s|
  {
    Some(e) in s[..n]
  }

  /** moved is the part of m whose entries stand in the first n slots. */
  ghost predicate MovedUpTo<E, K>(s: seq<Option<E>>, key: E -> K, m: map<K, E>, moved: map<K, E>, n: nat)
    requires n <= |s|
  {
    && (forall k :: k in moved ==> k in m && moved[k] == m[k] && StandsIn(s, n, m[k]))
    && (forall i :: 0 <= i < n && s[i].Some? ==> key(s[i].value) in moved)
  }

  lemma MoveOne<E, K>(s: seq<Option<E>>, key: E -> K, m: map<K, E>, moved: map<K, E>, n: nat)
    requires n < |s| && s[n].Some? && Holds(s, key, m) && MovedUpTo(s, key, m, moved, n)
    ensures key(s[n].value) !in moved
    ensures |moved| <= |m|
    ensures MovedUpTo(s, key, m, moved[key(s[n].value) := s[n].value], n + 1)
  {
    SubsetSize(moved.Keys, m.Keys);
    NotMovedYet(s, key, m, moved, n);
    hide Holds;
    MovedToo(s, key, m, moved, n);
    hide MovedUpTo;
  }

  lemma MovedToo<E, K>(s: seq<Option<E>>, key: E -> K, m: map<K, E>, moved: map<K, E>, n: nat)
    requires n < |s| && s[n].Some? && MovedUpTo(s, key, m, moved, n)
    requires var k := key(s[n].value); k !in moved && k in m && m[k] == s[n].value
    ensures MovedUpTo(s, key, m, moved[key(s[n].value) := s[n].value], n + 1)
  {
    StandLater(s, n);
    hide StandsIn;
  }

  lemma EmptySlot<E, K>(s: seq<Option<E>>, key: E -> K, m: map<K, E>, moved: map<K, E>, n: nat)
    requires n < |s| && s[n].None? && MovedUpTo(s, key, m, moved, n)
    ensures MovedUpTo(s, key, m, moved, n + 1)
  {
    StandLater(s, n);
    hide StandsIn;
  }

  lemma StandLater<E>(s: seq<Option<E>>, n: nat)
    requires n < |s|
    ensures forall e :: StandsIn(s, n, e) ==> StandsIn(s, n + 1, e)
    ensures s[n].Some? ==> StandsIn(s, n + 1, s[n].value)
  {
    assert s[..n + 1] == s[..n] + [s[n]];
  }

  lemma NotMovedYet<E, K>(s: seq<Option<E>>, key: E -> K, m: map<K, E>, moved: map<K, E>, n: nat)
    requires n < |s| && s[n].Some? && Holds(s, key, m) && MovedUpTo(s, key, m, moved, n)
    ensures var k := key(s[n].value); k !in moved && k in m && m[k] == s[n].value
  {}

  lemma AllMoved<E, K>(s: seq<Option<E>>, key: E -> K, m: map<K, E>, moved: map<K, E>)
    requires Holds(s, key, m) && MovedUpTo(s, key, m, moved, |s|)
    ensures moved == m
  {
    forall k | k in m ensures k in moved {
      var i :| 0 <= i < |s| && s[i] == Some(m[k]);
      assert s[i].Some? && key(s[i].value) == k;
    }
    assert moved.Keys == m.Keys;
  }

  // ----- The iterator -----

  class HashtableIter<E, K(==)> {
    const hp: Hashtable<E, K>
    var pos: nat

    ghost var Rest: seq<E>  // the entries not yet delivered

    ghost predicate Valid()
      reads this, hp, hp.Repr
    {
      && hp.Valid() && pos <= hp.capacity
      && Rest == if hp.entries == null then [] else Entries(hp.entries[pos..])
    }

    constructor (hp: Hashtable<E, K>)
      requires hp.Valid()
      ensures Valid() && this.hp == hp && Rest == hp.Order
    {
      this.hp, pos, Rest := hp, 0, hp.Order;
      new;
      assert hp.entries != null ==> hp.entries[0..] == hp.entries[..];
    }

    method Next() returns (r: Option<E>)
      requires Valid() && this !in hp.Repr
      modifies this
      ensures Valid()
      ensures old(Rest) == [] ==> r == None && Rest == []
      ensures old(Rest) != [] ==> r == Some(old(Rest)[0]) && Rest == old(Rest)[1..]
    {
      hide Represents;
      if hp.entry_count == 0 {
        NoEntries(hp);
        return None;
      }
      SkipEmpty();
      if pos >= hp.capacity {
        return None;
      }
      r := Take();
    }

    method Take() returns (r: Option<E>)
      requires Valid() && this !in hp.Repr && hp.entries != null && pos < hp.capacity && hp.entries[pos].Some?
      modifies this
      ensures Valid() && old(Rest) != [] && r == Some(old(Rest)[0]) && Rest == old(Rest)[1..]
    {
      hide Represents;
      ghost var rest := hp.entries[pos..];
      assert rest[1..] == hp.entries[pos + 1..];
      r := hp.entries[pos];
      pos, Rest := pos + 1, Rest[1..];
    }

    /** Moves to the next slot that is taken, or past the last slot. */
    method SkipEmpty()
      requires Valid() && this !in hp.Repr && hp.entries != null
      modifies this`pos
      ensures Valid() && (pos < hp.capacity ==> hp.entries[pos].Some?)
      ensures pos == hp.capacity ==> Rest == []
    {
      hide Represents, Entries;
      ghost var s := hp.entries[..];
      EntriesStep(s, |s|);
      assert hp.entries[pos..] == s[pos..];
      while pos < hp.capacity && hp.entries[pos].None?
        invariant pos <= hp.capacity && Entries(s[pos..]) == Rest
        decreases hp.capacity - pos
      {
        EntriesStep(s, pos);
        pos := pos + 1;
      }
      assert hp.entries[pos..] == s[pos..];
    }

    /** A table with no entries has only empty slots. */
    lemma NoEntries(hp: Hashtable<E, K>)
      requires hp.Valid() && hp.entry_count == 0
      ensures hp.entries != null ==> forall p :: 0 <= p <= hp.entries.Length ==> Entries(hp.entries[p..]) == []
    {
      if hp.entries != null {
        forall i | 0 <= i < hp.entries.Length ensures hp.entries[i].None? {
          assert hp.entries[..][i] == hp.entries[i];
        }
        forall p | 0 <= p <= hp.entries.Length ensures Entries(hp.entries[p..]) == [] {
          AllEmpty(hp.entries[p..]);
        }
      }
    }
  }

  lemma {:induction false} AllEmpty<E>(s: seq<Option<E>>)
    requires forall i :: 0 <= i < |s| ==> s[i].None?
    ensures Entries(s) == []
  {
    if s != [] {
      AllEmpty(s[1..]);
    }
  }
}
