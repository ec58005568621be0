/** C strings and FoundationDB keys: sequences of bytes under the order of `strcmp` and `memcmp`. */
module ByteStrings {

  newtype byte = x: int | 0 <= x < 256

  type Bytes = seq<byte>

  /** Attribute names, type names and variable names are C strings. */
  type Name = Bytes

  /** The strict order decided by the first differing byte; a proper prefix comes first. */
  predicate Less(a: Bytes, b: Bytes) {
    b != [] && (a == [] || a[0] < b[0] || (a[0] == b[0] && Less(a[1..], b[1..])))
  }

  predicate AtMost(a: Bytes, b: Bytes) {
    a == b || Less(a, b)
  }

  lemma {:induction false} LessIrreflexive(a: Bytes)
    ensures !Less(a, a)
  {
    if a != [] {
      LessIrreflexive(a[1..]);
    }
  }

  lemma {:induction false} LessTransitive(a: Bytes, b: Bytes, c: Bytes)
    requires Less(a, b) && Less(b, c)
    ensures Less(a, c)
  {
    if a != [] && a[0] == b[0] == c[0] {
      LessTransitive(a[1..], b[1..], c[1..]);
    }
  }

  lemma {:induction false} LessTotal(a: Bytes, b: Bytes)
    ensures Less(a, b) || a == b || Less(b, a)
  {
    if a != [] && b != [] && a[0] == b[0] {
      LessTotal(a[1..], b[1..]);
      assert a == [a[0]] + a[1..] && b == [b[0]] + b[1..];
    }
  }

  lemma LessAsymmetric(a: Bytes, b: Bytes)
    requires Less(a, b)
    ensures !Less(b, a) && a != b
  {
    LessIrreflexive(a);
    if Less(b, a) {
      LessTransitive(a, b, a);
    }
  }

  lemma AtMostTransitive(a: Bytes, b: Bytes, c: Bytes)
    requires AtMost(a, b) && AtMost(b, c)
    ensures AtMost(a, c)
  {
    if a != b && b != c {
      LessTransitive(a, b, c);
    }
  }

  // ----- Sets in order -----

  ghost predicate IsLeast(m: Bytes, s: set<Bytes>) {
    m in s && forall k :: k in s ==> AtMost(m, k)
  }

  /** The smallest element of a non-empty set. */
  ghost function Least(s: set<Bytes>): (m: Bytes)
    requires s != {}
    ensures IsLeast(m, s)
    decreases |s|
  {
    var x :| x in s;
    if s == {x} then x
    else
      var n := Least(s - {x});
      LessTotal(n, x);
      LeastOfBoth(x, n, s);
      if Less(n, x) then n else x
  }

  lemma LeastOfBoth(x: Bytes, n: Bytes, s: set<Bytes>)
    requires x in s && IsLeast(n, s - {x})
    ensures if Less(n, x) then IsLeast(n, s) else IsLeast(x, s)
  {
    LessTotal(n, x);
    if !Less(n, x) {
      forall k | k in s ensures AtMost(x, k) {
        if k != x {
          AtMostTransitive(x, n, k);
        }
      }
    }
  }

  lemma LeastUnique(m: Bytes, s: set<Bytes>)
    requires IsLeast(m, s)
    ensures m == Least(s)
  {
    if m != Least(s) {
      LessAsymmetric(m, Least(s));
    }
  }

  /** The elements of a set in increasing order. */
  ghost function Listing(s: set<Bytes>): seq<Bytes>
    decreases |s|
  {
    if s == {} then [] else [Least(s)] + Listing(s - {Least(s)})
  }

  ghost predicate Ascending(l: seq<Bytes>) {
    |l| <= 1 || (Less(l[0], l[1]) && Ascending(l[1..]))
  }

  /** A listing has each element once, in strictly increasing order. */
  lemma {:induction false} ListingMeans(s: set<Bytes>)
    ensures (forall k :: k in Listing(s) <==> k in s) && |Listing(s)| == |s| && Ascending(Listing(s))
    decreases |s|
  {
    if s != {} {
      var m, rest := Least(s), s - {Least(s)};
      ListingMeans(rest);
      assert Listing(s)[1..] == Listing(rest);
      if rest != {} {
        assert Least(rest) in s;
      }
    }
  }

  /** Dropping everything up to the smallest element drops just that element. */
  lemma RestIsLater(s: set<Bytes>, m: Bytes)
    requires IsLeast(m, s)
    ensures (set k | k in s && Less(m, k)) == s - {m}
  {
    LessIrreflexive(m);
  }

  // ----- New names -----

  lemma {:induction false} LengthBound(names: set<Name>) returns (b: nat)
    ensures forall n :: n in names ==> |n| < b
    decreases |names|
  {
    b := 0;
    if names != {} {
      var x :| x in names;
      b := LengthBound(names - {x});
      b := if |x| < b then b else |x| + 1;
    }
  }

  /** There is always another name. */
  lemma FreshName(names: set<Name>) returns (n: Name)
    ensures n !in names
  {
    var b := LengthBound(names);
    n := seq(b, i => 97);
  }
}
