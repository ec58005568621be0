/** Lists as the sets of what they contain: when a list without repetition is covered by another. */
module Lists {

  function SetOf<T>(s: seq<T>): set<T> {
    set x | x in s
  }

  ghost predicate Unrepeated<T>(s: seq<T>) {
    forall i, j :: 0 <= i < j < |s| ==> s[i] != s[j]
  }

  lemma SubsetOfEqualSize<T>(a: set<T>, b: set<T>)
    requires a <= b
    ensures |a| <= |b| && (|a| == |b| ==> a == b)
  {
    assert b == a + (b - a);
    assert |b| == |a| + |b - a|;
  }

  /** There are as many members as places iff nothing is repeated. */
  lemma {:induction false} UnrepeatedBySize<T>(s: seq<T>)
    ensures |SetOf(s)| <= |s|
    ensures Unrepeated(s) <==> |SetOf(s)| == |s|
  {
    if s != [] {
      var init, last := s[..|s| - 1], s[|s| - 1];
      UnrepeatedBySize(init);
      assert SetOf(s) == SetOf(init) + {last} by { assert s == init + [last]; }
      assert Unrepeated(s) <==> Unrepeated(init) && last !in init;
    }
  }

  /** A list without repetition that is covered by another list of the same length covers it. */
  lemma CoveredBack<T>(s: seq<T>, t: seq<T>)
    requires |s| == |t| && Unrepeated(s) && SetOf(s) <= SetOf(t)
    ensures SetOf(t) <= SetOf(s)
  {
    UnrepeatedBySize(s);
    UnrepeatedBySize(t);
    SubsetOfEqualSize(SetOf(s), SetOf(t));
  }

  /** If a list repeats something, a new member can take the place of a repetition, and the list is still covered. */
  lemma CoveredStill<T>(s: seq<T>, x: T) returns (j: nat)
    requires !Unrepeated(s) && x !in s
    ensures j < |s| && SetOf(s) <= SetOf(s[j := x]) && !(SetOf(s[j := x]) <= SetOf(s))
  {
    var i: nat, k: nat :| i < k < |s| && s[i] == s[k];
    j := k;
    forall y | y in s ensures y in s[j := x] {
      var l :| 0 <= l < |s| && s[l] == y;
      assert s[j := x][if l == j then i else l] == y;
    }
    assert s[j := x][j] == x;
    assert x in SetOf(s[j := x]) && x !in SetOf(s);
  }
}
