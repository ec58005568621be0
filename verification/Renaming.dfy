/** Attribute renamings: RENAME { from AS to, ... }. */
module Renamings {
  import opened ByteStrings

  datatype Renaming = Renaming(from: Name, to: Name)

  /** The name an attribute has after the renaming; the first entry that matches decides. */
  function NewName(renv: seq<Renaming>, name: Name): Name {
    if renv == [] then name
    else if renv[0].from == name then renv[0].to
    else NewName(renv[1..], name)
  }

  /** The index of the first entry that renames name, or -1. */
  method FindRenameFrom(renv: seq<Renaming>, name: Name) returns (i: int)
    ensures -1 <= i < |renv|
    ensures 0 <= i ==> renv[i].from == name && renv[i].to == NewName(renv, name)
    ensures i == -1 ==> NewName(renv, name) == name && forall j :: 0 <= j < |renv| ==> renv[j].from != name
  {
    i := 0;
    while i < |renv| && renv[i].from != name
      invariant 0 <= i <= |renv|
      invariant forall j :: 0 <= j < i ==> renv[j].from != name
      invariant NewName(renv[i..], name) == NewName(renv, name)
    {
      assert renv[i..][1..] == renv[i + 1..];
      i := i + 1;
    }
    if i >= |renv| {
      assert renv[i..] == [];
      return -1;
    }
  }

  function Inverse(renv: seq<Renaming>): (inv: seq<Renaming>)
    ensures |inv| == |renv| && forall i :: 0 <= i < |renv| ==> inv[i] == Renaming(renv[i].to, renv[i].from)
  {
    if renv == [] then [] else [Renaming(renv[0].to, renv[0].from)] + Inverse(renv[1..])
  }

  /** What the type-level RENAME demands of its arguments, for a tuple type with these attribute names. */
  ghost predicate Accepted(names: set<Name>, renv: seq<Renaming>) {
    && (forall i :: 0 <= i < |renv| ==> renv[i].from in names && renv[i].to !in names)
    && (forall i, j :: 0 <= i < j < |renv| ==> renv[i].from != renv[j].from && renv[i].to != renv[j].to)
  }

  /** No two of the attributes get the same new name. */
  ghost predicate KeepsApart(names: set<Name>, renv: seq<Renaming>) {
    forall n, n' :: n in names && n' in names && NewName(renv, n) == NewName(renv, n') ==> n == n'
  }

  /** r holds each attribute of m under its new name, over what dst held. */
  ghost predicate IsRenamed<V>(m: map<Name, V>, renv: seq<Renaming>, dst: map<Name, V>, r: map<Name, V>) {
    && (forall n :: n in m ==> NewName(renv, n) in r && r[NewName(renv, n)] == m[n])
    && (forall n' :: n' in r ==> (exists n :: n in m && NewName(renv, n) == n') || (n' in dst && r[n'] == dst[n']))
    && dst.Keys <= r.Keys
  }

  lemma {:induction false} NewNameIs(renv: seq<Renaming>, name: Name)
    ensures (exists i :: 0 <= i < |renv| && renv[i].from == name && renv[i].to == NewName(renv, name)) ||
            (NewName(renv, name) == name && forall i :: 0 <= i < |renv| ==> renv[i].from != name)
  {
    if renv != [] && renv[0].from != name {
      NewNameIs(renv[1..], name);
      if i :| 0 <= i < |renv| - 1 && renv[1..][i].from == name && renv[1..][i].to == NewName(renv[1..], name) {
        assert renv[i + 1].from == name;
      } else {
        forall i | 0 <= i < |renv| ensures renv[i].from != name {
          if i > 0 {
            assert renv[i] == renv[1..][i - 1];
          }
        }
      }
    }
  }

  /** Where the entries' sources are distinct, each entry decides the new name of its source. */
  lemma NewNameAt(renv: seq<Renaming>, i: nat)
    requires i < |renv| && forall a, b :: 0 <= a < b < |renv| ==> renv[a].from != renv[b].from
    ensures NewName(renv, renv[i].from) == renv[i].to
  {
    NewNameIs(renv, renv[i].from);
  }

  /** An accepted renaming keeps different attributes apart, and its inverse undoes it. */
  lemma RenamingInvertible(names: set<Name>, renv: seq<Renaming>)
    requires Accepted(names, renv)
    ensures forall n :: n in names ==> NewName(Inverse(renv), NewName(renv, n)) == n
    ensures KeepsApart(names, renv)
    ensures Accepted(set n | n in names :: NewName(renv, n), Inverse(renv))
  {
    var inv := Inverse(renv);
    forall n | n in names ensures NewName(inv, NewName(renv, n)) == n {
      NewNameIs(renv, n);
      NewNameIs(inv, NewName(renv, n));
      if i :| 0 <= i < |renv| && renv[i].from == n && renv[i].to == NewName(renv, n) {
        NewNameAt(inv, i);
      }
    }
    var renamed := set n | n in names :: NewName(renv, n);
    forall i | 0 <= i < |renv| ensures inv[i].from in renamed && inv[i].to !in renamed {
      NewNameAt(renv, i);
      if inv[i].to in renamed {
        var n :| n in names && NewName(renv, n) == renv[i].from;
        NewNameIs(renv, n);
      }
    }
  }
}
