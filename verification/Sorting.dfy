/** Sorting the elements of a hash set, as the source does by collecting and sorting a vector. */
module Sorting {

  ghost predicate Ascending(ids: seq<nat>) {
    forall i, j :: 0 <= i < j < |ids| ==> ids[i] < ids[j]
  }

  ghost predicate SortedByKey(r: seq<nat>, key: nat -> nat) {
    forall i, j :: 0 <= i < j < |r| ==> key(r[i]) <= key(r[j]) && r[i] != r[j]
  }

  lemma {:induction false} LeastExists(s: set<nat>, key: nat -> nat)
    requires s != {}
    ensures exists m :: m in s && forall x :: x in s ==> key(m) <= key(x)
    decreases s
  {
    var x :| x in s;
    var rest := s - {x};
    assert forall y :: y in s ==> y == x || y in rest;
    if rest == {} {
      assert forall y :: y in s ==> key(x) <= key(y);
    } else {
      LeastExists(rest, key);
      var m :| m in rest && forall y :: y in rest ==> key(m) <= key(y);
      var least := if key(x) <= key(m) then x else m;
      assert least in s && forall y :: y in s ==> key(least) <= key(y);
    }
  }

  method SortByKey(ids: set<nat>, key: nat -> nat) returns (r: seq<nat>)
    ensures SortedByKey(r, key)
    ensures forall x :: x in r <==> x in ids
  {
    r := [];
    var rest := ids;
    while rest != {}
      invariant SortedByKey(r, key) && rest <= ids
      invariant forall x :: x in r <==> x in ids && x !in rest
      invariant forall i, y :: 0 <= i < |r| && y in rest ==> key(r[i]) <= key(y)
      decreases rest
    {
      LeastExists(rest, key);
      var m :| m in rest && forall x :: x in rest ==> key(m) <= key(x);
      assert forall i :: 0 <= i < |r| ==> r[i] in r;
      r := r + [m];
      rest := rest - {m};
    }
  }

  method SortedIds(ids: set<nat>) returns (r: seq<nat>)
    ensures Ascending(r)
    ensures forall x :: x in r <==> x in ids
  {
    r := SortByKey(ids, x => x);
  }

  ghost predicate StrictByKey(r: seq<nat>, key: nat -> nat) {
    forall i, j :: 0 <= i < j < |r| ==> key(r[i]) < key(r[j])
  }

  /** There is only one way to list a set of numbers by strictly growing keys. */
  lemma {:induction false} SortIsUnique(a: seq<nat>, b: seq<nat>, key: nat -> nat)
    requires StrictByKey(a, key) && StrictByKey(b, key)
    requires forall x :: x in a <==> x in b
    ensures a == b
  {
    if a == [] {
      EmptyIffNoMembers(a);
      EmptyIffNoMembers(b);
    } else {
      HeadsAgree(a, b, key);
      forall x ensures x in a[1..] <==> x in b[1..] {
        TailMembers(a, x, key);
        TailMembers(b, x, key);
      }
      SortIsUnique(a[1..], b[1..], key);
      assert a == [a[0]] + a[1..] && b == [b[0]] + b[1..];
    }
  }

  lemma HeadsAgree(a: seq<nat>, b: seq<nat>, key: nat -> nat)
    requires StrictByKey(a, key) && StrictByKey(b, key) && a != []
    requires forall x :: x in a <==> x in b
    ensures b != [] && a[0] == b[0]
  {
    assert a[0] in b;
    assert b[0] in a;
    var i :| 0 <= i < |a| && a[i] == b[0];
    var j :| 0 <= j < |b| && b[j] == a[0];
    assert key(a[0]) <= key(a[i]) && key(b[0]) <= key(b[j]);
  }

  lemma EmptyIffNoMembers(s: seq<nat>)
    ensures s == [] <==> forall x :: x !in s
  {
    if s != [] { assert s[0] in s; }
  }

  lemma TailMembers(s: seq<nat>, x: nat, key: nat -> nat)
    requires s != [] && StrictByKey(s, key)
    ensures x in s[1..] <==> x in s && x != s[0]
  {
  }
}
