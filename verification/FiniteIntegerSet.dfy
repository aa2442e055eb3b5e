/** A set of integers from 0 to a fixed maximum, one bit each. */
module FiniteIntegerSetModel {
  import opened Wrappers
  import opened BitmapSpec

  /** Bit `x % 8` of byte `x / 8`. */
  predicate Has(s: Bytes, x: nat)
    requires x < 8 * |s|
  {
    BitAt(s[x / 8], x % 8)
  }

  function Members(s: Bytes): set<nat> { set x | 0 <= x < 8 * |s| && Has(s, x) }

  /** No bit above the maximum. */
  ghost predicate InRange(s: Bytes, maxVal: nat) {
    |s| == maxVal / 8 + 1 && forall x :: maxVal < x < 8 * |s| ==> !Has(s, x)
  }

  function AndBits(a: bv8, b: bv8): bv8 { a & b }

  lemma OrAt(a: bv8, b: bv8, k: nat)
    requires k < 8
    ensures BitAt(OrBits(a, b), k) <==> BitAt(a, k) || BitAt(b, k)
  {
    MaskIsOneBit(k);
    BitOps(a, b, Mask(k));
  }

  lemma AndAt(a: bv8, b: bv8, k: nat)
    requires k < 8
    ensures BitAt(AndBits(a, b), k) <==> BitAt(a, k) && BitAt(b, k)
  {
    MaskIsOneBit(k);
    BitOps(a, b, Mask(k));
  }

  lemma ClearAt(a: bv8, b: bv8, k: nat)
    requires k < 8
    ensures BitAt(ClearBits(a, b), k) <==> BitAt(a, k) && !BitAt(b, k)
  {
    MaskIsOneBit(k);
    BitOps(a, b, Mask(k));
  }

  lemma ZeroAtBit(k: nat)
    requires k < 8
    ensures !BitAt(0, k)
  {
  }

  lemma MaskAt(i: nat, k: nat)
    requires i < 8 && k < 8
    ensures BitAt(Mask(i), k) <==> i == k
  {
    MaskIsOneBit(i);
    MaskIsOneBit(k);
    MasksDiffer(i, k);
    OneBitsMeet(Mask(i), Mask(k));
  }

  lemma OneBitsMeet(a: bv8, b: bv8)
    requires OneBit(a) && OneBit(b)
    ensures Bit(a, b) <==> a == b
  {
  }

  lemma SamePosition(x: nat, e: nat)
    requires x / 8 == e / 8
    ensures x == e <==> x % 8 == e % 8
  {
  }

  /** Setting one bit adds one element. */
  lemma BitSet(s: Bytes, e: nat, x: nat)
    requires e < 8 * |s| && x < 8 * |s|
    ensures Has(s[e / 8 := OrBits(s[e / 8], Mask(e % 8))], x) <==> x == e || Has(s, x)
  {
    if x / 8 == e / 8 {
      OrAt(s[e / 8], Mask(e % 8), x % 8);
      MaskAt(e % 8, x % 8);
      SamePosition(x, e);
    }
  }

  /** Clearing one bit removes one element. */
  lemma BitCleared(s: Bytes, e: nat, x: nat)
    requires e < 8 * |s| && x < 8 * |s|
    ensures Has(s[e / 8 := ClearBits(s[e / 8], Mask(e % 8))], x) <==> x != e && Has(s, x)
  {
    if x / 8 == e / 8 {
      ClearAt(s[e / 8], Mask(e % 8), x % 8);
      MaskAt(e % 8, x % 8);
      SamePosition(x, e);
    }
  }

  function Zip(a: Bytes, b: Bytes, f: (bv8, bv8) -> bv8): (r: Bytes)
    requires |a| == |b|
    ensures |r| == |a| && forall i :: 0 <= i < |a| ==> r[i] == f(a[i], b[i])
  {
    seq(|a|, i requires 0 <= i < |a| => f(a[i], b[i]))
  }

  lemma ZipHas(a: Bytes, b: Bytes, x: nat)
    requires |a| == |b| && x < 8 * |a|
    ensures Has(Zip(a, b, OrBits), x) <==> Has(a, x) || Has(b, x)
    ensures Has(Zip(a, b, AndBits), x) <==> Has(a, x) && Has(b, x)
    ensures Has(Zip(a, b, ClearBits), x) <==> Has(a, x) && !Has(b, x)
  {
    OrAt(a[x / 8], b[x / 8], x % 8);
    AndAt(a[x / 8], b[x / 8], x % 8);
    ClearAt(a[x / 8], b[x / 8], x % 8);
  }

  /** The byte-wise operations are the set operations. */
  lemma SetOperations(a: Bytes, b: Bytes)
    requires |a| == |b|
    ensures Members(Zip(a, b, OrBits)) == Members(a) + Members(b)
    ensures Members(Zip(a, b, AndBits)) == Members(a) * Members(b)
    ensures Members(Zip(a, b, ClearBits)) == Members(a) - Members(b)
  {
    forall x | 0 <= x < 8 * |a|
      ensures Has(Zip(a, b, OrBits), x) <==> Has(a, x) || Has(b, x)
      ensures Has(Zip(a, b, AndBits), x) <==> Has(a, x) && Has(b, x)
      ensures Has(Zip(a, b, ClearBits), x) <==> Has(a, x) && !Has(b, x)
    {
      ZipHas(a, b, x);
    }
  }

  lemma OperationsStayInRange(a: Bytes, b: Bytes, maxVal: nat)
    requires InRange(a, maxVal) && InRange(b, maxVal)
    ensures InRange(Zip(a, b, OrBits), maxVal) && InRange(Zip(a, b, AndBits), maxVal) && InRange(Zip(a, b, ClearBits), maxVal)
  {
    forall x | maxVal < x < 8 * |a|
      ensures !Has(Zip(a, b, OrBits), x) && !Has(Zip(a, b, AndBits), x) && !Has(Zip(a, b, ClearBits), x)
    {
      ZipHas(a, b, x);
    }
  }

  /** Equal bytes and equal sets are the same thing. */
  lemma BytesAreCanonical(a: Bytes, b: Bytes)
    requires |a| == |b|
    ensures a == b <==> Members(a) == Members(b)
  {
    if Members(a) == Members(b) {
      forall i | 0 <= i < |a| ensures a[i] == b[i] {
        forall k | 0 <= k < 8 ensures BitAt(a[i], k) == BitAt(b[i], k) {
          var x := 8 * i + k;
          assert x / 8 == i && x % 8 == k;
          assert Has(a, x) <==> x in Members(a);
          assert Has(b, x) <==> x in Members(b);
        }
        SameBitsAt(a[i], b[i]);
      }
    }
  }

  class FiniteIntegerSet {
    const maxVal: nat
    const data: array<bv8>

    ghost predicate Valid()
      reads data
    {
      InRange(data[..], maxVal)
    }

    ghost function Elements(): set<nat>
      reads data
    {
      Members(data[..])
    }

    constructor (n: nat)
      ensures Valid() && fresh(data) && maxVal == n && Elements() == {}
    {
      maxVal := n;
      data := new bv8[n / 8 + 1](_ => 0);
      new;
      forall x | 0 <= x < 8 * data.Length ensures !Has(data[..], x) { ZeroAtBit(x % 8); }
    }

    /** Whether the element was new; `None` is the panic on an element above the maximum. */
    method Insert(elem: nat) returns (r: Option<bool>)
      requires Valid()
      modifies data
      ensures Valid() && (r.Some? <==> elem <= maxVal)
      ensures r.Some? ==> r.value == (elem !in old(Elements())) && Elements() == old(Elements()) + {elem}
      ensures r.None? ==> Elements() == old(Elements())
    {
      if elem > maxVal {
        return None;
      }
      ghost var s := data[..];
      var i, k := elem / 8, elem % 8;
      r := Some(!BitAt(data[i], k));
      data[i] := OrBits(data[i], Mask(k));
      assert data[..] == s[i := OrBits(s[i], Mask(k))];
      forall x | 0 <= x < 8 * |s| ensures Has(data[..], x) <==> x == elem || Has(s, x) { BitSet(s, elem, x); }
      assert Has(s, elem) <==> elem in Members(s);
    }

    method Remove(elem: nat) returns (ok: bool)
      requires Valid()
      modifies data
      ensures Valid() && (ok <==> elem <= maxVal)
      ensures Elements() == if ok then old(Elements()) - {elem} else old(Elements())
    {
      if elem > maxVal {
        return false;
      }
      ghost var s := data[..];
      var i, k := elem / 8, elem % 8;
      data[i] := ClearBits(data[i], Mask(k));
      assert data[..] == s[i := ClearBits(s[i], Mask(k))];
      forall x | 0 <= x < 8 * |s| ensures Has(data[..], x) <==> x != elem && Has(s, x) { BitCleared(s, elem, x); }
      ok := true;
    }

    /** Count the set bits: the cardinality. */
    method Size() returns (size: nat)
      ensures size == |Elements()|
    {
      size := 0;
      ghost var counted: set<nat> := {};
      for i := 0 to data.Length
        invariant counted == (set x | 0 <= x < 8 * i && Has(data[..], x)) && size == |counted|
      {
        for k := 0 to 8
          invariant counted == (set x | 0 <= x < 8 * i + k && Has(data[..], x)) && size == |counted|
        {
          assert (8 * i + k) / 8 == i && (8 * i + k) % 8 == k;
          if BitAt(data[i], k) {
            assert Has(data[..], 8 * i + k);
            size := size + 1;
            counted := counted + {8 * i + k};
          }
        }
      }
    }

    /** Collect the positions of the set bits. */
    method Entries() returns (res: set<nat>)
      ensures res == Elements()
    {
      res := {};
      for i := 0 to data.Length
        invariant res == set x | 0 <= x < 8 * i && Has(data[..], x)
      {
        for k := 0 to 8
          invariant res == set x | 0 <= x < 8 * i + k && Has(data[..], x)
        {
          assert (8 * i + k) / 8 == i && (8 * i + k) % 8 == k;
          if BitAt(data[i], k) {
            assert Has(data[..], 8 * i + k);
            res := res + {8 * i + k};
          }
        }
      }
    }

    /** Combine with another set byte by byte. */
    method Combine(rhs: FiniteIntegerSet, f: (bv8, bv8) -> bv8) returns (r: FiniteIntegerSet)
      requires Valid() && rhs.Valid() && maxVal == rhs.maxVal
      ensures fresh(r.data) && r.maxVal == maxVal && r.data[..] == Zip(data[..], rhs.data[..], f)
    {
      r := new FiniteIntegerSet(maxVal);
      for i := 0 to data.Length
        invariant forall j :: 0 <= j < i ==> r.data[j] == f(data[j], rhs.data[j])
      {
        r.data[i] := f(data[i], rhs.data[i]);
      }
    }

    method BitOr(rhs: FiniteIntegerSet) returns (r: FiniteIntegerSet)
      requires Valid() && rhs.Valid() && maxVal == rhs.maxVal
      ensures r.Valid() && fresh(r.data) && r.maxVal == maxVal && r.Elements() == Elements() + rhs.Elements()
    {
      SetOperations(data[..], rhs.data[..]);
      OperationsStayInRange(data[..], rhs.data[..], maxVal);
      r := Combine(rhs, OrBits);
    }

    method BitAnd(rhs: FiniteIntegerSet) returns (r: FiniteIntegerSet)
      requires Valid() && rhs.Valid() && maxVal == rhs.maxVal
      ensures r.Valid() && fresh(r.data) && r.maxVal == maxVal && r.Elements() == Elements() * rhs.Elements()
    {
      SetOperations(data[..], rhs.data[..]);
      OperationsStayInRange(data[..], rhs.data[..], maxVal);
      r := Combine(rhs, AndBits);
    }

    method Sub(rhs: FiniteIntegerSet) returns (r: FiniteIntegerSet)
      requires Valid() && rhs.Valid() && maxVal == rhs.maxVal
      ensures r.Valid() && fresh(r.data) && r.maxVal == maxVal && r.Elements() == Elements() - rhs.Elements()
    {
      SetOperations(data[..], rhs.data[..]);
      OperationsStayInRange(data[..], rhs.data[..], maxVal);
      r := Combine(rhs, ClearBits);
    }

    /** What is in exactly one of the two sets. */
    method SymmDiff(other: FiniteIntegerSet) returns (r: FiniteIntegerSet)
      requires Valid() && other.Valid() && maxVal == other.maxVal
      ensures r.Valid() && fresh(r.data) && r.maxVal == maxVal
      ensures forall x :: x in r.Elements() <==> (x in Elements()) != (x in other.Elements())
    {
      var inBoth := BitAnd(other);
      var union := BitOr(other);
      r := union.Sub(inBoth);
    }

    /** Difference in place. */
    method SubAssign(rhs: FiniteIntegerSet)
      requires Valid() && rhs.Valid() && maxVal == rhs.maxVal && data != rhs.data
      modifies data
      ensures Valid() && Elements() == old(Elements()) - rhs.Elements()
    {
      ghost var s := data[..];
      for i := 0 to data.Length
        invariant forall j :: 0 <= j < i ==> data[j] == ClearBits(s[j], rhs.data[j])
        invariant forall j :: i <= j < data.Length ==> data[j] == s[j]
      {
        data[i] := ClearBits(data[i], rhs.data[i]);
      }
      assert data[..] == Zip(s, rhs.data[..], ClearBits);
      SetOperations(s, rhs.data[..]);
      OperationsStayInRange(s, rhs.data[..], maxVal);
    }

    /** Byte equality is set equality. */
    method Equals(other: FiniteIntegerSet) returns (r: bool)
      requires Valid() && other.Valid()
      ensures r <==> maxVal == other.maxVal && Elements() == other.Elements()
    {
      r := data[..] == other.data[..] && maxVal == other.maxVal;
      if maxVal == other.maxVal { BytesAreCanonical(data[..], other.data[..]); }
    }
  }
}
