/**
 * Ordered sets as the Rust standard library's `BTreeSet` provides them: a
 * duplicate-free sequence kept in ascending order of a strict total order
 * (the type's derived `Ord`). Iteration is in ascending order, `insert` of an
 * element already present changes nothing, and `next_back` is the maximum.
 */
module Ordering {

  /** `lt` is irreflexive, transitive and connected: what a derived `Ord` gives. */
  ghost predicate StrictTotalOrder<T(!new)>(lt: (T, T) -> bool) {
    && (forall a :: !lt(a, a))
    && (forall a, b, c :: lt(a, b) && lt(b, c) ==> lt(a, c))
    && (forall a, b :: a == b || lt(a, b) || lt(b, a))
  }

  /** The lexicographic order on sequences that `Ord` derives for `String` and `BTreeSet`. */
  predicate SeqLt<T(==)>(a: seq<T>, b: seq<T>, lt: (T, T) -> bool) {
    if a == [] then b != []
    else if b == [] then false
    else if a[0] == b[0] then SeqLt(a[1..], b[1..], lt)
    else lt(a[0], b[0])
  }

  lemma {:induction false} SeqLtIrreflexive<T(!new)>(a: seq<T>, lt: (T, T) -> bool)
    requires StrictTotalOrder(lt)
    ensures !SeqLt(a, a, lt)
  {
    if a != [] {
      SeqLtIrreflexive(a[1..], lt);
    }
  }

  lemma {:induction false} SeqLtTransitive<T(!new)>(a: seq<T>, b: seq<T>, c: seq<T>, lt: (T, T) -> bool)
    requires StrictTotalOrder(lt)
    requires SeqLt(a, b, lt) && SeqLt(b, c, lt)
    ensures SeqLt(a, c, lt)
  {
    if a != [] {
      assert b != [] && c != [];
      if a[0] == b[0] && b[0] == c[0] {
        SeqLtTransitive(a[1..], b[1..], c[1..], lt);
      } else if a[0] != b[0] && b[0] != c[0] {
        assert lt(a[0], b[0]) && lt(b[0], c[0]);
        assert lt(a[0], c[0]);
        assert a[0] != c[0];
      }
    }
  }

  lemma {:induction false} SeqLtConnected<T(!new)>(a: seq<T>, b: seq<T>, lt: (T, T) -> bool)
    requires StrictTotalOrder(lt)
    ensures a == b || SeqLt(a, b, lt) || SeqLt(b, a, lt)
  {
    if a != [] && b != [] && a[0] == b[0] {
      SeqLtConnected(a[1..], b[1..], lt);
      if a[1..] == b[1..] {
        assert a == [a[0]] + a[1..] && b == [b[0]] + b[1..];
      }
    }
  }

  /** The lexicographic order on sequences is itself a strict total order. */
  lemma SeqLtStrictTotal<T(!new)>(lt: (T, T) -> bool)
    requires StrictTotalOrder(lt)
    ensures forall a: seq<T> :: !SeqLt(a, a, lt)
    ensures forall a: seq<T>, b: seq<T>, c: seq<T> :: SeqLt(a, b, lt) && SeqLt(b, c, lt) ==> SeqLt(a, c, lt)
    ensures forall a: seq<T>, b: seq<T> :: a == b || SeqLt(a, b, lt) || SeqLt(b, a, lt)
  {
    forall a: seq<T> ensures !SeqLt(a, a, lt) {
      SeqLtIrreflexive(a, lt);
    }
    forall a: seq<T>, b: seq<T>, c: seq<T> | SeqLt(a, b, lt) && SeqLt(b, c, lt)
      ensures SeqLt(a, c, lt)
    {
      SeqLtTransitive(a, b, c, lt);
    }
    forall a: seq<T>, b: seq<T> ensures a == b || SeqLt(a, b, lt) || SeqLt(b, a, lt) {
      SeqLtConnected(a, b, lt);
    }
  }

  /** The sequence is strictly ascending: the in-order contents of a `BTreeSet`. */
  predicate Sorted<T>(s: seq<T>, lt: (T, T) -> bool) {
    forall i, j :: 0 <= i < j < |s| ==> lt(s[i], s[j])
  }

  /** The elements of a sequence, as a set. */
  ghost function Elements<T>(s: seq<T>): set<T> {
    set x | x in s
  }

  /**
   * `BTreeSet::insert`: the element joins the set, at its place in the order;
   * inserting an element already present leaves the set as it was.
   */
  function Insert<T(==,!new)>(s: seq<T>, x: T, lt: (T, T) -> bool): (r: seq<T>)
    requires StrictTotalOrder(lt) && Sorted(s, lt)
    ensures Sorted(r, lt)
    ensures forall y :: y in r <==> y in s || y == x
    ensures x in s ==> r == s
    ensures x !in s ==> |r| == |s| + 1
  {
    if s == [] then [x]
    else if lt(x, s[0]) then
      assert forall j :: 0 < j < |s| ==> lt(s[0], s[j]);
      [x] + s
    else if x == s[0] then s
    else
      var rest := Insert(s[1..], x, lt);
      assert lt(s[0], x);
      assert forall j :: 0 <= j < |s[1..]| ==> lt(s[0], s[1..][j]);
      assert forall y :: y in rest ==> lt(s[0], y);
      assert s == [s[0]] + s[1..];
      [s[0]] + rest
  }

  /** An element above every present element is appended at the end. */
  lemma {:induction false} InsertGreatest<T(!new)>(s: seq<T>, x: T, lt: (T, T) -> bool)
    requires StrictTotalOrder(lt) && Sorted(s, lt)
    requires forall y :: y in s ==> lt(y, x)
    ensures Insert(s, x, lt) == s + [x]
  {
    if s != [] {
      assert lt(s[0], x);
      InsertGreatest(s[1..], x, lt);
      assert [s[0]] + (s[1..] + [x]) == s + [x];
    }
  }

  /** The last element of a non-empty sorted sequence is its maximum: `next_back`. */
  lemma LastIsMaximum<T(!new)>(s: seq<T>, lt: (T, T) -> bool)
    requires Sorted(s, lt) && s != []
    ensures forall y :: y in s ==> y == s[|s| - 1] || lt(y, s[|s| - 1])
  {
  }

  /** The first element of a non-empty sorted sequence is its minimum. */
  lemma FirstIsMinimum<T(!new)>(s: seq<T>, lt: (T, T) -> bool)
    requires Sorted(s, lt) && s != []
    ensures forall y :: y in s ==> y == s[0] || lt(s[0], y)
  {
  }

  /** A sorted sequence holds no duplicates: its length is the set's `len()`. */
  lemma {:induction false} SortedCardinality<T(!new)>(s: seq<T>, lt: (T, T) -> bool)
    requires StrictTotalOrder(lt) && Sorted(s, lt)
    ensures |Elements(s)| == |s|
  {
    if s != [] {
      SortedCardinality(s[1..], lt);
      assert forall j :: 1 <= j < |s| ==> lt(s[0], s[j]);
      assert s[0] !in s[1..];
      assert Elements(s) == {s[0]} + Elements(s[1..]);
    }
  }

  /** A set's ascending sequence is determined by its elements. */
  lemma {:induction false} SortedUnique<T(!new)>(a: seq<T>, b: seq<T>, lt: (T, T) -> bool)
    requires StrictTotalOrder(lt) && Sorted(a, lt) && Sorted(b, lt)
    requires forall x :: x in a <==> x in b
    ensures a == b
  {
    assert a != [] ==> a[0] in b;
    assert b != [] ==> b[0] in a;
    if a != [] && b != [] {
      FirstIsMinimum(a, lt);
      FirstIsMinimum(b, lt);
      assert a[0] in b && b[0] in a;
      assert a[0] == b[0];
      assert a == [a[0]] + a[1..] && b == [b[0]] + b[1..];
      forall x ensures x in a[1..] <==> x in b[1..] {
        if x in a[1..] {
          var i :| 1 <= i < |a| && a[i] == x;
          assert lt(a[0], x) && x in b && x != b[0];
        }
        if x in b[1..] {
          var i :| 1 <= i < |b| && b[i] == x;
          assert lt(b[0], x) && x in a && x != a[0];
        }
      }
      SortedUnique(a[1..], b[1..], lt);
      assert a == [a[0]] + a[1..] && b == [b[0]] + b[1..];
    }
  }
}
