/** Absent or present values: Go's nil-able pointers and comma-ok lookups. */
module Options {
  datatype Option<+T> = None | Some(value: T)
}

/** Byte-wise string order, and sorting by a comparator as Go's sort package promises it. */
module Orders {

  /** Go's `a < b` on strings. */
  predicate StringLess(a: string, b: string)
  {
    b != [] && (a == [] || a[0] < b[0] || (a[0] == b[0] && StringLess(a[1..], b[1..])))
  }

  /** Where the strings first differ the smaller character decides, and a proper prefix comes first. */
  lemma {:induction false} StringLessMeaning(a: string, b: string, i: nat)
    requires i <= |a| && i <= |b| && a[..i] == b[..i]
    requires (i == |a| || i == |b|) || a[i] != b[i]
    ensures StringLess(a, b) <==> i < |b| && (i == |a| || a[i] < b[i])
  {
    if i > 0 {
      assert a[0] == a[..i][0] && b[0] == b[..i][0];
      assert a[1..][..i - 1] == a[..i][1..] && b[1..][..i - 1] == b[..i][1..];
      StringLessMeaning(a[1..], b[1..], i - 1);
    }
  }

  lemma {:induction false} StringLessIrreflexive(a: string)
    ensures !StringLess(a, a)
  {
    if a != [] {
      StringLessIrreflexive(a[1..]);
    }
  }

  lemma {:induction false} StringLessTransitive(a: string, b: string, c: string)
    requires StringLess(a, b) && StringLess(b, c)
    ensures StringLess(a, c)
  {
    if a != [] && a[0] == b[0] == c[0] {
      StringLessTransitive(a[1..], b[1..], c[1..]);
    }
  }

  lemma {:induction false} StringLessTotal(a: string, b: string)
    ensures a == b || StringLess(a, b) || StringLess(b, a)
  {
    if a != [] && b != [] && a[0] == b[0] {
      StringLessTotal(a[1..], b[1..]);
      if a[1..] == b[1..] {
        assert a == [a[0]] + a[1..];
      }
    }
  }

  /** No element is ordered before one that precedes it: what sort.Sort leaves behind. */
  predicate SortedBy<T>(s: seq<T>, less: (T, T) -> bool)
  {
    forall i, j | 0 <= i < j < |s| :: !less(s[j], s[i])
  }

  /** A comparator sort.Sort accepts on the elements in `dom`. */
  ghost predicate StrictWeakOrderOn<T>(dom: set<T>, less: (T, T) -> bool)
  {
    && (forall x, y | x in dom && y in dom && less(x, y) :: !less(y, x))
    && (forall x, y, z | x in dom && y in dom && z in dom && less(x, y) && !less(z, y) :: less(x, z))
  }

  ghost predicate TotalOn<T>(dom: set<T>, less: (T, T) -> bool)
  {
    forall x, y | x in dom && y in dom && x != y :: less(x, y) != less(y, x)
  }

  function Insert<T>(x: T, s: seq<T>, less: (T, T) -> bool): (r: seq<T>)
    ensures multiset(r) == multiset(s) + multiset{x}
    ensures |r| == |s| + 1
  {
    if s == [] || less(x, s[0]) then [x] + s
    else
      assert s == [s[0]] + s[1..];
      [s[0]] + Insert(x, s[1..], less)
  }

  function Sort<T>(s: seq<T>, less: (T, T) -> bool): (r: seq<T>)
    ensures multiset(r) == multiset(s)
    ensures |r| == |s|
  {
    if s == [] then [] else
      var n := |s| - 1;
      assert s == s[..n] + [s[n]];
      Insert(s[n], Sort(s[..n], less), less)
  }

  lemma {:induction false} InsertSorted<T>(x: T, s: seq<T>, less: (T, T) -> bool, dom: set<T>)
    requires SortedBy(s, less)
    requires StrictWeakOrderOn(dom, less) && x in dom && forall y | y in s :: y in dom
    ensures SortedBy(Insert(x, s, less), less)
  {
    var r := Insert(x, s, less);
    if s == [] {
    } else if less(x, s[0]) {
      forall i, j | 0 <= i < j < |r|
        ensures !less(r[j], r[i])
      {
        assert r[j] == s[j - 1] && r[j] in s;
        if i == 0 {
          assert j - 1 > 0 ==> !less(s[j - 1], s[0]);
          assert less(x, r[j]);
        }
      }
    } else {
      var t := s[1..];
      InsertSorted(x, t, less, dom);
      var q := Insert(x, t, less);
      forall j | 0 <= j < |q|
        ensures !less(q[j], s[0])
      {
        if q[j] != x {
          assert q[j] in multiset(q);
          assert q[j] in t;
        }
      }
    }
  }

  /** Sorting by a strict weak order sorts. */
  lemma {:induction false} SortSorts<T>(s: seq<T>, less: (T, T) -> bool, dom: set<T>)
    requires StrictWeakOrderOn(dom, less) && forall y | y in s :: y in dom
    ensures SortedBy(Sort(s, less), less)
  {
    if s != [] {
      var n := |s| - 1;
      SortSorts(s[..n], less, dom);
      var t := Sort(s[..n], less);
      forall y | y in t
        ensures y in dom
      {
        assert y in multiset(t);
        assert y in s[..n];
      }
      InsertSorted(s[n], t, less, dom);
    }
  }

  /** When the comparator separates all elements, any two sorted arrangements coincide:
      the outcome of an unstable sort is determined. */
  lemma {:induction false} SortedUnique<T>(a: seq<T>, b: seq<T>, less: (T, T) -> bool, dom: set<T>)
    requires multiset(a) == multiset(b)
    requires SortedBy(a, less) && SortedBy(b, less)
    requires TotalOn(dom, less) && forall y | y in a :: y in dom
    ensures a == b
  {
    if a == [] {
      assert |multiset(b)| == 0;
    } else {
      SameFirst(a, b, less, dom);
      RestPermuted(a, b);
      hide TotalOn;
      assert forall y | y in a[1..] :: y in a;
      SortedUnique(a[1..], b[1..], less, dom);
      assert a == [a[0]] + a[1..] && b == [b[0]] + b[1..];
    }
  }

  lemma SameFirst<T>(a: seq<T>, b: seq<T>, less: (T, T) -> bool, dom: set<T>)
    requires multiset(a) == multiset(b) && a != []
    requires SortedBy(a, less) && SortedBy(b, less)
    requires TotalOn(dom, less) && forall y | y in a :: y in dom
    ensures b != [] && a[0] == b[0]
  {
    assert a[0] in multiset(b);
    assert a[0] in b;
    assert b[0] in multiset(a);
    var i :| 0 <= i < |a| && a[i] == b[0];
    var j :| 0 <= j < |b| && b[j] == a[0];
    assert i > 0 ==> !less(a[i], a[0]);
    assert j > 0 ==> !less(b[j], b[0]);
  }

  lemma RestPermuted<T>(a: seq<T>, b: seq<T>)
    requires multiset(a) == multiset(b) && a != [] && b != [] && a[0] == b[0]
    ensures multiset(a[1..]) == multiset(b[1..])
  {
    assert a == [a[0]] + a[1..] && b == [b[0]] + b[1..];
    assert multiset(a[1..]) == multiset(a) - multiset{a[0]};
    assert multiset(b[1..]) == multiset(b) - multiset{a[0]};
  }

  lemma {:induction false} RepeatedAt<T>(s: seq<T>, x: T) returns (i: nat, j: nat)
    requires multiset(s)[x] >= 2
    ensures i < j < |s| && s[i] == s[j] == x
  {
    var n := |s| - 1;
    assert s == s[..n] + [s[n]];
    if s[n] == x {
      assert x in multiset(s[..n]);
      i :| 0 <= i < n && s[i] == x;
      j := n;
    } else {
      i, j := RepeatedAt(s[..n], x);
    }
  }

  /** Keys that are pairwise distinct stay so under any rearrangement. */
  lemma PermutedKeysDistinct<T, K>(a: seq<T>, b: seq<T>, key: T -> K)
    requires multiset(a) == multiset(b)
    requires forall i, j | 0 <= i < j < |a| :: key(a[i]) != key(a[j])
    ensures forall i, j | 0 <= i < j < |b| :: key(b[i]) != key(b[j])
  {
    forall i, j | 0 <= i < j < |b|
      ensures key(b[i]) != key(b[j])
    {
      if b[i] == b[j] {
        assert b == b[..j] + [b[j]] + b[j + 1..];
        assert b[i] in b[..j];
        assert multiset(b)[b[i]] >= 2;
        var k, l := RepeatedAt(a, b[i]);
        assert false;
      } else {
        assert b[i] in multiset(a) && b[j] in multiset(a);
        var k :| 0 <= k < |a| && a[k] == b[i];
        var l :| 0 <= l < |a| && a[l] == b[j];
        assert k < l || l < k;
      }
    }
  }
}
