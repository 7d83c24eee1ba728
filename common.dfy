/** Small shared vocabulary: an Option type, JavaScript's `slice(0, n)`,
    and the sequence predicates the other modules state their contracts with. */
module Common {

  datatype Option<T> = None | Some(value: T)

  /** A host-page element, known to the model only by an identifier. */
  type Elem = nat

  function Min(a: int, b: int): int {
    if a <= b then a else b
  }

  /** `s.slice(0, n)` for a non-negative `n`. */
  function Take<T>(s: seq<T>, n: nat): (r: seq<T>)
    ensures |r| == if |s| <= n then |s| else n
    ensures r == s[..|r|]
  {
    if |s| <= n then s else s[..n]
  }

  predicate NoDuplicates<T(==)>(s: seq<T>) {
    forall i, j :: 0 <= i < j < |s| ==> s[i] != s[j]
  }

  /** `a` can be obtained from `b` by deleting elements, keeping the order. */
  ghost predicate IsSubsequence<T>(a: seq<T>, b: seq<T>)
    decreases |b|
  {
    if b == [] then a == []
    else
      IsSubsequence(a, b[..|b| - 1]) ||
      (a != [] && a[|a| - 1] == b[|b| - 1] && IsSubsequence(a[..|a| - 1], b[..|b| - 1]))
  }

  lemma {:induction false} SubsequenceElements<T>(a: seq<T>, b: seq<T>)
    requires IsSubsequence(a, b)
    ensures |a| <= |b|
    ensures forall x :: x in a ==> x in b
    decreases |b|
  {
    if b != [] {
      if IsSubsequence(a, b[..|b| - 1]) {
        SubsequenceElements(a, b[..|b| - 1]);
      } else {
        SubsequenceElements(a[..|a| - 1], b[..|b| - 1]);
        assert a == a[..|a| - 1] + [a[|a| - 1]];
      }
    }
  }

  lemma {:induction false} SubsequenceReflexive<T>(s: seq<T>)
    ensures IsSubsequence(s, s)
    decreases |s|
  {
    if s != [] {
      SubsequenceReflexive(s[..|s| - 1]);
    }
  }

  /** `s.filter(p)`. */
  function Filter<T>(s: seq<T>, p: T -> bool): seq<T>
    decreases |s|
  {
    if s == [] then []
    else
      var r := Filter(s[..|s| - 1], p);
      if p(s[|s| - 1]) then r + [s[|s| - 1]] else r
  }

  /** The filter keeps exactly the elements satisfying `p`, in order. */
  lemma {:induction false} FilterSpec<T>(s: seq<T>, p: T -> bool)
    ensures forall x :: x in Filter(s, p) <==> x in s && p(x)
    ensures IsSubsequence(Filter(s, p), s)
    ensures |Filter(s, p)| <= |s|
    decreases |s|
  {
    if s != [] {
      var q, x := s[..|s| - 1], s[|s| - 1];
      FilterSpec(q, p);
      assert s == q + [x];
      var r := Filter(q, p);
      assert (r + [x])[..|r|] == r;
    }
  }

  /** Filtering a concatenation filters each part. */
  lemma {:induction false} FilterConcat<T>(a: seq<T>, b: seq<T>, p: T -> bool)
    ensures Filter(a + b, p) == Filter(a, p) + Filter(b, p)
    decreases |b|
  {
    if b != [] {
      var q, x := b[..|b| - 1], b[|b| - 1];
      assert (a + b)[..|a + b| - 1] == a + q;
      assert (a + b)[|a + b| - 1] == x;
      FilterConcat(a, q, p);
      assert Filter(a + b, p) == Filter(a + q, p) + (if p(x) then [x] else []);
      assert Filter(b, p) == Filter(q, p) + (if p(x) then [x] else []);
    } else {
      assert a + b == a;
    }
  }

  /** Nothing is kept when no element satisfies the predicate. */
  lemma {:induction false} FilterNone<T>(s: seq<T>, p: T -> bool)
    requires forall i :: 0 <= i < |s| ==> !p(s[i])
    ensures Filter(s, p) == []
    decreases |s|
  {
    if s != [] {
      FilterNone(s[..|s| - 1], p);
    }
  }
}
