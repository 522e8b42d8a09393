/** Small shared vocabulary: an optional value, and the library sort that the services call. */
module Prelude {

  datatype Option<+T> = None | Some(value: T)
}

/** Go's `sort.Slice`: an in-place sort by a caller-supplied strict order. Its contract promises an
    ordered permutation and nothing else (no stability), so callers cannot depend on the algorithm. */
module SliceSort {

  /** What `sort.Slice` asks of its comparison: asymmetric, and "not after" is transitive. */
  ghost predicate StrictWeakOrder<T(!new)>(less: (T, T) -> bool) {
    && (forall x, y :: less(x, y) ==> !less(y, x))
    && (forall x, y, z :: !less(y, x) && !less(z, y) ==> !less(z, x))
  }

  ghost predicate OrderedBy<T(!new)>(s: seq<T>, less: (T, T) -> bool) {
    forall i, j :: 0 <= i < j < |s| ==> !less(s[j], s[i])
  }

  method Sort<T(!new)>(a: array<T>, less: (T, T) -> bool)
    requires StrictWeakOrder(less)
    modifies a
    ensures multiset(a[..]) == multiset(old(a[..]))
    ensures OrderedBy(a[..], less)
  {
    var i := 0;
    while i < a.Length
      invariant 0 <= i <= a.Length
      invariant multiset(a[..]) == multiset(old(a[..]))
      invariant SettledBelow(a[..], i, less)
    {
      var m := IndexOfLeast(a, i, less);
      ghost var before := a[..];
      Swap(a, i, m);
      SwapSettles(before, i, m, a[..], less);
      i := i + 1;
    }
  }

  /** Nothing at or after a position below `i` belongs before it. */
  ghost predicate SettledBelow<T(!new)>(s: seq<T>, i: nat, less: (T, T) -> bool) {
    forall p, q :: 0 <= p < i && p < q < |s| ==> !less(s[q], s[p])
  }

  method Swap<T>(a: array<T>, i: nat, j: nat)
    requires i <= j < a.Length
    modifies a
    ensures a[..] == old(a[..])[i := old(a[j])][j := old(a[i])]
    ensures multiset(a[..]) == multiset(old(a[..]))
  {
    a[i], a[j] := a[j], a[i];
  }

  lemma SwapSettles<T(!new)>(s: seq<T>, i: nat, m: nat, t: seq<T>, less: (T, T) -> bool)
    requires StrictWeakOrder(less)
    requires i <= m < |s| && t == s[i := s[m]][m := s[i]]
    requires SettledBelow(s, i, less)
    requires forall q :: i <= q < |s| ==> !less(s[q], s[m])
    ensures SettledBelow(t, i + 1, less)
  {
    forall p, q | 0 <= p < i + 1 && p < q < |t|
      ensures !less(t[q], t[p])
    {
      var was := if q == m then i else if q == i then m else q;
      assert t[q] == s[was];
      if p < i {
        assert t[p] == s[p];
      } else {
        assert t[p] == s[m];
      }
    }
  }

  method IndexOfLeast<T(!new)>(a: array<T>, from: nat, less: (T, T) -> bool) returns (m: nat)
    requires StrictWeakOrder(less)
    requires from < a.Length
    ensures from <= m < a.Length
    ensures forall q :: from <= q < a.Length ==> !less(a[q], a[m])
  {
    m := from;
    var j := from + 1;
    while j < a.Length
      invariant from <= m < j <= a.Length
      invariant forall q :: from <= q < j ==> !less(a[q], a[m])
    {
      if less(a[j], a[m]) {
        m := j;
      }
      j := j + 1;
    }
  }
}
