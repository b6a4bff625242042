/** Generic facts about sequences used by the selector: filtering, absence
    of duplicates, and "appears in the same relative order as". */
module Sequences {

  /** No value occurs twice in `s`. */
  ghost predicate Distinct<T>(s: seq<T>) {
    forall p, q :: 0 <= p < q < |s| ==> s[p] != s[q]
  }

  /** The elements of `s` that satisfy `keep`, in their order in `s`. */
  function Filter<T(!new)>(s: seq<T>, keep: T -> bool): (r: seq<T>)
    ensures |r| <= |s|
  {
    if s == [] then []
    else
      var init := Filter(s[..|s| - 1], keep);
      if keep(s[|s| - 1]) then init + [s[|s| - 1]] else init
  }

  /** The filtered sequence holds exactly the elements of `s` that satisfy `keep`. */
  lemma {:induction false} FilterMembers<T(!new)>(s: seq<T>, keep: T -> bool)
    ensures forall x :: x in Filter(s, keep) <==> x in s && keep(x)
  {
    if s != [] {
      FilterMembers(s[..|s| - 1], keep);
      assert s == s[..|s| - 1] + [s[|s| - 1]];
    }
  }

  /** `x` occurs strictly before `y` in `s`. */
  ghost predicate Before<T>(s: seq<T>, x: T, y: T) {
    exists i, j :: 0 <= i < j < |s| && s[i] == x && s[j] == y
  }

  /** Every two elements of `r` occur in `s` in the same relative order. */
  ghost predicate FollowsOrder<T>(r: seq<T>, s: seq<T>) {
    forall p, q :: 0 <= p < q < |r| ==> Before(s, r[p], r[q])
  }

  /** Filtering keeps a sequence free of duplicates. */
  lemma {:induction false} FilterDistinct<T(!new)>(s: seq<T>, keep: T -> bool)
    ensures Distinct(s) ==> Distinct(Filter(s, keep))
  {
    if s != [] && Distinct(s) {
      var init := s[..|s| - 1];
      FilterDistinct(init, keep);
      FilterMembers(init, keep);
      assert s[|s| - 1] !in init by {
        forall p | 0 <= p < |init| ensures init[p] != s[|s| - 1] {
          assert init[p] == s[p];
        }
      }
    }
  }

  lemma {:induction false} FilterFollowsOrder<T(!new)>(s: seq<T>, keep: T -> bool)
    ensures FollowsOrder(Filter(s, keep), s)
  {
    if s != [] {
      var init := s[..|s| - 1];
      var last := s[|s| - 1];
      var fi := Filter(init, keep);
      FilterFollowsOrder(init, keep);
      FilterMembers(init, keep);
      var r := Filter(s, keep);
      forall p, q | 0 <= p < q < |r| ensures Before(s, r[p], r[q]) {
        if q < |fi| {
          assert r[p] == fi[p] && r[q] == fi[q];
          assert Before(init, fi[p], fi[q]);
          var i, j :| 0 <= i < j < |init| && init[i] == fi[p] && init[j] == fi[q];
          assert s[i] == init[i] && s[j] == init[j];
        } else {
          assert r == fi + [last] && q == |fi| && r[q] == last;
          assert r[p] == fi[p] && fi[p] in init;
          var i :| 0 <= i < |init| && init[i] == fi[p];
          assert s[i] == init[i] && s[|s| - 1] == last;
        }
      }
    }
  }

  lemma FollowsOrderTransitive<T>(a: seq<T>, b: seq<T>, c: seq<T>)
    requires FollowsOrder(a, b) && FollowsOrder(b, c)
    ensures FollowsOrder(a, c)
  {
    forall p, q | 0 <= p < q < |a| ensures Before(c, a[p], a[q]) {
      assert Before(b, a[p], a[q]);
      var i, j :| 0 <= i < j < |b| && b[i] == a[p] && b[j] == a[q];
      assert Before(c, b[i], b[j]);
    }
  }
}
