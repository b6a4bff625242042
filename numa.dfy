/** The NUMA check on the chosen devices (cuda_gpupick/cuda_gpupick.py,
    lines 142-148): the distinct nodes in increasing order, a failure when
    they are several and -f is not given, otherwise the smallest one. */
module Numa {

  ghost predicate StrictlyIncreasing(u: seq<int>) {
    forall p, q :: 0 <= p < q < |u| ==> u[p] < u[q]
  }

  /** Puts `x` in its place in the strictly increasing `u`, unless it is
      already there. */
  function InsertSorted(u: seq<int>, x: int): (r: seq<int>)
    requires StrictlyIncreasing(u)
    ensures StrictlyIncreasing(r)
    ensures forall y :: y in r <==> y in u || y == x
  {
    if u == [] then [x]
    else if x < u[0] then
      PrependIncreasing(x, u);
      [x] + u
    else if x == u[0] then u
    else
      assert u == [u[0]] + u[1..];
      var tail := InsertSorted(u[1..], x);
      PrependIncreasing(u[0], tail);
      [u[0]] + tail
  }

  /** A value below every element of an increasing sequence can go first. */
  lemma PrependIncreasing(h: int, t: seq<int>)
    requires StrictlyIncreasing(t)
    requires forall y :: y in t ==> h < y
    ensures StrictlyIncreasing([h] + t)
  {
    forall q | 1 <= q < |[h] + t| ensures ([h] + t)[q] == t[q - 1] && h < ([h] + t)[q] {
      assert t[q - 1] in t;
    }
  }

  /** The distinct values of `s` in increasing order, as np.unique returns them. */
  function Unique(s: seq<int>): (u: seq<int>)
    ensures StrictlyIncreasing(u)
    ensures forall y :: y in u <==> y in s
  {
    if s == [] then []
    else
      var u := InsertSorted(Unique(s[..|s| - 1]), s[|s| - 1]);
      assert s == s[..|s| - 1] + [s[|s| - 1]];
      u
  }

  /** Several distinct values exactly when some element differs from the
      first; the first distinct value is the smallest element. */
  lemma UniqueShape(s: seq<int>)
    requires s != []
    ensures |Unique(s)| >= 1
    ensures |Unique(s)| > 1 <==> exists p :: 0 <= p < |s| && s[p] != s[0]
    ensures Unique(s)[0] in s && forall p :: 0 <= p < |s| ==> Unique(s)[0] <= s[p]
  {
    var u := Unique(s);
    assert s[0] in u;
    if exists p :: 0 <= p < |s| && s[p] != s[0] {
      var p :| 0 <= p < |s| && s[p] != s[0];
      assert s[p] in u;
    }
    if |u| > 1 {
      assert u[0] != u[1];
      assert u[0] in s && u[1] in s;
    }
    forall p | 0 <= p < |s| ensures u[0] <= s[p] {
      assert s[p] in u;
    }
  }

  /** The smallest element of a non-empty sequence. */
  function LeastOf(s: seq<int>): (m: int)
    requires s != []
    ensures m in s
    ensures forall p :: 0 <= p < |s| ==> m <= s[p]
  {
    if |s| == 1 then s[0]
    else
      var init := s[..|s| - 1];
      var m := LeastOf(init);
      assert forall p :: 0 <= p < |s| - 1 ==> s[p] == init[p];
      assert m in s by {
        var i :| 0 <= i < |init| && init[i] == m;
        assert s[i] == m;
      }
      if s[|s| - 1] < m then s[|s| - 1] else m
  }

  datatype NumaVerdict =
    | Bind(node: int)             // the node numactl binds to: the smallest
                                  // one, even when -f lets several through
    | Spanning(nodes: seq<int>)   // the distinct nodes reported in the failure

  /** Given the NUMA node of each chosen device: fails when they differ and
      crossing is not forced; otherwise keeps the smallest node (np.unique
      sorts, so the first distinct node is the smallest, not the first one
      read). */
  function NumaCheck(nodes: seq<int>, force: bool): (v: NumaVerdict)
    requires nodes != []
    ensures v.Spanning? <==> !force && exists p :: 0 <= p < |nodes| && nodes[p] != nodes[0]
    ensures v.Spanning? ==> v.nodes == Unique(nodes) && |v.nodes| > 1
    ensures v.Bind? ==> v.node == LeastOf(nodes)
  {
    UniqueShape(nodes);
    var u := Unique(nodes);
    var m := LeastOf(nodes);
    assert u[0] <= m && m <= u[0] by {
      var i :| 0 <= i < |nodes| && nodes[i] == u[0];
      var k :| 0 <= k < |nodes| && nodes[k] == m;
    }
    if |u| > 1 && !force then Spanning(u) else Bind(u[0])
  }
}
