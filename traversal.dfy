/**
 * `GetDescendantNodes`: every node strictly below a node, each child's
 * descendants first and then the child itself, children left to right.
 */
module Traversal {
  import opened Nodes
  import opened Spans

  /** The descendants of `n`. */
  function Descendants(n: Node): seq<Node>
    decreases n, 1
  {
    DescendantsFrom(n, 0)
  }

  /** The descendants below children `i` and later, in the same order. */
  function DescendantsFrom(n: Node, i: nat): seq<Node>
    requires i <= |n.children|
    decreases n, 0, |n.children| - i
  {
    if i == |n.children| then []
    else Descendants(n.children[i]) + [n.children[i]] + DescendantsFrom(n, i + 1)
  }

  /** The paths to the descendants, as the reference for the order: paths below child `i` start with `i`. */
  function DescendantPaths(n: Node): seq<Path>
    decreases n, 1
  {
    PathsFrom(n, 0)
  }

  function PathsFrom(n: Node, i: nat): seq<Path>
    requires i <= |n.children|
    decreases n, 0, |n.children| - i
  {
    if i == |n.children| then []
    else Under(i, DescendantPaths(n.children[i])) + [[i]] + PathsFrom(n, i + 1)
  }

  /** The paths `ps` seen from the parent, through child `i`. */
  function Under(i: nat, ps: seq<Path>): (r: seq<Path>)
    ensures |r| == |ps|
  {
    seq(|ps|, k requires 0 <= k < |ps| => [i] + ps[k])
  }

  /** The number of nodes in a tree. */
  function Size(n: Node): nat
    decreases n, 1
  {
    1 + SizeFrom(n, 0)
  }

  function SizeFrom(n: Node, i: nat): nat
    requires i <= |n.children|
    decreases n, 0, |n.children| - i
  {
    if i == |n.children| then 0 else Size(n.children[i]) + SizeFrom(n, i + 1)
  }

  /** The node reached through child `i` and then `p`. */
  lemma PathThrough(n: Node, i: nat, p: Path)
    requires i < |n.children| && ValidPath(n.children[i], p)
    ensures ValidPath(n, [i] + p) && NodeAt(n, [i] + p) == NodeAt(n.children[i], p)
  {
    assert ([i] + p)[1..] == p;
  }

  /** Each descendant is the node at the corresponding path, and every such path leads strictly below the node. */
  lemma {:induction false} DescendantsAtPaths(n: Node)
    ensures |Descendants(n)| == |DescendantPaths(n)|
    ensures forall k | 0 <= k < |Descendants(n)| ::
      |DescendantPaths(n)[k]| > 0 && ValidPath(n, DescendantPaths(n)[k])
      && Descendants(n)[k] == NodeAt(n, DescendantPaths(n)[k])
    decreases n, 1
  {
    FromAtPaths(n, 0);
  }

  lemma {:induction false} FromAtPaths(n: Node, i: nat)
    requires i <= |n.children|
    ensures |DescendantsFrom(n, i)| == |PathsFrom(n, i)|
    ensures forall k | 0 <= k < |DescendantsFrom(n, i)| ::
      |PathsFrom(n, i)[k]| > 0 && ValidPath(n, PathsFrom(n, i)[k])
      && DescendantsFrom(n, i)[k] == NodeAt(n, PathsFrom(n, i)[k])
    decreases n, 0, |n.children| - i
  {
    if i < |n.children| {
      var c := n.children[i];
      var ds := DescendantsFrom(n, i);
      var ps := PathsFrom(n, i);
      var u := Under(i, DescendantPaths(c));
      DescendantsAtPaths(c);
      FromAtPaths(n, i + 1);
      assert ds == Descendants(c) + [c] + DescendantsFrom(n, i + 1);
      assert ps == u + [[i]] + PathsFrom(n, i + 1);
      forall k | 0 <= k < |ds|
        ensures |ps[k]| > 0 && ValidPath(n, ps[k]) && ds[k] == NodeAt(n, ps[k])
      {
        if k < |u| {
          assert ps[k] == [i] + DescendantPaths(c)[k];
          PathThrough(n, i, DescendantPaths(c)[k]);
        } else if k == |u| {
          PathThrough(n, i, []);
        } else {
          assert ps[k] == PathsFrom(n, i + 1)[k - |u| - 1];
        }
      }
    }
  }

  /** Every node below `n` comes once: as many descendants as nodes besides `n`. */
  lemma {:induction false} DescendantCount(n: Node)
    ensures |Descendants(n)| == Size(n) - 1
    decreases n, 1
  {
    CountFrom(n, 0);
  }

  lemma {:induction false} CountFrom(n: Node, i: nat)
    requires i <= |n.children|
    ensures |DescendantsFrom(n, i)| == SizeFrom(n, i)
    decreases n, 0, |n.children| - i
  {
    if i < |n.children| {
      DescendantCount(n.children[i]);
      CountFrom(n, i + 1);
    }
  }

  /** Every node strictly below `n` is among the descendants. */
  lemma {:induction false} DescendantPathsComplete(n: Node, p: Path)
    requires ValidPath(n, p) && |p| > 0
    ensures p in DescendantPaths(n)
    decreases n, 1
  {
    PathsFromComplete(n, 0, p);
  }

  lemma {:induction false} PathsFromComplete(n: Node, i: nat, p: Path)
    requires i <= |n.children| && ValidPath(n, p) && |p| > 0 && i <= p[0]
    ensures p in PathsFrom(n, i)
    decreases n, 0, |n.children| - i
  {
    var ps := PathsFrom(n, i);
    var c := n.children[i];
    var u := Under(i, DescendantPaths(c));
    assert ps == u + [[i]] + PathsFrom(n, i + 1);
    if p[0] > i {
      PathsFromComplete(n, i + 1, p);
    } else if |p| == 1 {
      assert p == [i];
    } else {
      var rest := p[1..];
      DescendantPathsComplete(c, rest);
      var k :| 0 <= k < |DescendantPaths(c)| && DescendantPaths(c)[k] == rest;
      assert u[k] == [i] + rest == p;
    }
  }

  /** Every path from child `i` on starts with an index of at least `i`. */
  lemma {:induction false} PathsFromStart(n: Node, i: nat)
    requires i <= |n.children|
    ensures forall p | p in PathsFrom(n, i) :: |p| > 0 && i <= p[0]
    decreases |n.children| - i
  {
    if i < |n.children| {
      PathsFromStart(n, i + 1);
      var u := Under(i, DescendantPaths(n.children[i]));
      assert PathsFrom(n, i) == u + [[i]] + PathsFrom(n, i + 1);
      forall p | p in PathsFrom(n, i) ensures |p| > 0 && i <= p[0] {
        if p in u {
          var k :| 0 <= k < |u| && u[k] == p;
        }
      }
    }
  }

  /** `p` leads to a node strictly below the node `q` leads to. */
  predicate Below(p: Path, q: Path) {
    |q| < |p| && p[..|q|] == q
  }

  /** Post-order: a node's descendants all come before it. */
  lemma {:induction false} ChildrenBeforeParent(n: Node, j: nat, k: nat)
    requires j < |DescendantPaths(n)| && k < |DescendantPaths(n)|
    requires Below(DescendantPaths(n)[j], DescendantPaths(n)[k])
    ensures j < k
    decreases n, 1
  {
    FromChildrenBeforeParent(n, 0, j, k);
  }

  lemma {:induction false} FromChildrenBeforeParent(n: Node, i: nat, j: nat, k: nat)
    requires i <= |n.children| && j < |PathsFrom(n, i)| && k < |PathsFrom(n, i)|
    requires Below(PathsFrom(n, i)[j], PathsFrom(n, i)[k])
    ensures j < k
    decreases n, 0, |n.children| - i
  {
    assert i < |n.children|;
    var ps := PathsFrom(n, i);
    var c := n.children[i];
    var cp := DescendantPaths(c);
    var m := |cp| + 1;
    PathsFromParts(n, i);
    if j >= m && k >= m {
      FromChildrenBeforeParent(n, i + 1, j - m, k - m);
    } else if j < |cp| && k < |cp| {
      assert cp[j][..|cp[k]|] == ps[j][..|ps[k]|][1..];
      ChildrenBeforeParent(c, j, k);
    } else {
      assert |ps[k]| > 0;
      assert ps[j][0] == ps[k][0];
    }
  }

  /** Where each path from child `i` on comes from: below child `i`, child `i` itself, or a later child. */
  lemma PathsFromParts(n: Node, i: nat)
    requires i < |n.children|
    ensures
      var ps := PathsFrom(n, i);
      var cp := DescendantPaths(n.children[i]);
      var rest := PathsFrom(n, i + 1);
      |ps| == |cp| + 1 + |rest|
      && (forall t | 0 <= t < |cp| :: ps[t] == [i] + cp[t])
      && ps[|cp|] == [i]
      && (forall t | |cp| < t < |ps| :: ps[t] == rest[t - |cp| - 1] && |ps[t]| > 0 && ps[t][0] > i)
  {
    var ps := PathsFrom(n, i);
    var cp := DescendantPaths(n.children[i]);
    var u := Under(i, cp);
    var rest := PathsFrom(n, i + 1);
    var m := |u| + 1;
    assert ps == u + [[i]] + rest;
    PathsFromStart(n, i + 1);
    forall t | 0 <= t < |u| ensures ps[t] == [i] + cp[t] {
      assert ps[t] == u[t];
    }
    forall t | m <= t < |ps| ensures ps[t] == rest[t - m] && |ps[t]| > 0 && ps[t][0] > i {
      assert ps[t] == rest[t - m];
      assert rest[t - m] in rest;
    }
  }
}
