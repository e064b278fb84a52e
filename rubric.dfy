/** The rubric tree of the mind map: leaves carry a weight and a selection
    flag; groups combine their children under an operator and are capped by
    their max_score. Nodes are addressed by the path of child indices that
    leads to them from the root. */
module Rubric {

  datatype Option<T> = None | Some(value: T)

  /** A group's `operator` string: "and", "or", or any other string. */
  datatype Op = And | Or | Other

  /** `type: "leaf"` and `type: "node"` records. A group's `max_score` may be
      absent; a missing or falsy `enabled` is `false`; missing `children` is `[]`. */
  datatype Node =
    | Leaf(name: string, weight: int, selected: bool)
    | Group(name: string, op: Op, maxScore: Option<int>, enabled: bool, children: seq<Node>)

  /** `max_score || 0`: an absent max_score reads as 0. */
  function Cap(maxScore: Option<int>): int {
    match maxScore
    case None => 0
    case Some(v) => v
  }

  /** The node's own fields, with its children dropped. */
  function Own(n: Node): Node {
    match n
    case Leaf(_, _, _) => n
    case Group(_, _, _, _, _) => n.(children := [])
  }

  type Path = seq<nat>

  /** `p` leads from `n` to one of its descendants (or to `n` itself). */
  predicate ValidPath(n: Node, p: Path)
    decreases |p|
  {
    |p| == 0 || (n.Group? && p[0] < |n.children| && ValidPath(n.children[p[0]], p[1..]))
  }

  /** The node that `p` leads to. */
  function At(n: Node, p: Path): Node
    requires ValidPath(n, p)
    decreases |p|
  {
    if |p| == 0 then n else At(n.children[p[0]], p[1..])
  }

  /** The tree `n` with the subtree at `p` replaced by `m`: the field writes of
      the mind map go through the node objects shared with the global tree, so
      every write is a replacement at the written node's path. */
  function Replace(n: Node, p: Path, m: Node): (r: Node)
    requires ValidPath(n, p)
    ensures ValidPath(r, p) && At(r, p) == m
    ensures |p| > 0 ==> Own(r) == Own(n)
    decreases |p|
  {
    if |p| == 0 then m
    else n.(children := n.children[p[0] := Replace(n.children[p[0]], p[1..], m)])
  }

  /** `a` and `b` have the same tree shape: the same kind of node at every
      position and the same number of children at every group. */
  predicate SameShape(a: Node, b: Node) {
    match a
    case Leaf(_, _, _) => b.Leaf?
    case Group(_, _, _, _, kids) =>
      b.Group? && |b.children| == |kids| &&
      forall k :: 0 <= k < |kids| ==> SameShape(kids[k], b.children[k])
  }

  lemma {:induction false} SameShapeRefl(a: Node)
    ensures SameShape(a, a)
  {
    match a
    case Leaf(_, _, _) =>
    case Group(_, _, _, _, kids) =>
      forall k | 0 <= k < |kids| ensures SameShape(kids[k], kids[k]) {
        SameShapeRefl(kids[k]);
      }
  }

  lemma {:induction false} SameShapeTrans(a: Node, b: Node, c: Node)
    requires SameShape(a, b) && SameShape(b, c)
    ensures SameShape(a, c)
  {
    match a
    case Leaf(_, _, _) =>
    case Group(_, _, _, _, kids) =>
      forall k | 0 <= k < |kids| ensures SameShape(kids[k], c.children[k]) {
        SameShapeTrans(kids[k], b.children[k], c.children[k]);
      }
  }

  /** Trees of the same shape have the same paths, leading to nodes of the same shape. */
  lemma {:induction false} SameShapePath(a: Node, b: Node, p: Path)
    requires SameShape(a, b) && ValidPath(a, p)
    ensures ValidPath(b, p) && SameShape(At(a, p), At(b, p))
    decreases |p|
  {
    if |p| > 0 {
      SameShapePath(a.children[p[0]], b.children[p[0]], p[1..]);
    }
  }

  /** Replacing a subtree by one of the same shape keeps the shape of the tree. */
  lemma {:induction false} ReplaceSameShape(n: Node, p: Path, m: Node)
    requires ValidPath(n, p) && SameShape(At(n, p), m)
    ensures SameShape(n, Replace(n, p, m))
    decreases |p|
  {
    if |p| > 0 {
      var kids := n.children;
      var r := Replace(n, p, m);
      forall k | 0 <= k < |kids| ensures SameShape(kids[k], r.children[k]) {
        if k == p[0] {
          ReplaceSameShape(kids[k], p[1..], m);
        } else {
          SameShapeRefl(kids[k]);
        }
      }
    }
  }

  /** A path that leads somewhere before a same-shape replacement still does after it. */
  lemma ReplaceKeepsPath(n: Node, p: Path, m: Node, x: Path)
    requires ValidPath(n, p) && SameShape(At(n, p), m) && ValidPath(n, x)
    ensures ValidPath(Replace(n, p, m), x)
  {
    ReplaceSameShape(n, p, m);
    SameShapePath(n, Replace(n, p, m), x);
  }

  /** Replacing the subtree at `p` by itself changes nothing. */
  lemma {:induction false} ReplaceSelf(n: Node, p: Path)
    requires ValidPath(n, p)
    ensures Replace(n, p, At(n, p)) == n
    decreases |p|
  {
    if |p| > 0 {
      ReplaceSelf(n.children[p[0]], p[1..]);
    }
  }

  /** A second replacement at the same path overrides the first. */
  lemma {:induction false} ReplaceTwice(n: Node, p: Path, m1: Node, m2: Node)
    requires ValidPath(n, p)
    ensures Replace(Replace(n, p, m1), p, m2) == Replace(n, p, m2)
    decreases |p|
  {
    if |p| > 0 {
      ReplaceTwice(n.children[p[0]], p[1..], m1, m2);
    }
  }

  /** Extending a path by one child index; writing that child is writing the parent
      with one child changed. */
  lemma {:induction false} ReplaceChild(n: Node, p: Path, g: Node, j: nat, c: Node)
    requires ValidPath(n, p) && g.Group? && j < |g.children|
    ensures ValidPath(Replace(n, p, g), p + [j])
    ensures At(Replace(n, p, g), p + [j]) == g.children[j]
    ensures Replace(Replace(n, p, g), p + [j], c) == Replace(n, p, g.(children := g.children[j := c]))
    decreases |p|
  {
    if |p| == 0 {
      assert p + [j] == [j];
    } else {
      assert (p + [j])[0] == p[0] && (p + [j])[1..] == p[1..] + [j];
      ReplaceChild(n.children[p[0]], p[1..], g, j, c);
    }
  }

  /** The path from `n` to one of its children's descendants: `p + [j]` leads to
      child `j` of the node at `p`. */
  lemma {:induction false} AtChild(n: Node, p: Path, j: nat)
    requires ValidPath(n, p) && At(n, p).Group? && j < |At(n, p).children|
    ensures ValidPath(n, p + [j]) && At(n, p + [j]) == At(n, p).children[j]
  {
    ReplaceSelf(n, p);
    ReplaceChild(n, p, At(n, p), j, At(n, p).children[j]);
  }

  /** A path through `p` splits into `p` and a path inside the node at `p`. */
  lemma {:induction false} PathSplit(n: Node, p: Path, x: Path)
    requires p <= x && ValidPath(n, x)
    ensures ValidPath(n, p) && ValidPath(At(n, p), x[|p|..])
    ensures At(n, x) == At(At(n, p), x[|p|..])
    decreases |p|
  {
    if |p| > 0 {
      assert p[1..] <= x[1..];
      assert x[1..][|p| - 1..] == x[|p|..];
      PathSplit(n.children[p[0]], p[1..], x[1..]);
    }
  }

  /** Writing a node seen from one of its ancestors: the ancestor's subtree
      is rewritten at the rest of the path. */
  lemma {:induction false} ReplaceInside(n: Node, q: Path, x: Path, m: Node)
    requires ValidPath(n, x) && q <= x
    ensures ValidPath(n, q) && ValidPath(Replace(n, x, m), q) && ValidPath(At(n, q), x[|q|..])
    ensures At(Replace(n, x, m), q) == Replace(At(n, q), x[|q|..], m)
    decreases |q|
  {
    PathSplit(n, q, x);
    if |q| > 0 {
      assert q[1..] <= x[1..];
      assert x[1..][|q| - 1..] == x[|q|..];
      ReplaceInside(n.children[q[0]], q[1..], x[1..], m);
    }
  }

  /** A replacement at `p` leaves every node off the subtree at `p` with its own
      fields, and every node beside the path to `p` entirely unchanged. */
  lemma {:induction false} ReplaceFrame(n: Node, p: Path, m: Node, x: Path)
    requires ValidPath(n, p) && ValidPath(n, x) && !(p <= x)
    ensures ValidPath(Replace(n, p, m), x)
    ensures Own(At(Replace(n, p, m), x)) == Own(At(n, x))
    ensures !(x <= p) ==> At(Replace(n, p, m), x) == At(n, x)
    decreases |x|
  {
    if |x| > 0 {
      if p[0] == x[0] {
        assert !(p[1..] <= x[1..]);
        assert !(x <= p) ==> !(x[1..] <= p[1..]);
        ReplaceFrame(n.children[p[0]], p[1..], m, x[1..]);
      }
    }
  }
}
