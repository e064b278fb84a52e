/** The scoring engine: a node's score, its effective maximum (the
    normalisation denominator) and the normalised 0-100 display score. */
module Scoring {
  import opened Rubric

  /** `Math.min(a, b)`. */
  function Min(a: int, b: int): (r: int)
    ensures r <= a && r <= b && (r == a || r == b)
  {
    if a <= b then a else b
  }

  /** `Math.max(...xs)` over a non-empty list. */
  function Max(xs: seq<int>): (r: int)
    requires |xs| > 0
    ensures r in xs
    ensures forall k :: 0 <= k < |xs| ==> xs[k] <= r
  {
    if |xs| == 1 then xs[0]
    else
      var m := Max(xs[..|xs| - 1]);
      assert forall k :: 0 <= k < |xs| - 1 ==> xs[..|xs| - 1][k] == xs[k];
      if xs[|xs| - 1] > m then xs[|xs| - 1] else m
  }

  /** `xs.reduce((sum, x) => sum + x, 0)`: a left fold. */
  function Sum(xs: seq<int>): int {
    if |xs| == 0 then 0 else Sum(xs[..|xs| - 1]) + xs[|xs| - 1]
  }

  /** `children.map(calculateNodeScore)`. */
  function Scores(kids: seq<Node>): (r: seq<int>)
    ensures |r| == |kids|
    decreases kids, 0
  {
    seq(|kids|, k requires 0 <= k < |kids| => Score(kids[k]))
  }

  /** calculateNodeScore: a leaf scores its weight when selected; an enabled
      group with children takes the maximum (OR) or the sum (AND) of its
      children's scores and nothing under any other operator; the result is
      capped by max_score. */
  function Score(n: Node): (r: int)
    ensures n.Group? ==> r <= Cap(n.maxScore)
    decreases n, 1
  {
    match n
    case Leaf(_, weight, selected) => if selected then weight else 0
    case Group(_, op, maxScore, enabled, kids) =>
      var raw :=
        if |kids| > 0 && enabled then
          match op
          case Or => Max(Scores(kids))
          case And => Sum(Scores(kids))
          case Other => 0
        else 0;
      Min(raw, Cap(maxScore))
  }

  /** calculateScore. */
  function CalculateScore(root: Node): int {
    Score(root)
  }

  /** `children.some(child => child.type === "leaf")`. */
  predicate HasLeafChild(kids: seq<Node>) {
    exists k :: 0 <= k < |kids| && kids[k].Leaf?
  }

  /** `children.map(calculateEffectiveMaxScore)`. */
  function EffectiveMaxes(kids: seq<Node>): (r: seq<int>)
    ensures |r| == |kids|
    decreases kids, 0
  {
    seq(|kids|, k requires 0 <= k < |kids| => EffectiveMax(kids[k]))
  }

  /** calculateEffectiveMaxScore. A leaf has no `enabled` field, so the
      `!node.enabled` guard already answers 0 for it. */
  function EffectiveMax(n: Node): int
    decreases n, 1
  {
    match n
    case Leaf(_, _, _) => 0
    case Group(_, _, maxScore, enabled, kids) =>
      if !enabled then 0
      else if HasLeafChild(kids) then Cap(maxScore)
      else if |kids| > 0 then Sum(EffectiveMaxes(kids))
      else Cap(maxScore)
  }

  /** The normalised score of updateScoreDisplay, before two-decimal formatting:
      the score as a percentage of the effective maximum, and 0 when the
      effective maximum is not positive. */
  function NormalizedScore(root: Node): (r: real)
    ensures EffectiveMax(root) <= 0 ==> r == 0.0
    ensures EffectiveMax(root) > 0 ==>
      r * (EffectiveMax(root) as real) == (CalculateScore(root) as real) * 100.0
  {
    var score := CalculateScore(root);
    var effectiveMax := EffectiveMax(root);
    if effectiveMax > 0 then (score as real / effectiveMax as real) * 100.0 else 0.0
  }

  // ----- Properties of the scoring rules -----

  /** The group rule in full: an enabled group with children scores
      min(best child, cap) under OR and min(sum of children, cap) under AND;
      a disabled or childless group, or one with another operator, scores
      min(0, cap). */
  lemma GroupScore(g: Node)
    requires g.Group?
    ensures var kids, cap := g.children, Cap(g.maxScore);
      if |kids| > 0 && g.enabled && g.op == Or then
        (exists k :: 0 <= k < |kids| && Score(g) == Min(Score(kids[k]), cap)) &&
        (forall k :: 0 <= k < |kids| ==> Score(g) >= Min(Score(kids[k]), cap))
      else if |kids| > 0 && g.enabled && g.op == And then
        Score(g) == Min(Sum(Scores(kids)), cap)
      else
        Score(g) == Min(0, cap)
  {
    var kids, cap := g.children, Cap(g.maxScore);
    if |kids| > 0 && g.enabled && g.op == Or {
      var m := Max(Scores(kids));
      var k :| 0 <= k < |kids| && Scores(kids)[k] == m;
      assert Score(g) == Min(Score(kids[k]), cap);
      forall j | 0 <= j < |kids| ensures Score(g) >= Min(Score(kids[j]), cap) {
        assert Scores(kids)[j] <= m;
      }
    }
  }

  /** The four cases of the effective maximum: 0 for a leaf or a disabled
      group; max_score for an enabled group with a leaf child; the sum of the
      children's effective maxima for an enabled group whose children are all
      groups; max_score for an enabled childless group. */
  lemma EffectiveMaxCases(n: Node)
    ensures !n.Group? || !n.enabled ==> EffectiveMax(n) == 0
    ensures n.Group? && n.enabled && (exists k :: 0 <= k < |n.children| && n.children[k].Leaf?) ==>
      EffectiveMax(n) == Cap(n.maxScore)
    ensures (n.Group? && n.enabled && |n.children| > 0 &&
             forall k :: 0 <= k < |n.children| ==> n.children[k].Group?) ==>
      EffectiveMax(n) == Sum(EffectiveMaxes(n.children))
    ensures n.Group? && n.enabled && |n.children| == 0 ==> EffectiveMax(n) == Cap(n.maxScore)
  {
  }

  /** `a` and `b` differ at most in their leaves: same shape, same group fields. */
  ghost predicate SameGroups(a: Node, b: Node) {
    match a
    case Leaf(_, _, _) => b.Leaf?
    case Group(_, _, _, _, kids) =>
      b.Group? && Own(b) == Own(a) && |b.children| == |kids| &&
      forall k :: 0 <= k < |kids| ==> SameGroups(kids[k], b.children[k])
  }

  /** The effective maximum reads no leaf's weight or selection: trees that
      differ only in their leaves have the same effective maximum. */
  lemma {:induction false} EffectiveMaxIgnoresLeaves(a: Node, b: Node)
    requires SameGroups(a, b)
    ensures EffectiveMax(a) == EffectiveMax(b)
    decreases a
  {
    match a
    case Leaf(_, _, _) =>
    case Group(_, _, _, _, kids) =>
      var kids' := b.children;
      assert HasLeafChild(kids) == HasLeafChild(kids') by {
        forall k | 0 <= k < |kids| ensures kids[k].Leaf? == kids'[k].Leaf? {
        }
      }
      forall k | 0 <= k < |kids| ensures EffectiveMaxes(kids)[k] == EffectiveMaxes(kids')[k] {
        EffectiveMaxIgnoresLeaves(kids[k], kids'[k]);
      }
      assert EffectiveMaxes(kids) == EffectiveMaxes(kids');
  }

  /** Every group's max_score (read with `|| 0`) is non-negative. */
  ghost predicate CapsNonNegative(n: Node) {
    match n
    case Leaf(_, _, _) => true
    case Group(_, _, maxScore, _, kids) =>
      Cap(maxScore) >= 0 && forall k :: 0 <= k < |kids| ==> CapsNonNegative(kids[k])
  }

  /** Every leaf's weight is non-negative. */
  ghost predicate WeightsNonNegative(n: Node) {
    match n
    case Leaf(_, weight, _) => weight >= 0
    case Group(_, _, _, _, kids) => forall k :: 0 <= k < |kids| ==> WeightsNonNegative(kids[k])
  }

  lemma {:induction false} SumMonotone(xs: seq<int>, ys: seq<int>)
    requires |xs| == |ys| && forall k :: 0 <= k < |xs| ==> xs[k] <= ys[k]
    ensures Sum(xs) <= Sum(ys)
  {
    if |xs| > 0 {
      SumMonotone(xs[..|xs| - 1], ys[..|ys| - 1]);
    }
  }

  lemma {:induction false} SumNonNegative(xs: seq<int>)
    requires forall k :: 0 <= k < |xs| ==> xs[k] >= 0
    ensures Sum(xs) >= 0
  {
    if |xs| > 0 {
      SumNonNegative(xs[..|xs| - 1]);
    }
  }

  /** With no negative element, every element is at most the sum. */
  lemma {:induction false} ElementAtMostSum(xs: seq<int>, k: nat)
    requires k < |xs| && forall j :: 0 <= j < |xs| ==> xs[j] >= 0
    ensures xs[k] <= Sum(xs)
  {
    var init := xs[..|xs| - 1];
    SumNonNegative(init);
    if k < |xs| - 1 {
      ElementAtMostSum(init, k);
    }
  }

  /** With non-negative caps, no group scores more than its effective maximum,
      and effective maxima are non-negative. */
  lemma {:induction false} ScoreWithinEffectiveMax(n: Node)
    requires n.Group? && CapsNonNegative(n)
    ensures 0 <= EffectiveMax(n)
    ensures Score(n) <= EffectiveMax(n)
    decreases n
  {
    var kids := n.children;
    if n.enabled && !HasLeafChild(kids) && |kids| > 0 {
      var scores, maxes := Scores(kids), EffectiveMaxes(kids);
      forall k | 0 <= k < |kids| ensures 0 <= maxes[k] && scores[k] <= maxes[k] {
        assert kids[k].Group?;
        ScoreWithinEffectiveMax(kids[k]);
      }
      SumNonNegative(maxes);
      match n.op
      case Or =>
        var k :| 0 <= k < |kids| && scores[k] == Max(scores);
        ElementAtMostSum(maxes, k);
      case And =>
        SumMonotone(scores, maxes);
      case Other =>
    }
  }

  /** With non-negative weights and caps, every node scores at least 0. */
  lemma {:induction false} ScoreNonNegative(n: Node)
    requires CapsNonNegative(n) && WeightsNonNegative(n)
    ensures Score(n) >= 0
    decreases n
  {
    match n
    case Leaf(_, _, _) =>
    case Group(_, op, _, enabled, kids) =>
      if |kids| > 0 && enabled {
        var scores := Scores(kids);
        forall k | 0 <= k < |kids| ensures scores[k] >= 0 {
          ScoreNonNegative(kids[k]);
        }
        if op == And {
          SumNonNegative(scores);
        } else if op == Or {
          assert scores[0] <= Max(scores);
        }
      }
  }

  /** With non-negative weights and caps, the displayed score stays within
      0 to 100; a leaf root has effective maximum 0 and shows 0. */
  lemma NormalizedInRange(root: Node)
    requires CapsNonNegative(root) && WeightsNonNegative(root)
    ensures 0.0 <= NormalizedScore(root) <= 100.0
  {
    if root.Leaf? {
      assert EffectiveMax(root) == 0;
      return;
    }
    ScoreWithinEffectiveMax(root);
    ScoreNonNegative(root);
    var s, e := CalculateScore(root) as real, EffectiveMax(root) as real;
    if e > 0.0 {
      RatioBounds(s, e);
    }
  }

  lemma RatioBounds(s: real, e: real)
    requires 0.0 <= s <= e && e > 0.0
    ensures 0.0 <= (s / e) * 100.0 <= 100.0
  {
    var q := s / e;
    assert q * e == s;
    assert (1.0 - q) * e == e - s;
  }

  /** The score of the tree depends on a subtree only through that subtree's score. */
  lemma {:induction false} ScoreCongruence(n: Node, p: Path, m: Node)
    requires ValidPath(n, p) && Score(m) == Score(At(n, p))
    ensures Score(Replace(n, p, m)) == Score(n)
    decreases |p|
  {
    if |p| > 0 {
      var kids, j := n.children, p[0];
      var kids' := Replace(n, p, m).children;
      ScoreCongruence(kids[j], p[1..], m);
      assert Scores(kids') == Scores(kids) by {
        forall k | 0 <= k < |kids| ensures Scores(kids')[k] == Scores(kids)[k] {
        }
      }
    }
  }

  /** An unselected leaf contributes nothing: whatever its weight, the score
      of each of its ancestors stays the same. */
  lemma UnselectedLeafContributesNothing(root: Node, p: Path, q: Path, w: int)
    requires ValidPath(root, p) && At(root, p).Leaf? && !At(root, p).selected && q <= p
    ensures ValidPath(root, q) && ValidPath(Replace(root, p, At(root, p).(weight := w)), q)
    ensures Score(At(Replace(root, p, At(root, p).(weight := w)), q)) == Score(At(root, q))
  {
    var m := At(root, p).(weight := w);
    ReplaceInside(root, q, p, m);
    PathSplit(root, q, p);
    ScoreCongruence(At(root, q), p[|q|..], m);
  }

  /** The effective maximum of the tree depends on a subtree only through that
      subtree's effective maximum and whether it is a leaf. */
  lemma {:induction false} EffectiveMaxCongruence(n: Node, p: Path, m: Node)
    requires ValidPath(n, p) && m.Leaf? == At(n, p).Leaf?
    requires EffectiveMax(m) == EffectiveMax(At(n, p))
    ensures EffectiveMax(Replace(n, p, m)) == EffectiveMax(n)
    decreases |p|
  {
    if |p| > 0 {
      var kids, j := n.children, p[0];
      var kids' := Replace(n, p, m).children;
      EffectiveMaxCongruence(kids[j], p[1..], m);
      assert kids'[j].Leaf? == kids[j].Leaf?;
      assert HasLeafChild(kids') == HasLeafChild(kids) by {
        forall k | 0 <= k < |kids| ensures kids'[k].Leaf? == kids[k].Leaf? {
        }
      }
      assert EffectiveMaxes(kids') == EffectiveMaxes(kids) by {
        forall k | 0 <= k < |kids| ensures EffectiveMaxes(kids')[k] == EffectiveMaxes(kids)[k] {
        }
      }
    }
  }

  /** The worked example of the rubric: an AND root capped at 100 whose only
      child is an enabled OR section capped at 50 over leaves of weight 10 and 30,
      with the second selected. */
  lemma SectionExample()
    ensures var section := Group("CVSS section", Or, Some(50), true,
                                 [Leaf("A", 10, false), Leaf("B", 30, true)]);
      var root := Group("Root", And, Some(100), true, [section]);
      Score(section) == 30 && EffectiveMax(section) == 50 &&
      CalculateScore(root) == 30 && EffectiveMax(root) == 50 &&
      NormalizedScore(root) == 60.0
  {
    var section := Group("CVSS section", Or, Some(50), true,
                         [Leaf("A", 10, false), Leaf("B", 30, true)]);
    var root := Group("Root", And, Some(100), true, [section]);
    assert Scores(section.children) == [0, 30];
    assert Scores(root.children) == [30];
    assert HasLeafChild(section.children);
    assert !HasLeafChild(root.children);
    assert EffectiveMaxes(root.children) == [50];
  }
}
