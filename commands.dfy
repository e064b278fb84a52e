/** The mutation commands as functions on the tree: a leaf click, the enable
    and disable cascades, and the save of the edit form. These specify the
    methods of `MindMap` and carry the properties the commands promise. */
module Commands {
  import opened Rubric
  import opened Scoring

  /** isNodeEnabled: a leaf is always enabled for selection; a group is
      enabled when its own flag is set. */
  predicate IsNodeEnabled(n: Node) {
    n.Leaf? || n.enabled
  }

  /** `p` leads to a leaf below the root: a node the click handler accepts. */
  predicate IsLeafPath(root: Node, p: Path) {
    |p| > 0 && ValidPath(root, p) && At(root, p).Leaf?
  }

  function Parent(p: Path): Path
    requires |p| > 0
  {
    p[..|p| - 1]
  }

  function Last(p: Path): nat
    requires |p| > 0
  {
    p[|p| - 1]
  }

  /** `leafNode.parent`: the group holding the leaf, as its child `Last(p)`. */
  function ParentNode(root: Node, p: Path): (g: Node)
    requires IsLeafPath(root, p)
    ensures ValidPath(root, Parent(p)) && g == At(root, Parent(p))
    ensures g.Group? && Last(p) < |g.children| && g.children[Last(p)] == At(root, p)
    ensures Parent(p) + [Last(p)] == p
  {
    assert Parent(p) <= p;
    PathSplit(root, Parent(p), p);
    assert p[|Parent(p)|..] == [Last(p)];
    At(root, Parent(p))
  }

  /** The children of an OR group after a click on child `i`: each leaf child
      is selected exactly when it is child `i`; group children are untouched. */
  function SelectOnly(kids: seq<Node>, i: nat): (r: seq<Node>)
    ensures |r| == |kids|
  {
    seq(|kids|, k requires 0 <= k < |kids| =>
      if kids[k].Leaf? then kids[k].(selected := k == i) else kids[k])
  }

  /** handleLeafClick: nothing happens under a disabled parent; under AND the
      leaf's selection flips; under OR the leaf becomes the only selected leaf
      among its siblings; under any other operator nothing happens. */
  function Click(root: Node, p: Path): Node
    requires IsLeafPath(root, p)
  {
    var parent := ParentNode(root, p);
    var leaf := At(root, p);
    if !IsNodeEnabled(parent) then root
    else
      match parent.op
      case And => Replace(root, p, leaf.(selected := !leaf.selected))
      case Or => Replace(root, Parent(p), parent.(children := SelectOnly(parent.children, Last(p))))
      case Other => root
  }

  /** enableNodeAndChildren: the node and every group below it enabled;
      leaves are left alone. */
  function Enabled(n: Node): Node {
    match n
    case Leaf(_, _, _) => n
    case Group(_, _, _, _, kids) =>
      n.(enabled := true, children := seq(|kids|, k requires 0 <= k < |kids| => Enabled(kids[k])))
  }

  /** disableNodeAndChildren: the node and every group below it disabled,
      every leaf below it deselected. */
  function Disabled(n: Node): Node {
    match n
    case Leaf(_, _, _) => n.(selected := false)
    case Group(_, _, _, _, kids) =>
      n.(enabled := false, children := seq(|kids|, k requires 0 <= k < |kids| => Disabled(kids[k])))
  }

  /** The data update of saveNodeChanges on the node at `p`, with the form's
      number `value` and its enabled checkbox `checked`: a leaf takes the
      number as its weight; a group takes it as its max_score and is then
      enabled or disabled with its subtree. */
  function Saved(root: Node, p: Path, value: int, checked: bool): Node
    requires ValidPath(root, p)
  {
    var n := At(root, p);
    if n.Leaf? then Replace(root, p, n.(weight := value))
    else
      var capped := n.(maxScore := Some(value));
      Replace(root, p, if checked then Enabled(capped) else Disabled(capped))
  }

  // ----- Leaf clicks -----

  /** Below a leaf there is nothing: a valid path through it ends at it. */
  lemma {:induction false} LeafPathEnd(root: Node, p: Path, x: Path)
    requires ValidPath(root, p) && At(root, p).Leaf? && ValidPath(root, x)
    ensures p <= x ==> x == p
  {
    if p <= x {
      PathSplit(root, p, x);
      assert x == p + x[|p|..];
    }
  }

  /** A click keeps the shape of the tree, so the clicked path still leads to a leaf. */
  lemma ClickShape(root: Node, p: Path)
    requires IsLeafPath(root, p)
    ensures SameShape(root, Click(root, p)) && IsLeafPath(Click(root, p), p)
  {
    var parent, leaf := ParentNode(root, p), At(root, p);
    var r := Click(root, p);
    if IsNodeEnabled(parent) && parent.op == And {
      ReplaceSameShape(root, p, leaf.(selected := !leaf.selected));
    } else if IsNodeEnabled(parent) && parent.op == Or {
      var g' := parent.(children := SelectOnly(parent.children, Last(p)));
      assert SameShape(parent, g') by {
        forall k | 0 <= k < |parent.children| ensures SameShape(parent.children[k], g'.children[k]) {
          SameShapeRefl(parent.children[k]);
        }
      }
      ReplaceSameShape(root, Parent(p), g');
      AtChild(r, Parent(p), Last(p));
    } else {
      SameShapeRefl(root);
    }
  }

  /** A leaf's score is its weight when selected and 0 otherwise, whatever
      the state of its parent group, while a disabled parent scores
      min(0, max_score) whatever its leaves hold. */
  lemma LeafScoreIgnoresParent(root: Node, p: Path, e: bool)
    requires IsLeafPath(root, p)
    ensures var leaf, g := At(root, p), ParentNode(root, p);
      var r := Replace(root, Parent(p), g.(enabled := e));
      ValidPath(r, p) && At(r, p) == leaf &&
      Score(At(r, p)) == (if leaf.selected then leaf.weight else 0) &&
      (!e ==> Score(At(r, Parent(p))) == Min(0, Cap(g.maxScore)))
  {
    var g := ParentNode(root, p);
    ReplaceChild(root, Parent(p), g.(enabled := e), Last(p), g.children[Last(p)]);
  }

  /** Under a disabled parent, or a parent with an operator other than AND and
      OR, a click changes nothing. */
  lemma ClickIgnored(root: Node, p: Path)
    requires IsLeafPath(root, p)
    requires !ParentNode(root, p).enabled || ParentNode(root, p).op == Other
    ensures Click(root, p) == root
  {
  }

  /** Under an enabled AND parent, a click flips exactly the clicked leaf's
      selection, every other node keeps its own fields, and a second click
      restores the tree. */
  lemma ClickAnd(root: Node, p: Path)
    requires IsLeafPath(root, p)
    requires ParentNode(root, p).enabled && ParentNode(root, p).op == And
    ensures var leaf, r := At(root, p), Click(root, p);
      ValidPath(r, p) && At(r, p) == leaf.(selected := !leaf.selected)
    ensures forall x :: ValidPath(root, x) && x != p ==>
      ValidPath(Click(root, p), x) && Own(At(Click(root, p), x)) == Own(At(root, x))
    ensures IsLeafPath(Click(root, p), p) && Click(Click(root, p), p) == root
  {
    var leaf := At(root, p);
    var t := leaf.(selected := !leaf.selected);
    var r := Click(root, p);
    assert r == Replace(root, p, t);
    forall x | ValidPath(root, x) && x != p
      ensures ValidPath(r, x) && Own(At(r, x)) == Own(At(root, x))
    {
      LeafPathEnd(root, p, x);
      ReplaceFrame(root, p, t, x);
    }
    ClickShape(root, p);
    var q := Parent(p);
    ReplaceFrame(root, p, t, q);
    assert ParentNode(r, p).enabled && ParentNode(r, p).op == And;
    ReplaceTwice(root, p, t, leaf);
    ReplaceSelf(root, p);
  }

  lemma SelectOnlyTwice(kids: seq<Node>, i: nat)
    ensures SelectOnly(SelectOnly(kids, i), i) == SelectOnly(kids, i)
  {
  }

  /** Under an enabled OR parent, after a click the clicked leaf is selected,
      every other leaf sibling is deselected, group siblings and every node
      outside the parent's subtree keep their own fields, and repeating the
      click changes nothing. */
  lemma ClickOr(root: Node, p: Path)
    requires IsLeafPath(root, p)
    requires ParentNode(root, p).enabled && ParentNode(root, p).op == Or
    ensures IsLeafPath(Click(root, p), p)
    ensures var kids, kids', i := ParentNode(root, p).children, ParentNode(Click(root, p), p).children, Last(p);
      |kids'| == |kids| &&
      Own(ParentNode(Click(root, p), p)) == Own(ParentNode(root, p)) &&
      kids'[i] == kids[i].(selected := true) &&
      (forall j :: 0 <= j < |kids| && j != i && kids[j].Leaf? ==> kids'[j] == kids[j].(selected := false)) &&
      (forall j :: 0 <= j < |kids| && kids[j].Group? ==> kids'[j] == kids[j])
    ensures forall x :: ValidPath(root, x) && !(Parent(p) < x) ==>
      ValidPath(Click(root, p), x) && Own(At(Click(root, p), x)) == Own(At(root, x))
    ensures Click(Click(root, p), p) == Click(root, p)
  {
    var q, i := Parent(p), Last(p);
    var g := ParentNode(root, p);
    var g' := g.(children := SelectOnly(g.children, i));
    var r := Click(root, p);
    assert r == Replace(root, q, g');
    ClickShape(root, p);
    assert ParentNode(r, p) == g';
    forall x | ValidPath(root, x) && !(q < x)
      ensures ValidPath(r, x) && Own(At(r, x)) == Own(At(root, x))
    {
      if x != q {
        ReplaceFrame(root, q, g', x);
      }
    }
    SelectOnlyTwice(g.children, i);
    ReplaceTwice(root, q, g', g');
  }

  /** A click never changes the effective maximum: it depends on which groups
      are enabled, not on which leaves are selected. */
  lemma ClickKeepsEffectiveMax(root: Node, p: Path)
    requires IsLeafPath(root, p)
    ensures EffectiveMax(Click(root, p)) == EffectiveMax(root)
  {
    var g := ParentNode(root, p);
    var leaf := At(root, p);
    if IsNodeEnabled(g) && g.op == And {
      EffectiveMaxCongruence(root, p, leaf.(selected := !leaf.selected));
    } else if IsNodeEnabled(g) && g.op == Or {
      var kids := g.children;
      var kids' := SelectOnly(kids, Last(p));
      assert HasLeafChild(kids') == HasLeafChild(kids) by {
        forall k | 0 <= k < |kids| ensures kids'[k].Leaf? == kids[k].Leaf? {
        }
      }
      assert EffectiveMaxes(kids') == EffectiveMaxes(kids) by {
        forall k | 0 <= k < |kids| ensures EffectiveMaxes(kids')[k] == EffectiveMaxes(kids)[k] {
        }
      }
      EffectiveMaxCongruence(root, Parent(p), g.(children := kids'));
    }
  }

  // ----- Enable and disable cascades -----

  lemma {:induction false} EnabledShape(n: Node)
    ensures SameShape(n, Enabled(n))
    decreases n
  {
    match n
    case Leaf(_, _, _) =>
    case Group(_, _, _, _, kids) =>
      forall k | 0 <= k < |kids| ensures SameShape(kids[k], Enabled(n).children[k]) {
        EnabledShape(kids[k]);
      }
  }

  lemma {:induction false} EnabledAt(n: Node, x: Path)
    requires ValidPath(n, x)
    ensures ValidPath(Enabled(n), x) && At(Enabled(n), x) == Enabled(At(n, x))
    decreases |x|
  {
    if |x| > 0 {
      EnabledAt(n.children[x[0]], x[1..]);
    }
  }

  /** After the enable cascade, every group of the subtree is enabled with its
      other fields unchanged, and every leaf is unchanged (selection and weight
      included). */
  lemma {:induction false} EnableCascade(n: Node, x: Path)
    requires ValidPath(n, x)
    ensures ValidPath(Enabled(n), x)
    ensures var a, b := At(n, x), At(Enabled(n), x);
      (a.Leaf? ==> b == a) &&
      (a.Group? ==> b.Group? && b.enabled && Own(b) == Own(a).(enabled := true) && |b.children| == |a.children|)
  {
    EnabledAt(n, x);
  }

  /** Enabling twice is enabling once. */
  lemma {:induction false} EnabledIdempotent(n: Node)
    ensures Enabled(Enabled(n)) == Enabled(n)
    decreases n
  {
    match n
    case Leaf(_, _, _) =>
    case Group(_, _, _, _, kids) =>
      var e := Enabled(n);
      forall k | 0 <= k < |kids| ensures Enabled(e.children[k]) == e.children[k] {
        EnabledIdempotent(kids[k]);
      }
      assert Enabled(e).children == e.children;
  }

  lemma {:induction false} DisabledShape(n: Node)
    ensures SameShape(n, Disabled(n))
    decreases n
  {
    match n
    case Leaf(_, _, _) =>
    case Group(_, _, _, _, kids) =>
      forall k | 0 <= k < |kids| ensures SameShape(kids[k], Disabled(n).children[k]) {
        DisabledShape(kids[k]);
      }
  }

  lemma {:induction false} DisabledAt(n: Node, x: Path)
    requires ValidPath(n, x)
    ensures ValidPath(Disabled(n), x) && At(Disabled(n), x) == Disabled(At(n, x))
    decreases |x|
  {
    if |x| > 0 {
      DisabledAt(n.children[x[0]], x[1..]);
    }
  }

  /** After the disable cascade, every group of the subtree is disabled and
      every leaf deselected, with names, weights, operators, caps and shape
      unchanged. */
  lemma {:induction false} DisableCascade(n: Node, x: Path)
    requires ValidPath(n, x)
    ensures ValidPath(Disabled(n), x)
    ensures var a, b := At(n, x), At(Disabled(n), x);
      (a.Leaf? ==> b == a.(selected := false)) &&
      (a.Group? ==> b.Group? && !b.enabled && Own(b) == Own(a).(enabled := false) && |b.children| == |a.children|)
  {
    DisabledAt(n, x);
  }

  /** A disabled group scores min(0, cap) and has effective maximum 0,
      whatever was selected below it. */
  lemma DisabledScore(g: Node)
    requires g.Group?
    ensures Score(Disabled(g)) == Min(0, Cap(g.maxScore))
    ensures EffectiveMax(Disabled(g)) == 0
  {
  }

  /** No leaf of the tree is selected. */
  ghost predicate NoneSelected(n: Node) {
    match n
    case Leaf(_, _, selected) => !selected
    case Group(_, _, _, _, kids) => forall k :: 0 <= k < |kids| ==> NoneSelected(kids[k])
  }

  lemma {:induction false} SumOfZeros(xs: seq<int>)
    requires forall k :: 0 <= k < |xs| ==> xs[k] == 0
    ensures Sum(xs) == 0
  {
    if |xs| > 0 {
      SumOfZeros(xs[..|xs| - 1]);
    }
  }

  lemma {:induction false} NoneSelectedScoresZero(n: Node)
    requires NoneSelected(n) && CapsNonNegative(n)
    ensures Score(n) == 0
    decreases n
  {
    match n
    case Leaf(_, _, _) =>
    case Group(_, op, _, enabled, kids) =>
      var scores := Scores(kids);
      forall k | 0 <= k < |kids| ensures scores[k] == 0 {
        NoneSelectedScoresZero(kids[k]);
      }
      if |kids| > 0 && enabled {
        if op == And {
          SumOfZeros(scores);
        } else if op == Or {
          assert Max(scores) in scores;
        }
      }
  }

  lemma {:induction false} ReenabledNoneSelected(n: Node)
    ensures NoneSelected(Enabled(Disabled(n)))
    ensures CapsNonNegative(n) ==> CapsNonNegative(Enabled(Disabled(n)))
    decreases n
  {
    match n
    case Leaf(_, _, _) =>
    case Group(_, _, _, _, kids) =>
      var e := Enabled(Disabled(n));
      forall k | 0 <= k < |kids|
        ensures NoneSelected(e.children[k])
        ensures CapsNonNegative(n) ==> CapsNonNegative(e.children[k])
      {
        ReenabledNoneSelected(kids[k]);
      }
  }

  /** Re-enabling a disabled group does not bring its selections back: no leaf
      below it is selected, and with non-negative caps it scores 0. */
  lemma ReenableAfterDisable(n: Node)
    ensures NoneSelected(Enabled(Disabled(n)))
    ensures CapsNonNegative(n) ==> Score(Enabled(Disabled(n))) == 0
  {
    ReenabledNoneSelected(n);
    if CapsNonNegative(n) {
      NoneSelectedScoresZero(Enabled(Disabled(n)));
    }
  }

  // ----- Saving the edit form -----

  /** Saving a leaf sets its weight and changes no other node; when the leaf is
      not selected, neither the score nor the effective maximum of the tree
      changes. */
  lemma SaveLeaf(root: Node, p: Path, value: int, checked: bool)
    requires ValidPath(root, p) && At(root, p).Leaf?
    ensures var r := Saved(root, p, value, checked);
      ValidPath(r, p) && At(r, p) == At(root, p).(weight := value) && SameShape(root, r)
    ensures forall x :: ValidPath(root, x) && x != p ==>
      ValidPath(Saved(root, p, value, checked), x) &&
      Own(At(Saved(root, p, value, checked), x)) == Own(At(root, x))
    ensures EffectiveMax(Saved(root, p, value, checked)) == EffectiveMax(root)
    ensures !At(root, p).selected ==> Score(Saved(root, p, value, checked)) == Score(root)
  {
    var t := At(root, p).(weight := value);
    ReplaceSameShape(root, p, t);
    forall x | ValidPath(root, x) && x != p
      ensures ValidPath(Saved(root, p, value, checked), x)
      ensures Own(At(Saved(root, p, value, checked), x)) == Own(At(root, x))
    {
      LeafPathEnd(root, p, x);
      ReplaceFrame(root, p, t, x);
    }
    EffectiveMaxCongruence(root, p, t);
    if !At(root, p).selected {
      ScoreCongruence(root, p, t);
    }
  }

  /** Saving a group sets its max_score and then runs the cascade the checkbox
      asks for; every node outside its subtree keeps its own fields, and every
      group below it keeps its own fields but for `enabled`. Checked, every
      group below it is enabled and every leaf below it unchanged.
      Unchecked, every group below it is disabled, every leaf below it
      deselected, and the group scores min(0, value) with effective maximum 0. */
  lemma SaveGroup(root: Node, p: Path, value: int, checked: bool)
    requires ValidPath(root, p) && At(root, p).Group?
    ensures var g, r := At(root, p), Saved(root, p, value, checked);
      ValidPath(r, p) && SameShape(root, r) &&
      At(r, p).maxScore == Some(value) && At(r, p).enabled == checked &&
      At(r, p).name == g.name && At(r, p).op == g.op
    ensures forall x :: ValidPath(root, x) && !(p <= x) ==>
      ValidPath(Saved(root, p, value, checked), x) &&
      Own(At(Saved(root, p, value, checked), x)) == Own(At(root, x))
    ensures var g, s := At(root, p), At(Saved(root, p, value, checked), p);
      forall x :: ValidPath(g, x) ==>
        (ValidPath(s, x) &&
         (At(g, x).Leaf? ==> At(s, x) == (if checked then At(g, x) else At(g, x).(selected := false))) &&
         (At(g, x).Group? ==> At(s, x).Group? && At(s, x).enabled == checked) &&
         (|x| > 0 && At(g, x).Group? ==> Own(At(s, x)) == Own(At(g, x).(enabled := checked))))
    ensures !checked ==>
      Score(At(Saved(root, p, value, checked), p)) == Min(0, value) &&
      EffectiveMax(At(Saved(root, p, value, checked), p)) == 0
  {
    var g := At(root, p);
    var capped := g.(maxScore := Some(value));
    var m := if checked then Enabled(capped) else Disabled(capped);
    forall x | ValidPath(g, x)
      ensures ValidPath(m, x)
      ensures At(g, x).Leaf? ==> At(m, x) == (if checked then At(g, x) else At(g, x).(selected := false))
      ensures At(g, x).Group? ==> At(m, x).Group? && At(m, x).enabled == checked
      ensures |x| > 0 && At(g, x).Group? ==> Own(At(m, x)) == Own(At(g, x).(enabled := checked))
    {
      assert ValidPath(capped, x) && (|x| > 0 ==> At(capped, x) == At(g, x));
      if checked { EnableCascade(capped, x); } else { DisableCascade(capped, x); }
    }
    assert SameShape(At(root, p), m) by {
      SameShapeRefl(At(root, p));
      if checked { EnabledShape(capped); } else { DisabledShape(capped); }
      SameShapeTrans(At(root, p), capped, m);
    }
    ReplaceSameShape(root, p, m);
    forall x | ValidPath(root, x) && !(p <= x)
      ensures ValidPath(Saved(root, p, value, checked), x)
      ensures Own(At(Saved(root, p, value, checked), x)) == Own(At(root, x))
    {
      ReplaceFrame(root, p, m, x);
    }
  }

  // ----- OR exclusivity -----

  /** Under every OR group at most one leaf child is selected. */
  ghost predicate Exclusive(n: Node) {
    match n
    case Leaf(_, _, _) => true
    case Group(_, op, _, _, kids) =>
      (op == Or ==> forall a, b ::
         (0 <= a < |kids| && 0 <= b < |kids| &&
          kids[a].Leaf? && kids[a].selected && kids[b].Leaf? && kids[b].selected) ==> a == b) &&
      forall k :: 0 <= k < |kids| ==> Exclusive(kids[k])
  }

  lemma {:induction false} ExclusiveAt(n: Node, x: Path)
    requires Exclusive(n) && ValidPath(n, x)
    ensures Exclusive(At(n, x))
    decreases |x|
  {
    if |x| > 0 {
      ExclusiveAt(n.children[x[0]], x[1..]);
    }
  }

  /** Replacing a subtree by an exclusive one of the same kind keeps the tree
      exclusive, unless a leaf becomes selected under an OR parent. */
  lemma {:induction false} ExclusiveReplace(n: Node, p: Path, m: Node)
    requires ValidPath(n, p) && Exclusive(n) && Exclusive(m) && m.Leaf? == At(n, p).Leaf?
    requires m.Leaf? && m.selected && !At(n, p).selected ==>
      |p| > 0 && ValidPath(n, Parent(p)) && At(n, Parent(p)).Group? && At(n, Parent(p)).op != Or
    ensures Exclusive(Replace(n, p, m))
    decreases |p|
  {
    if |p| > 0 {
      var kids, j := n.children, p[0];
      var rest := p[1..];
      var kids' := Replace(n, p, m).children;
      if |rest| > 0 {
        assert Parent(p) == [j] + Parent(rest);
        assert m.Leaf? && m.selected && !At(kids[j], rest).selected ==>
          ValidPath(kids[j], Parent(rest)) && At(kids[j], Parent(rest)) == At(n, Parent(p));
        ExclusiveReplace(kids[j], rest, m);
      } else {
        assert Parent(p) == [];
      }
      assert kids'[j].Leaf? == kids[j].Leaf?;
      assert kids'[j].Leaf? ==> (kids'[j].selected ==> kids[j].selected || n.op != Or);
    }
  }

  lemma {:induction false} EnabledExclusive(n: Node)
    requires Exclusive(n)
    ensures Exclusive(Enabled(n))
    decreases n
  {
    match n
    case Leaf(_, _, _) =>
    case Group(_, _, _, _, kids) =>
      var e := Enabled(n);
      forall k | 0 <= k < |kids| ensures Exclusive(e.children[k]) {
        EnabledExclusive(kids[k]);
      }
      forall k | 0 <= k < |kids| && kids[k].Leaf? ensures e.children[k] == kids[k] {
        assert e.children[k] == Enabled(kids[k]);
      }
  }

  lemma {:induction false} DisabledExclusive(n: Node)
    ensures Exclusive(Disabled(n))
    decreases n
  {
    match n
    case Leaf(_, _, _) =>
    case Group(_, _, _, _, kids) =>
      var d := Disabled(n);
      forall k | 0 <= k < |kids| ensures Exclusive(d.children[k]) {
        DisabledExclusive(kids[k]);
      }
  }

  /** Every command keeps OR exclusivity: clicks, and saves with either
      setting of the checkbox. */
  lemma ClickExclusive(root: Node, p: Path)
    requires IsLeafPath(root, p) && Exclusive(root)
    ensures Exclusive(Click(root, p))
  {
    var g, leaf, q, i := ParentNode(root, p), At(root, p), Parent(p), Last(p);
    if IsNodeEnabled(g) && g.op == And {
      ExclusiveReplace(root, p, leaf.(selected := !leaf.selected));
    } else if IsNodeEnabled(g) && g.op == Or {
      var kids := g.children;
      var g' := g.(children := SelectOnly(kids, i));
      ExclusiveAt(root, q);
      assert Exclusive(g') by {
        forall k | 0 <= k < |kids| ensures Exclusive(g'.children[k]) {
          assert g'.children[k].Leaf? || g'.children[k] == kids[k];
        }
      }
      ExclusiveReplace(root, q, g');
    }
  }

  lemma SaveExclusive(root: Node, p: Path, value: int, checked: bool)
    requires ValidPath(root, p) && Exclusive(root)
    ensures Exclusive(Saved(root, p, value, checked))
  {
    var n := At(root, p);
    ExclusiveAt(root, p);
    if n.Leaf? {
      ExclusiveReplace(root, p, n.(weight := value));
    } else {
      var capped := n.(maxScore := Some(value));
      if checked {
        EnabledExclusive(capped);
        ExclusiveReplace(root, p, Enabled(capped));
      } else {
        DisabledExclusive(capped);
        ExclusiveReplace(root, p, Disabled(capped));
      }
    }
  }
}
