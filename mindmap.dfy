/** The application state of the mind map: the rubric tree loaded at start-up
    and the node whose edit form is open. The commands update the tree in
    place, one field write at a time, as the event handlers do. */
module MindMapApp {
  import opened Rubric
  import opened Commands

  /** Children `0 .. j-1` enabled by the cascade, the rest not yet visited. */
  ghost function EnabledUpTo(kids: seq<Node>, j: nat): (r: seq<Node>)
    ensures |r| == |kids|
  {
    seq(|kids|, k requires 0 <= k < |kids| => if k < j then Enabled(kids[k]) else kids[k])
  }

  /** Children `0 .. j-1` disabled by the cascade, the rest not yet visited. */
  ghost function DisabledUpTo(kids: seq<Node>, j: nat): (r: seq<Node>)
    ensures |r| == |kids|
  {
    seq(|kids|, k requires 0 <= k < |kids| => if k < j then Disabled(kids[k]) else kids[k])
  }

  /** Children `0 .. j-1` visited by the OR click on child `i`. */
  ghost function SelectedUpTo(kids: seq<Node>, i: nat, j: nat): (r: seq<Node>)
    ensures |r| == |kids|
  {
    seq(|kids|, k requires 0 <= k < |kids| =>
      if k < j && kids[k].Leaf? then kids[k].(selected := k == i) else kids[k])
  }

  class MindMap {
    /** `mindMapData`. */
    var root: Node
    /** `selectedNode`: the node whose edit form is open, if any. */
    var focus: Option<Path>

    ghost predicate Valid()
      reads this
    {
      focus.Some? ==> ValidPath(root, focus.value)
    }

    /** A write of a node of the same shape keeps the edit form's path valid. */
    lemma KeepFocus(p: Path, m: Node)
      requires Valid() && ValidPath(root, p)
      requires m.Leaf? == At(root, p).Leaf?
      requires m.Group? ==> m.children == At(root, p).children
      ensures focus.Some? ==> ValidPath(Replace(root, p, m), focus.value)
    {
      if focus.Some? {
        SameShapeRefl(At(root, p));
        ReplaceKeepsPath(root, p, m, focus.value);
      }
    }

    /** The loaded rubric, with no edit form open. */
    constructor (data: Node)
      ensures Valid() && root == data && focus == None
    {
      root := data;
      focus := None;
    }

    /** The state update of showNodeModal: the edit form is opened on the node at `p`. */
    method ShowNodeModal(p: Path)
      requires Valid() && ValidPath(root, p)
      modifies this`focus
      ensures Valid() && focus == Some(p)
    {
      focus := Some(p);
    }

    /** handleLeafClick on the leaf at `p`. */
    method HandleLeafClick(p: Path)
      requires Valid() && IsLeafPath(root, p)
      modifies this`root
      ensures Valid() && root == Click(old(root), p)
    {
      ClickShape(root, p);
      if focus.Some? {
        SameShapePath(root, Click(root, p), focus.value);
      }
      var parent := ParentNode(root, p);
      if !IsNodeEnabled(parent) {
        return;
      }
      var q, i := Parent(p), Last(p);
      if parent.op == And {
        var leaf := At(root, p);
        root := Replace(root, p, leaf.(selected := !leaf.selected));
      } else if parent.op == Or {
        var kids := parent.children;
        assert SelectedUpTo(kids, i, 0) == kids;
        ReplaceSelf(root, q);
        var j := 0;
        while j < |kids|
          invariant 0 <= j <= |kids|
          invariant root == Replace(old(root), q, parent.(children := SelectedUpTo(kids, i, j)))
        {
          var g := parent.(children := SelectedUpTo(kids, i, j));
          if kids[j].Leaf? {
            var c := kids[j].(selected := j == i);
            ReplaceChild(old(root), q, g, j, c);
            root := Replace(root, q + [j], c);
            assert g.children[j := c] == SelectedUpTo(kids, i, j + 1);
          } else {
            assert SelectedUpTo(kids, i, j + 1) == SelectedUpTo(kids, i, j);
          }
          j := j + 1;
        }
        assert SelectedUpTo(kids, i, |kids|) == SelectOnly(kids, i);
      }
    }

    /** enableNodeAndChildren on the group at `p`: the group is enabled, then
        each group child in turn, recursively; leaf children are skipped. */
    method EnableNodeAndChildren(p: Path)
      requires Valid() && ValidPath(root, p) && At(root, p).Group?
      modifies this`root
      ensures Valid() && root == Replace(old(root), p, Enabled(old(At(root, p))))
      decreases At(root, p)
    {
      var n := At(root, p);
      var kids := n.children;
      KeepFocus(p, n.(enabled := true));
      root := Replace(root, p, n.(enabled := true));
      assert EnabledUpTo(kids, 0) == kids;
      var j := 0;
      while j < |kids|
        invariant 0 <= j <= |kids|
        invariant Valid() && root == Replace(old(root), p, n.(enabled := true, children := EnabledUpTo(kids, j)))
      {
        var g := n.(enabled := true, children := EnabledUpTo(kids, j));
        if kids[j].Group? {
          ReplaceChild(old(root), p, g, j, Enabled(kids[j]));
          EnableNodeAndChildren(p + [j]);
          assert g.children[j := Enabled(kids[j])] == EnabledUpTo(kids, j + 1);
        } else {
          assert EnabledUpTo(kids, j + 1) == EnabledUpTo(kids, j);
        }
        j := j + 1;
      }
      assert EnabledUpTo(kids, |kids|) == Enabled(n).children;
    }

    /** disableNodeAndChildren on the group at `p`: the group is disabled, then
        each child in turn is deselected (a leaf) or disabled recursively (a group). */
    method DisableNodeAndChildren(p: Path)
      requires Valid() && ValidPath(root, p) && At(root, p).Group?
      modifies this`root
      ensures Valid() && root == Replace(old(root), p, Disabled(old(At(root, p))))
      decreases At(root, p)
    {
      var n := At(root, p);
      var kids := n.children;
      KeepFocus(p, n.(enabled := false));
      root := Replace(root, p, n.(enabled := false));
      assert DisabledUpTo(kids, 0) == kids;
      var j := 0;
      while j < |kids|
        invariant 0 <= j <= |kids|
        invariant Valid() && root == Replace(old(root), p, n.(enabled := false, children := DisabledUpTo(kids, j)))
      {
        var g := n.(enabled := false, children := DisabledUpTo(kids, j));
        ReplaceChild(old(root), p, g, j, Disabled(kids[j]));
        if kids[j].Leaf? {
          KeepFocus(p + [j], kids[j].(selected := false));
          root := Replace(root, p + [j], kids[j].(selected := false));
        } else {
          DisableNodeAndChildren(p + [j]);
        }
        assert g.children[j := Disabled(kids[j])] == DisabledUpTo(kids, j + 1);
        j := j + 1;
      }
      assert DisabledUpTo(kids, |kids|) == Disabled(n).children;
    }

    /** saveNodeChanges with the form's number `value` and enabled checkbox
        `checked`: nothing without an open form; otherwise the data update of
        `Saved` on the node whose form is open. */
    method SaveNodeChanges(value: int, checked: bool)
      requires Valid()
      modifies this`root
      ensures Valid()
      ensures focus.Some? ==> root == Saved(old(root), focus.value, value, checked)
      ensures focus.None? ==> root == old(root)
    {
      if focus.Some? {
        var p := focus.value;
        var n := At(root, p);
        if n.Leaf? {
          SaveLeaf(root, p, value, checked);
          root := Replace(root, p, n.(weight := value));
        } else {
          SaveGroup(root, p, value, checked);
          var capped := n.(maxScore := Some(value));
          KeepFocus(p, capped);
          root := Replace(root, p, capped);
          if checked {
            EnableNodeAndChildren(p);
            ReplaceTwice(old(root), p, capped, Enabled(capped));
          } else {
            DisableNodeAndChildren(p);
            ReplaceTwice(old(root), p, capped, Disabled(capped));
          }
        }
        SameShapePath(old(root), root, p);
      }
    }
  }
}
