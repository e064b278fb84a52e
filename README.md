# Rubric mind map: scoring engine and commands

This project models the core of the interactive rubric "mind map" in
`js/mindmap.js`: a weighted scoring rubric drawn as a radial tree. The rubric
tree has two kinds of node:

- **leaves** (`type: "leaf"`) carry a `weight` and a `selected` flag;
- **groups** (`type: "node"`) carry an `operator` (`"and"`, `"or"` or any other
  string), a `max_score` that may be absent, an `enabled` flag and ordered
  `children`.

The model has two parts.

**Scoring** (module `Scoring`, pure functions). `Score` is
`calculateNodeScore`: a selected leaf scores its weight, an unselected one 0.
An enabled group with children takes the maximum of its children's scores
under OR and their sum under AND. Under any other operator it takes 0, and so
does a disabled or childless group. The result is then capped with
`Math.min(score, max_score || 0)`. `EffectiveMax` is
`calculateEffectiveMaxScore`, the denominator of the display score.
`CalculateScore` is `calculateScore`. `NormalizedScore` is the percentage that
`updateScoreDisplay` shows; it is 0 when the effective maximum is not positive.

**Commands** (modules `Commands` and `MindMapApp`). The JavaScript reaches
nodes through d3 hierarchy wrappers whose `.data` objects belong to the global
`mindMapData` tree. The model holds that tree as a value in the field
`MindMap.root` and names a node by its path of child indices. Each field write
of the source becomes a replacement of the node at its path (`Rubric.Replace`).
The class methods carry out the same writes in the same order as the source:
the leaf click with its loop over siblings, the recursive enable and disable
walks, and the save of the edit form. Each method is proved equal to a pure
function (`Click`, `Enabled`, `Disabled`, `Saved`), and the properties of the
commands are proved as lemmas about those functions.

Reading of the source's loose fields:

- an absent `max_score` reads as 0 (`Cap`);
- an absent `enabled` reads as false;
- absent `children` reads as the empty sequence;
- an operator string other than `"and"` and `"or"` is `Op.Other`. Such a group
  scores `min(0, cap)` and ignores clicks.

Behaviour of js/mindmap.js worth noting:

- A leaf's effective maximum is 0, not its weight. Leaves have no `enabled`
  field, so the guard `!node.enabled` at js/mindmap.js:345 returns 0 before the
  leaf branch at lines 347-349 is reached (`EffectiveMaxCases`).
- A group's `enabled` flag changes only through the edit form. Saving a group
  (js/mindmap.js:259-268) always sets `max_score` and then runs the enable or
  disable cascade, whichever the checkbox says, even when the flag did not
  change (`SaveGroup`).
- An OR click (js/mindmap.js:212-218) leaves exactly one leaf child selected,
  but nothing checks the loaded data for that. The model proves that every
  command keeps "at most one selected leaf child under every OR group"
  (`ClickExclusive`, `SaveExclusive`).

## Model

| member | source | states |
|---|---|---|
| `Rubric.Replace` | js/mindmap.js:211 | a write to the node at a path: afterwards the path leads to the new node, and the ancestor it passes through keeps its own fields |
| `Rubric.ReplaceFrame` | js/mindmap.js:216 | a write to one node leaves every node outside its subtree with its own fields, and leaves every node beside the path to it entirely unchanged |
| `Scoring.Min` | js/mindmap.js:339 | `Math.min`: the result is one of the two arguments and at most both |
| `Scoring.Max` | js/mindmap.js:332 | `Math.max(...scores)` over a non-empty list: the result is an element and at least every element |
| `Scoring.Score` | js/mindmap.js:323-340 | a group never scores more than its `max_score`, with an absent `max_score` read as 0 |
| `Scoring.GroupScore` | js/mindmap.js:328-339 | an enabled group with children scores min(some child's score, cap) and at least min(each child's score, cap) under OR, and min(sum of child scores, cap) under AND; a disabled or childless group, or one with another operator, scores min(0, cap) |
| `Scoring.NormalizedScore` | js/mindmap.js:312-316 | the display score is 0 whenever the effective maximum is at most 0 (no division by zero); otherwise it times the effective maximum equals 100 times `calculateScore(root)` |
| `Scoring.EffectiveMax` | js/mindmap.js:343-365 | `calculateEffectiveMaxScore`; its properties are carried by `EffectiveMaxCases`, `EffectiveMaxIgnoresLeaves`, `ScoreWithinEffectiveMax` and `EffectiveMaxCongruence` |
| `Scoring.CalculateScore` | js/mindmap.js:368-370 | `calculateScore` is the root's node score; its bounds are carried by `NormalizedScore` and `NormalizedInRange` |
| `Scoring.EffectiveMaxCases` | js/mindmap.js:343-365 | the effective maximum is 0 for a leaf or a disabled group, `max_score` for an enabled group with a leaf child, the sum of the children's effective maxima for an enabled group whose children are all groups, and `max_score` for an enabled childless group |
| `Scoring.EffectiveMaxIgnoresLeaves` | js/mindmap.js:343-365 | the effective maximum reads no leaf's weight or selection: trees that differ only in their leaves have the same effective maximum |
| `Scoring.ScoreWithinEffectiveMax` | js/mindmap.js:343-365 | with non-negative caps, a group's effective maximum is non-negative and its score never exceeds it |
| `Scoring.ScoreNonNegative` | js/mindmap.js:323-340 | with non-negative weights and caps, every node scores at least 0 |
| `Scoring.NormalizedInRange` | js/mindmap.js:316 | with non-negative weights and caps, the display score lies in [0, 100]; a leaf root shows 0 |
| `Scoring.ScoreCongruence` | js/mindmap.js:332-335 | the tree's score depends on a subtree only through that subtree's score |
| `Scoring.UnselectedLeafContributesNothing` | js/mindmap.js:323-335 | an unselected leaf adds nothing: whatever its weight, the score of each of its ancestors is the same |
| `Scoring.EffectiveMaxCongruence` | js/mindmap.js:352-360 | the tree's effective maximum depends on a subtree only through its effective maximum and whether it is a leaf |
| `Scoring.SectionExample` | js/mindmap.js:323-370 | an AND root (cap 100) over one enabled OR section (cap 50) with leaves 10 and 30, the 30 selected: section score 30, effective max 50, root score 30, root effective max 50, display score 60 |
| `Commands.ParentNode` | js/mindmap.js:205-207 | `leafNode.parent` is a group that holds the clicked leaf as its child at the path's last index |
| `Commands.IsNodeEnabled` | js/mindmap.js:146-152 | `isNodeEnabled`: a leaf is always enabled, a group when its flag is set; `ClickIgnored` states that a click under a parent it rejects changes nothing |
| `Commands.LeafScoreIgnoresParent` | js/mindmap.js:323-330 | a leaf's score is its weight when selected and 0 otherwise, whether its parent group is enabled or not, while a disabled parent scores min(0, max_score) |
| `Commands.Click` | js/mindmap.js:203-219 | `handleLeafClick` on the tree; its properties are carried by `ClickShape`, `ClickIgnored`, `ClickAnd`, `ClickOr`, `ClickKeepsEffectiveMax` and `ClickExclusive` |
| `Commands.ClickShape` | js/mindmap.js:203-219 | a click keeps the tree's shape, so the clicked path still leads to a leaf |
| `Commands.ClickIgnored` | js/mindmap.js:203-219 | a click under a disabled parent (isNodeEnabled, lines 146-152), or under a parent whose operator is neither AND nor OR, changes nothing |
| `Commands.ClickAnd` | js/mindmap.js:209-211 | under an enabled AND parent a click flips exactly the clicked leaf's `selected`; every other node keeps its own fields; a second click restores the tree |
| `Commands.ClickOr` | js/mindmap.js:212-218 | under an enabled OR parent, afterwards the clicked leaf is selected and every other leaf sibling deselected; group siblings are untouched; the parent and every node outside its subtree keep their own fields; repeating the click changes nothing |
| `Commands.ClickKeepsEffectiveMax` | js/mindmap.js:203-219 | no click changes the effective maximum of the tree |
| `Commands.Enabled` | js/mindmap.js:283-292 | `enableNodeAndChildren` on the tree; its properties are carried by `EnableCascade` and `EnabledIdempotent` |
| `Commands.EnableCascade` | js/mindmap.js:283-292 | after enabling, every group of the subtree is enabled with its other fields unchanged, and every leaf (its `selected` and `weight` too) is unchanged |
| `Commands.EnabledIdempotent` | js/mindmap.js:283-292 | enabling twice gives the same tree as enabling once |
| `Commands.Disabled` | js/mindmap.js:295-307 | `disableNodeAndChildren` on the tree; its properties are carried by `DisableCascade`, `DisabledScore` and `ReenableAfterDisable` |
| `Commands.DisableCascade` | js/mindmap.js:295-307 | after disabling, every group of the subtree is disabled and every leaf deselected, with names, weights, operators, caps and shape unchanged |
| `Commands.DisabledScore` | js/mindmap.js:328-345 | a disabled group scores min(0, cap) and has effective maximum 0, whatever was selected below it |
| `Commands.NoneSelectedScoresZero` | js/mindmap.js:323-340 | with no leaf selected and non-negative caps, the score is 0 |
| `Commands.ReenableAfterDisable` | js/mindmap.js:283-307 | re-enabling a disabled group does not restore its selections: no leaf below it is selected, and with non-negative caps it scores 0 |
| `Commands.Saved` | js/mindmap.js:255-269 | the data update of `saveNodeChanges`; its properties are carried by `SaveLeaf`, `SaveGroup` and `SaveExclusive` |
| `Commands.SaveLeaf` | js/mindmap.js:257-258 | saving a leaf sets its weight and changes no other node; the effective maximum is unchanged, and so is the score when the leaf is not selected |
| `Commands.SaveGroup` | js/mindmap.js:259-268 | saving a group sets its `max_score`, sets its `enabled` to the checkbox and keeps its name and operator; nodes outside its subtree keep their own fields; every group below it keeps its name, operator and `max_score`; checked, every group below it is enabled and every leaf below it unchanged; unchecked, every group below it is disabled, every leaf deselected, and it scores min(0, value) with effective maximum 0 |
| `Commands.ClickExclusive` | js/mindmap.js:212-218 | a click keeps every OR group with at most one selected leaf child |
| `Commands.SaveExclusive` | js/mindmap.js:255-269 | saving the form, with either checkbox setting, keeps every OR group with at most one selected leaf child |
| `MindMapApp.MindMap.constructor` | js/mindmap.js:395-397 | the loaded rubric becomes the tree, and no edit form is open |
| `MindMapApp.MindMap.ShowNodeModal` | js/mindmap.js:230 | opening the edit form records its node and changes nothing in the tree |
| `MindMapApp.MindMap.HandleLeafClick` | js/mindmap.js:203-219 | the in-place click, including the sibling loop, leaves exactly the tree `Click` gives |
| `MindMapApp.MindMap.EnableNodeAndChildren` | js/mindmap.js:283-292 | the recursive walk leaves the tree with the target's subtree replaced by `Enabled` of it, and an open edit form's node stays valid |
| `MindMapApp.MindMap.DisableNodeAndChildren` | js/mindmap.js:295-307 | the recursive walk leaves the tree with the target's subtree replaced by `Disabled` of it, and an open edit form's node stays valid |
| `MindMapApp.MindMap.SaveNodeChanges` | js/mindmap.js:255-269 | without an open form nothing changes; otherwise the tree becomes `Saved` of the form's node, value and checkbox, and the form's node stays valid |

## Left out

- D3 rendering and layout are not modelled: `initializeMindMap`, `buildMindMap`, `radialPoint` (floating-point trigonometry), `getNodeRadius`, `getNodeColor`, `getNodeValue` and `getNodeDetails`. They only draw the tree. The rebuild and score refresh at the end of each command are display only.
- Zoom and pan are not modelled: `zoomIn`, `zoomOut`, `resetView` and the `setTimeout` call.
- DOM plumbing is not modelled: `initApp`, the event listeners, `updateToggleStatus`, and the form fields that `showNodeModal` fills in. Only its `selectedNode = d` is modelled (`ShowNodeModal`).
- Loading is not modelled: the `fetch` of `js/mindmap_data.json` and the fallback tree at lines 389-405 are I/O. The constructor takes the loaded tree.
- `parseInt` of the form input is not modelled. `SaveNodeChanges` receives the parsed number as an `int`, and a `NaN` result is left out.
- `toFixed(2)` is not modelled. `NormalizedScore` is the exact ratio, as a `real`, before rounding for display.
- Weights and caps are Dafny integers. JavaScript numbers may be fractional, and floating-point rounding is not modelled.
- An absent node (`!node` at line 345) is not representable here: the loaded root and every child are present. A node `type` other than leaf or group is not representable either.
- The leaf branch of `calculateEffectiveMaxScore` (lines 347-349) is not modelled. It is reachable only for a leaf that carries a truthy `enabled`, and leaves here have no such field.
- A missing leaf `weight` is not modelled: the JavaScript then computes with `undefined`.
- `HandleLeafClick` requires the clicked leaf to have a parent. A leaf at the root has no `parent`, and the JavaScript then throws before it writes anything.
- In-place updates through shared objects are modelled as rewriting the value tree at a path. The rubric document is a tree with no sharing, so each data object sits at exactly one path. `child === leafNode` becomes a comparison of child indices.
