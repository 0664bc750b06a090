# snapBlocks stack engine in Dafny

A Dafny model of the snap-together stack engine of `experiments/snapBlocks/index.js`. Blocks
are dragged out of a toolbox or off the workspace, and are let go next to other blocks. They
snap onto an existing stack when their connector zones touch one of its members. Otherwise
they start a stack of their own, or are thrown away when let go off the canvas.

The workspace keeps a forest (`blockTree`) of stacks. A stack is a header object linked to
its members through `next`, `previous`, `top` and `last`, and it carries the origin and the
cached bounding box of its drawing. The model keeps that pointer structure as a class
`Node`. Each header has a ghost `chain` listing its members in order, and the predicate
`Linked` says that the pointers describe exactly that chain. Every operation that rewires
pointers is a method with `modifies` clauses, proved to keep the stacks well formed. Each
one is also proved to change the chain and the forest as stated on values: the `StackShape`
snapshots and the predicates `Spliced`, `Pushed` and `Placed`.

Files:

- `geometry.dfy` (module `Geometry`): `Box`, `combine`, `overlaps` and `translate`, and a
  block's connector zones.
- `wrappers.dfy` (module `Wrappers`): the optional value the source writes as `null` or
  `undefined`.
- `layout.dfy` (module `Layout`): the layout arithmetic of `drawStack` and the
  sizing of the drag div, stated on values.
- `matching.dfy` (module `Matching`): the hit test of `findTouchingBlock` as value functions.
  Covers the per-stack rejection by the cached box, the chain walk, and the `matched` rule
  that picks the stack painted on top.
- `placing.dfy` (module `Placing`): which of the three outcomes a drop has, and the origin
  arithmetic (`Math.max(…, 0)` and the raise of a stack that gets blocks in front).
- `workspace.dfy` (module `Snap`): blocks and headers (`Node`), `arrayToLinkedList`, the
  highlight state of the drag-move handlers (`Selection`), the detach of `startDrag`,
  `drawStack`, `redraw`, `findTouchingBlock`, `addBlock` and `addBlocks` as methods on the
  heap, each proved against the value functions above.

JavaScript numbers are modelled as `real`. Screen-to-canvas mapping (`svg.point`) and
`transformWithElement` are translations by the canvas origin and the group origin.

Where the code and a prose reading of it differ, the model follows the code:

- Blocks inserted before a stack's first member move the header's origin to
  `Math.max(0, y - (height + spacing))` (index.js:446 and 502). For one block of height h
  (index.js:446) the old members therefore stay where they were on screen, unless the top
  of the canvas cuts the move short (`Placing.RaiseKeepsMembers`). The origin moves up
  only when h + spacing is not negative; a block less than 5 tall would move it down. For
  dragged members (index.js:502) the same holds when the height used is the height of
  their canvas (`Placing.RaiseKeepsStack`).
- When stacks painted at the same position both match, `matched` keeps the later one: its
  test is a strict `>`. In a forest painted in order the last matching stack wins
  (`Matching.LaterStackWins`, `Matching.EqualPaintLastWins`).
- `addBlock` splices the dragged block itself into a stack. On a new stack it pushes a
  `copy()` of it instead (index.js:467).

## Model

| member | source | states |
|---|---|---|
| Geometry.Combine | experiments/snapBlocks/index.js:55-62 | the combined box's first corner is at or below both boxes' first corners and its second at or above both second corners |
| Geometry.CombinePicksCorners | experiments/snapBlocks/index.js:55-62 | every coordinate of `combine` is taken from one of the two boxes, so it is the componentwise min and max |
| Geometry.CombineCommutes | experiments/snapBlocks/index.js:55-62 | `combine(a, b) == combine(b, a)` |
| Geometry.CombineAssociates | experiments/snapBlocks/index.js:55-62 | `combine` is associative, so folding it over a stack does not depend on grouping |
| Geometry.CombineIsSmallestCover | experiments/snapBlocks/index.js:55-62 | for well-ordered boxes the combine is well ordered, contains both, and is contained in every box that contains both |
| Geometry.Translate | experiments/snapBlocks/index.js:37-44 | translation keeps width and height, and a point lies in the box iff the shifted point lies in the result |
| Geometry.TranslateRoundTrip | experiments/snapBlocks/index.js:37-44 | translating by (dx, dy) then (-dx, -dy) gives the box back |
| Geometry.TranslateKeepsOverlap | experiments/snapBlocks/index.js:37-44 | moving both boxes by the same amount does not change whether they overlap |
| Geometry.OverlapsSymmetric | experiments/snapBlocks/index.js:64-72 | `overlaps` does not depend on argument order |
| Geometry.OverlapsIffSharedPoint | experiments/snapBlocks/index.js:64-72 | for well-ordered boxes, `overlaps` holds exactly when the boxes share a point, edges included (both directions) |
| Geometry.CornerTouchOverlaps | experiments/snapBlocks/index.js:64-72 | boxes that meet only at a corner count as overlapping |
| Geometry.ZonesMeet | experiments/snapBlocks/index.js:664-680 | a block's top and bottom zones span x-10 to x+70, meet at its middle line, and are well ordered for heights above -20 |
| Geometry.ZoneSpan | experiments/snapBlocks/index.js:660-680 | `connectorZone` runs from 10 above the block to 10 below it and from x-10 to x+70 |
| Layout.OffsetsAt | experiments/snapBlocks/index.js:559-564 | the i-th drawing offset is the sum over earlier members of height plus spacing |
| Layout.BoxUpTo | experiments/snapBlocks/index.js:558-571 | the box is `undefined` exactly when no member has been drawn |
| Layout.OffsetMonotone | experiments/snapBlocks/index.js:562-564 | offsets never decrease when every member is at least as tall as the spacing overlaps them |
| Layout.BoxCoversMembers | experiments/snapBlocks/index.js:565-571 | the cached box contains the connector zone of every member drawn so far, whatever the heights |
| Layout.StackBoxSpan | experiments/snapBlocks/index.js:558-571 | for non-negative heights that make up for the spacing, a stack's box runs from 10 above its first member to 10 below its last, 80 wide |
| Layout.LowerEdgeMonotone | experiments/snapBlocks/index.js:562-564 | no member's lower edge lies above the first member's lower edge |
| Layout.WholeStackZone | experiments/snapBlocks/index.js:167-181 | the `f` wrapper's zone (first member's top zone combined with last member's bottom zone) equals the box `drawStack` caches |
| Layout.WidestBounds | experiments/snapBlocks/index.js:290-294 | the drag div's width is at least every member's width, is one of them or 0, and is never negative |
| Layout.CanvasHoldsMembers | experiments/snapBlocks/index.js:286-295 | every member of the dragged stack is drawn inside the div's height, and the last one ends exactly at it |
| Matching.FirstTouchFrom | experiments/snapBlocks/index.js:404-417 | the walk returns the first member touching on either side, bottom tested before top. It returns nothing iff no member from i on touches, and Bottom iff the found member's bottom zone touches |
| Matching.Select | experiments/snapBlocks/index.js:380-389 | the selection is empty iff no scanned stack matched; otherwise it is one stack's own match |
| Matching.SelectTopmost | experiments/snapBlocks/index.js:380-389 | the selected stack is painted at least as high as every matching stack, and strictly higher than every matching stack scanned after it |
| Matching.RejectionIsSafe | experiments/snapBlocks/index.js:394-397 | skipping a stack whose cached box misses the candidate's zone never loses a match on a laid-out stack |
| Matching.LaterStackWins | experiments/snapBlocks/index.js:382-384 | when stacks are painted in forest order, no stack scanned after the winner has a match |
| Matching.EqualPaintLastWins | experiments/snapBlocks/index.js:382-384 | among equally painted stacks, the result is the last one in the forest that matches |
| Placing.DropMeaning | experiments/snapBlocks/index.js:438-479 | a drop is discarded iff nothing was hit and its centre is off the canvas, and spliced next to the hit member iff something was hit. A new stack's origin is on the canvas, at the drop point when that is on the canvas, and at most half the dropped size away from it |
| Placing.ShiftedOffset | experiments/snapBlocks/index.js:559-564 | with members ds put in front of a stack, each old member's running height grows by the running height after all of ds |
| Placing.RaiseKeepsStack | experiments/snapBlocks/index.js:500-503 | raised by the height of the dragged members' canvas, the origin is on the canvas. The old members never end up higher than before, and they keep their place iff the raise is not cut off at the top |
| Placing.RaiseKeepsMembers | experiments/snapBlocks/index.js:445-447 | the same for one inserted block of height h. For an origin on the canvas, the raise does not move it down iff h + spacing is not negative |
| Snap.ShownText | experiments/snapBlocks/index.js:605 | the shown text is never empty: the given text when there is one, else "Standard Block" |
| Snap.Node.Block | experiments/snapBlocks/index.js:603-605 | a new block shows its text, or "Standard Block" for none, has its size, no links and no lit connector |
| Snap.Node.Group | experiments/snapBlocks/index.js:262-263 | a bare header has no links, no members and origin (0, 0) |
| Snap.Node.Draw | experiments/snapBlocks/index.js:563 | a drawn block sits at (0, y) in its group with both connectors dark, and its links are unchanged |
| Snap.Node.Copy | experiments/snapBlocks/index.js:682-684 | the copy is a fresh, unlinked block constructed with the same text, so showing it, and of the same size |
| Snap.Selection.constructor | experiments/snapBlocks/index.js:104 | nothing is selected at first |
| Snap.Selection.Highlight | experiments/snapBlocks/index.js:206-233 | on a match the matched member becomes the selection and the two facing connectors light; any previous selection goes dark. With no match the selection is cleared and goes dark, and so does the block. No other node lights up. The same code is at index.js:118-145 |
| Snap.PlacedCount | experiments/snapBlocks/index.js:428-544 | a drop adds exactly the dropped members to the forest, or none when it is discarded |
| Snap.CountOutside | experiments/snapBlocks/index.js:439-457 | a splice into one stack does not change the number of members in the other stacks |
| Snap.CountRemoved | experiments/snapBlocks/index.js:258 | taking a stack out of the forest takes exactly its members out of the count |
| Snap.DetachedCount | experiments/snapBlocks/index.js:255-276 | a detach loses exactly the detached members from the forest: the stack's members from position i on |
| Snap.WalkChain | experiments/snapBlocks/index.js:404-417 | the loop returns the member and side `FirstTouchFrom` gives for the stack's placements |
| Snap.ArrayToLinkedList | experiments/snapBlocks/index.js:357-369 | a fresh header whose chain is the array. Every block's `top` is the header and `previous` its predecessor. The last block's `next` is kept, so the stack is well formed iff that was null |
| Snap.BuildForest | experiments/snapBlocks/index.js:164 | each array becomes a fresh, well-formed stack listing its blocks, in order, with distinct headers |
| Snap.DraggedStackZone | experiments/snapBlocks/index.js:167-181 | on a drawn stack, the zone the `f` wrapper offers is the stack's cached box |
| Snap.FirstMember | experiments/snapBlocks/index.js:255 | in a well-formed stack a member's `previous` is the header iff it is the first member, so the guard takes the whole stack exactly for the first member |
| Snap.Cut | experiments/snapBlocks/index.js:260-276 | cutting before the grabbed block leaves two well-formed stacks: the old header keeps the members before it, its origin, box and its now stale `last`; the new group takes the rest with `last` on the final one |
| Snap.CutAt | experiments/snapBlocks/index.js:260-276 | the same cut stated at chain position i: chains `c[..i]` and `c[i..]`, the old header's origin, box and `last` kept |
| Snap.Restamp | experiments/snapBlocks/index.js:269-275 | the walk gives every member from the block on the header as `top` and leaves `last` on the final member, touching no link |
| Snap.RemoveAt | experiments/snapBlocks/index.js:258 | removing stack k's header from a forest of distinct headers removes entry k alone |
| Snap.Insert | experiments/snapBlocks/index.js:449-457 | the block is linked between the parts p and q. The stack stays well formed with chain p + [block] + q, and `last` becomes the block iff nothing follows it |
| Snap.InsertAt | experiments/snapBlocks/index.js:449-457 | the insertion at chain position i gives chain `c[..i] + [block] + c[i..]`, a well-formed stack |
| Snap.Relink | experiments/snapBlocks/index.js:506-512 | the dragged run is linked after t and before t's old successor, and every other link is left alone |
| Snap.Join | experiments/snapBlocks/index.js:505-519 | the dragged members d go between p and q. The stack stays well formed with chain p + d + q, and `last` is its final member |
| Snap.JoinAt | experiments/snapBlocks/index.js:505-519 | the splice at chain position i gives chain `c[..i] + dragged + c[i..]`, well formed, with `last` on the final member |
| Snap.NewGroup | experiments/snapBlocks/index.js:466-475 | a fresh well-formed stack whose one member is a fresh copy of the block, with origin `max(p, 0)` |
| Snap.Reroot | experiments/snapBlocks/index.js:528-536 | the dragged stack stays well formed with the same members and gets origin `max(p, 0)` |
| Snap.Anchor | experiments/snapBlocks/index.js:495-503 | the node to insert after is the matched member, or its predecessor on a top match. The stack is raised by the dropped height exactly when that node is the header |
| Snap.SpliceInto | experiments/snapBlocks/index.js:439-457 | `addBlock`'s splice puts the block at `InsertAt(member, side)`, raises the stack iff that is position 0, and sets `last` to the block iff it goes last |
| Snap.JoinInto | experiments/snapBlocks/index.js:495-519 | `addBlocks`' splice puts the dragged members at `InsertAt(member, side)` and raises the stack iff that is position 0 |
| Snap.Ignored | experiments/snapBlocks/index.js:242-244 | touch events are never ignored. A mouse-down is ignored iff its button (`which`, else `buttons`) is not 1 |
| Snap.DragCanvasSize | experiments/snapBlocks/index.js:286-295 | the loop computes the div height `CanvasHeight` and width `Widest` of the dragged members (see Layout.CanvasHoldsMembers, Layout.WidestBounds) |
| Snap.Workspace.constructor | experiments/snapBlocks/index.js:162-164 | the forest has one fresh stack per array, in order, listing its blocks, valid and drawn, the k-th painted k-th |
| Snap.Workspace.DrawStack | experiments/snapBlocks/index.js:549-580 | the stack stays well formed with the same members and origin, is painted at the position, and a non-empty stack is laid out (`Drawn`) |
| Snap.Workspace.DrawChain | experiments/snapBlocks/index.js:549-580 | the header's `last` is the final member (or itself) and its box is the fold of the members' zones (`Layout.StackBox`) |
| Snap.Workspace.DrawMembers | experiments/snapBlocks/index.js:560-573 | the loop draws member j at the j-th running offset, unhighlighted, and returns the stack's box and final node; no link changes |
| Snap.Workspace.DrawMember | experiments/snapBlocks/index.js:563 | drawing member i leaves the members drawn so far as the first i + 1 and changes no link |
| Snap.Workspace.Redraw | experiments/snapBlocks/index.js:582-587 | afterwards every stack is drawn, the k-th painted k-th, and the forest's headers, members and origins are unchanged |
| Snap.Workspace.DrawNth | experiments/snapBlocks/index.js:584-586 | drawing stack k leaves every other stack's paint and layout as they were |
| Snap.Workspace.RemoveStack | experiments/snapBlocks/index.js:258 | the forest loses entry k alone, every other stack keeps its members and origin, and it stays valid |
| Snap.Workspace.Detach | experiments/snapBlocks/index.js:255-280 | the grabbed block and the members after it become a well-formed stack at origin (0, 0), outside the forest. The forest changes as `Detached` says: on the first member the whole stack leaves it, otherwise stack k keeps `c[..i]`, its origin and its stale `last`; every other stack keeps its members and origin. No node is added to the forest |
| Snap.Workspace.TakeStack | experiments/snapBlocks/index.js:255-258 | the grabbed block's whole stack leaves the forest with its origin reset and its members kept; the other stacks keep their order, members and origins |
| Snap.Workspace.SplitStack | experiments/snapBlocks/index.js:260-280 | a fresh header at (0, 0) takes `c[i..]` with `last` on the final member. Stack k keeps `c[..i]`, its origin, box, paint and stale `last`, every other stack is unchanged (`Detached`), and the forest stays valid |
| Snap.Workspace.StartDrag | experiments/snapBlocks/index.js:239-315 | nothing changes, in the forest or any of its nodes, iff the guard ignores the event. Otherwise the dragged members are drawn apart in a div of the computed size, the forest changes as `Detached` says, and it is redrawn without them, the k-th stack painted k-th |
| Snap.Workspace.Lift | experiments/snapBlocks/index.js:254-315 | the body past the guard: the forest changes as `Detached` says, the dragged stack is drawn as group 0 of a div of the computed size, and the forest is redrawn in order |
| Snap.Workspace.Carry | experiments/snapBlocks/index.js:282-315 | the div is sized to the detached members, which are drawn as group 0; the forest keeps its shape and is redrawn, the k-th stack painted k-th |
| Snap.Workspace.ShowApart | experiments/snapBlocks/index.js:300-315 | drawing the dragged stack and redrawing the forest leave each other's nodes alone: the forest keeps its shape, both end up laid out, and the forest is painted in order |
| Snap.Workspace.AddBlock | experiments/snapBlocks/index.js:428-483 | the forest changes as `DropOf(Scan(...))` says: the block spliced, nothing, or a new stack of a fresh copy. It ends valid and drawn, the k-th stack painted k-th |
| Snap.Workspace.DropAt | experiments/snapBlocks/index.js:431-479 | the hit test and the placement of `addBlock` before the redraw |
| Snap.Workspace.DropBlock | experiments/snapBlocks/index.js:438-479 | the three branches of `addBlock` match `Placing.DropOf` and change the forest as `Placed` says |
| Snap.Workspace.SpliceBlock | experiments/snapBlocks/index.js:439-457 | stack k gets the block at the insertion point, raised iff in front, and every other stack is unchanged |
| Snap.Workspace.PushCopy | experiments/snapBlocks/index.js:463-478 | one new one-member stack of a fresh copy is pushed at `max(p, 0)` after the stacks already there |
| Snap.Workspace.Push | experiments/snapBlocks/index.js:478 | `blockTree.push(g)` appends g, keeps every earlier stack, and the forest stays valid |
| Snap.Workspace.AddBlocks | experiments/snapBlocks/index.js:486-544 | the forest changes as `DropOf(Scan(...))` says: the dragged members spliced, nothing, or the dragged stack pushed as it is. It ends valid and drawn, the k-th stack painted k-th |
| Snap.Workspace.DropStackAt | experiments/snapBlocks/index.js:489-540 | the hit test and the placement of `addBlocks` before the redraw |
| Snap.Workspace.FindStack | experiments/snapBlocks/index.js:489 | the hit test with the `f` wrapper returns the match `Scan` selects and changes nothing |
| Snap.Workspace.DropStack | experiments/snapBlocks/index.js:495-540 | the three branches of `addBlocks` match `Placing.DropOf` and change the forest as `Placed` says |
| Snap.Workspace.JoinStack | experiments/snapBlocks/index.js:495-519 | stack k gets the dragged members at the insertion point, raised iff in front, and every other stack is unchanged |
| Snap.Workspace.PushStack | experiments/snapBlocks/index.js:524-539 | the dragged stack, moved to `max(p, 0)`, is pushed with all its members after the stacks already there |
| Snap.Workspace.SplicedKept | experiments/snapBlocks/index.js:439-519 | a splice that touches only stack k keeps the forest valid, changes it as `Spliced` says, and adds only the spliced nodes |
| Snap.Workspace.StackMatch | experiments/snapBlocks/index.js:391-420 | one turn of the map returns the stack's own match `StackTouch`, a member of that stack |
| Snap.Workspace.ScanStack | experiments/snapBlocks/index.js:380-420 | after stack k, the match found so far is the one `Select` gives for the first k + 1 stacks |
| Snap.Workspace.FindTouchingBlock | experiments/snapBlocks/index.js:371-426 | the result is the member and side `Scan` selects over the forest, and nothing changes |
| Snap.Workspace.TopmostHit | experiments/snapBlocks/index.js:380-389 | on a forest painted in order, as `redraw` leaves it, no stack after the selected one is touched |

## Left out

- Rendering, the DOM and events: SVG drawing, CSS classes, the drag div's position,
  `preventDefault`, event binding and firing, `grabPoint`, `relativePoint` and `endDrag`.
  Screen positions enter as the parameters `dx`, `dy` and the canvas origin.
- The Toolbox (index.js:688-778) and the top-level toolbox handlers, except their
  highlight step, which `Selection.Highlight` models.
- Rendered sizes: a block's width and height are fixed by the renderer, and the model
  takes them as constants of the block. The paint order of a group (`position()`) is the
  `paint` field `drawStack` sets.
- Floating-point rounding: numbers are reals.
- `StandardBlock.highlight` and `clearBlocks`: no state in the model.
- The dead `fix` helper inside `lineOverlap` (index.js:66) is never called.
- `length` is set by `arrayToLinkedList` and never read or updated, and the model keeps it
  only there.
- Snap.Workspace.RemoveStack: models `_.remove(blockTree, group)` as removal of that header
  alone. lodash matches an object argument by deep partial equality, so another stack equal
  to it in every property, origin and members included, would go too. The model does not
  capture that.
- Snap.Workspace.AddBlocks: the dragged group's width and height (`block.element`) are
  parameters, since the drag div's drawing is outside the model. The model does not tie
  the height to the members' canvas height, so the claim that the old members keep their
  place (`Placing.RaiseKeepsStack`) holds for the drop only when the two agree.
- Snap.Workspace.SplitStack: the new header's origin is reset before the cut rather than
  after it (index.js:279-280). Nothing in between reads it.
- Snap.Workspace.constructor: requires every array to hold at least one block. An empty
  array gives a stack with no box, which `findTouchingBlock` would dereference.
- Snap.ArrayToLinkedList: requires the blocks to be pairwise distinct. A repeated block
  would link the chain into a cycle.
- Snap.ArrayToLinkedList: the header's origin is `undefined` in the source, which
  `drawStack` reads as 0 (`list.x || 0`), and the model sets it to (0, 0). A raise of such
  a header computes `NaN` in the source, again drawn at 0; the model computes
  `Math.max(0, -(height + spacing))`, which agrees only when height + spacing is not
  negative, so for blocks at least 5 tall.
- Snap.Selection.Highlight: each draggable block's `enableDrag` closure has its own
  `selected`, and so does the toolbox handler. The model has one `Selection` object per
  closure; it does not model the closures being shared.
- `experiments/blocks` and the rest of the repository are not part of this model.
