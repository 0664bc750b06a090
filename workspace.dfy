/**
 * The snap-together stack engine of experiments/snapBlocks/index.js: blocks, the stacks
 * they are linked into, and the workspace's forest of stacks (`blockTree`).
 *
 * A stack is a header object linked to its members: the header's `next` is the first
 * member, members are linked by `next` and `previous` (the first member's `previous` is
 * the header), and every member's `top` is the header, whose own `top` is itself. The
 * header also holds the stack's origin `x`, `y` in the canvas, the cached `last` member
 * and the cached bounding `box` of the members' connector zones. The source does not
 * distinguish header and block types, and neither does the model: both are `Node`s.
 * The ghost field `chain` of a header lists its members in order.
 */
module Snap {
  import opened Wrappers
  import opened Geometry
  import Layout
  import opened Matching
  import Placing

  /**
   * The text a block constructed with `text` shows: the given text, or "Standard Block"
   * when it is empty (the source's `text || "Standard Block"`, which also covers a missing
   * argument). It is never empty, so a copy shows its original's text.
   */
  function ShownText(text: string): (r: string)
    ensures r != ""
    ensures text != "" ==> r == text
    ensures text == "" ==> r == "Standard Block"
  {
    if text == "" then "Standard Block" else text
  }

  class Node {
    /** Next member (on a header: the first member), or null at the end of the chain. */
    var next: Node?
    /** Previous member, or the header for the first member. */
    var previous: Node?
    /** The header of the stack this node belongs to; a header's `top` is itself. */
    var top: Node?
    /** Header only: the last member, as `drawStack` or a splice last set it. */
    var last: Node?
    /** Header only: the origin of the stack's group in the canvas. */
    var x: real
    var y: real
    /** Block only: where its element is drawn inside its stack's group. */
    var elemX: real
    var elemY: real
    /** Block only: the rendered size of its drawing, fixed by its text (a header reports none). */
    const width: real
    const height: real
    /** Header only: the cached combine of its members' connector zones; None until drawn. */
    var box: Option<Box>
    /** Header only: the member count `arrayToLinkedList` records; nothing updates it afterwards. */
    var length: int
    /** Header only: the paint position of the stack's group among its siblings. */
    var paint: int
    /** Block only: whether its top and bottom connectors are highlighted. */
    var highlightTop: bool
    var highlightBottom: bool
    /** Block only: the text the block shows. */
    const text: string
    /** Header only: the members, in chain order. */
    ghost var chain: seq<Node>

    /** `new StandardBlock(text)`, with the size the renderer gives it. */
    constructor Block(text: string, width: real, height: real)
      ensures this.text == ShownText(text) && this.width == width && this.height == height
      ensures next == null && previous == null && top == null && last == null
      ensures !highlightTop && !highlightBottom && box == None && chain == []
    {
      this.text := ShownText(text);
      this.width, this.height := width, height;
      next, previous, top, last := null, null, null, null;
      highlightTop, highlightBottom := false, false;
      box := None;
      chain := [];
    }

    /** A bare header object (`{}`), with no links yet. */
    constructor Group()
      ensures next == null && previous == null && top == null && last == null
      ensures box == None && chain == [] && x == 0.0 && y == 0.0
    {
      text := "";
      width, height := 0.0, 0.0;
      next, previous, top, last := null, null, null, null;
      x, y := 0.0, 0.0;
      box := None;
      chain := [];
    }

    /** `connectorZoneTop` of a drawn block. */
    function ConnectorZoneTop(): Box
      reads this
    {
      ZoneTop(elemX, elemY, height)
    }

    /** `connectorZoneBottom` of a drawn block. */
    function ConnectorZoneBottom(): Box
      reads this
    {
      ZoneBottom(elemX, elemY, height)
    }

    /** `connectorZone` of a drawn block. */
    function ConnectorZone(): Box
      reads this
    {
      Combine(ConnectorZoneTop(), ConnectorZoneBottom())
    }

    /** Where and how tall the block is drawn, as hit-testing sees it. */
    function Place(): Placement
      reads this
    {
      Placement(elemX, elemY, height)
    }

    /**
     * `draw(group).move(0, y)`: the block's element is drawn afresh in its stack's group at
     * (0, y); a fresh drawing has no highlighted connector.
     */
    method Draw(y: real)
      modifies this
      ensures elemX == 0.0 && elemY == y && !highlightTop && !highlightBottom
      ensures next == old(next) && previous == old(previous) && top == old(top)
    {
      elemX, elemY := 0.0, y;
      highlightTop, highlightBottom := false, false;
    }

    /**
     * `copy`: a new, unlinked block constructed with this block's text (so showing the
     * same text, as a block's text is never empty); the renderer sizes it from its text.
     */
    method Copy() returns (b: Node)
      ensures fresh(b) && b.text == ShownText(text) && b.width == width && b.height == height
      ensures b.next == null && b.previous == null && b.top == null && b.last == null
      ensures !b.highlightTop && !b.highlightBottom && b.chain == []
    {
      b := new Node.Block(text, width, height);
    }
  }

  /** n has a highlighted connector. */
  predicate Lit(n: Node)
    reads n
  {
    n.highlightTop || n.highlightBottom
  }

  /**
   * The lights of a match on side pos between the member s matched and the dragged block b:
   * s lights the connector touched and b the opposite one, so the two lit connectors face
   * each other, and no other connector of the two is lit.
   */
  predicate Facing(s: Node, b: Node, pos: Position)
    reads s, b
  {
    s.highlightTop == (pos == Top) && s.highlightBottom == (pos == Bottom)
    && b.highlightTop == (pos == Bottom) && b.highlightBottom == (pos == Top)
  }

  /**
   * The `selected` variable both drag-move handlers share: the member whose connector is lit
   * as the target of the drag in progress, or null.
   */
  class Selection {
    var selected: Node?

    constructor ()
      ensures selected == null
    {
      selected := null;
    }

    /** Among ns, only the selection and the dragged block b may have a lit connector. */
    ghost predicate Quiet(ns: set<Node>, b: Node)
      reads this, ns
    {
      forall n :: n in ns && n != selected && n != b ==> !Lit(n)
    }

    /**
     * The highlighting step of both drag-move handlers, for the hit test's result r and the
     * dragged block: on a match, the previous selection goes dark when it is another member,
     * the member matched becomes the selection and the two facing connectors light (see
     * Facing); when the block is itself the member matched, its own lights are the block's.
     * With no match, the selection, if any, goes dark and is cleared, and the block goes
     * dark. Nothing else is lit, so among any nodes ns, only the selection and the block may
     * be lit if that held before.
     */
    method Highlight(r: Option<Match>, block: Node, ghost ns: set<Node>)
      modifies this, selected, block, if r.Some? then {r.value.block} else {}
      ensures r.Some? ==> selected == r.value.block
      ensures r.Some? && block != r.value.block ==> Facing(r.value.block, block, r.value.position)
      ensures r.Some? && block == r.value.block ==>
        block.highlightTop == (r.value.position == Bottom) && block.highlightBottom == (r.value.position == Top)
      ensures r.None? ==> selected == null && !Lit(block)
      ensures old(selected) != null && old(selected) != block && (r.None? || old(selected) != r.value.block) ==>
        !Lit(old(selected))
      ensures old(Quiet(ns, block)) ==> Quiet(ns, block)
    {
      if r.Some? {
        if selected != null && selected != r.value.block {
          selected.highlightBottom := false;
          selected.highlightTop := false;
        }
        selected := r.value.block;
        if r.value.position == Top {
          selected.highlightTop := true;
          selected.highlightBottom := false;
          block.highlightTop := false;
          block.highlightBottom := true;
        } else {
          selected.highlightBottom := true;
          selected.highlightTop := false;
          block.highlightTop := true;
          block.highlightBottom := false;
        }
      } else {
        if selected != null {
          selected.highlightBottom := false;
          selected.highlightTop := false;
          selected := null;
        }
        block.highlightTop := false;
        block.highlightBottom := false;
      }
    }
  }

  /** A stack of the forest as the drops see it: its header, its members and its origin. */
  datatype StackShape = StackShape(header: Node, chain: seq<Node>, x: real, y: real)

  /**
   * A splice into stack k of the forest snapshots before and after: the nodes `added` go into
   * its chain at position `at`, and it is raised by `raise` when that position is the first
   * (see Placing.Raise). No other stack changes.
   */
  ghost predicate Spliced(before: seq<StackShape>, after: seq<StackShape>, k: nat, at: nat, added: seq<Node>, raise: real) {
    |after| == |before| && k < |before| && at <= |before[k].chain|
    && after[k] == before[k].(chain := before[k].chain[..at] + added + before[k].chain[at..],
                              y := if at == 0 then Placing.Raise(before[k].y, raise, SpacingStandard) else before[k].y)
    && forall l :: 0 <= l < |before| && l != k ==> after[l] == before[l]
  }

  /** A push of a new stack of n members with its origin at (x, y) after the stacks already there. */
  ghost predicate Pushed(before: seq<StackShape>, after: seq<StackShape>, x: real, y: real, n: nat) {
    |after| == |before| + 1 && after[..|before|] == before
    && after[|before|].x == x && after[|before|].y == y && |after[|before|].chain| == n
  }

  /**
   * What a drop d does to the forest, seen as snapshots before and after: a splice of the
   * nodes `added`, raising the stack by `raise` when they go first; nothing for a discard; a
   * new stack with as many members as `added` for a new stack.
   */
  ghost predicate Placed(before: seq<StackShape>, after: seq<StackShape>, d: Placing.Drop, added: seq<Node>, raise: real) {
    match d
    case Splice(k, at) => Spliced(before, after, k, at, added, raise)
    case Discard => after == before
    case NewStack(x, y) => Pushed(before, after, x, y, |added|)
  }

  /** The number of members of the stacks of a forest snapshot. */
  ghost function MemberCount(s: seq<StackShape>): nat {
    if s == [] then 0 else MemberCount(s[..|s| - 1]) + |s[|s| - 1].chain|
  }

  /** Two snapshots that differ in stack k only count the same members outside it. */
  lemma {:induction false} CountOutside(s: seq<StackShape>, t: seq<StackShape>, k: nat)
    requires |s| == |t| && k < |s| && forall l :: 0 <= l < |s| && l != k ==> s[l] == t[l]
    ensures MemberCount(t) - |t[k].chain| == MemberCount(s) - |s[k].chain|
  {
    var n := |s| - 1;
    if k == n {
      assert s[..n] == t[..n];
    } else {
      CountOutside(s[..n], t[..n], k);
    }
  }

  /**
   * A drop loses no member and adds no other: the forest gains exactly as many members as
   * were dropped, or none when the drop is discarded.
   */
  lemma PlacedCount(before: seq<StackShape>, after: seq<StackShape>, d: Placing.Drop, added: seq<Node>, raise: real)
    requires Placed(before, after, d, added, raise)
    ensures MemberCount(after) == MemberCount(before) + if d.Discard? then 0 else |added|
  {
    match d
    case Splice(k, at) =>
      CountOutside(before, after, k);
    case Discard =>
    case NewStack(x, y) =>
      assert after[..|after| - 1] == before;
  }

  /**
   * A detach of the members of stack k from position i on, seen as forest snapshots
   * before and after: when i is 0 the whole stack leaves the forest and the others keep
   * their order; otherwise stack k keeps its header, its origin and the members before
   * position i. No other stack changes.
   */
  ghost predicate Detached(before: seq<StackShape>, after: seq<StackShape>, k: nat, i: nat) {
    k < |before| && i < |before[k].chain|
    && (i == 0 ==> after == before[..k] + before[k + 1..])
    && (0 < i ==> after == before[k := before[k].(chain := before[k].chain[..i])])
  }

  /** Taking stack k out of a forest snapshot takes exactly its members out of the count. */
  lemma {:induction false} CountRemoved(s: seq<StackShape>, k: nat)
    requires k < |s|
    ensures MemberCount(s[..k] + s[k + 1..]) == MemberCount(s) - |s[k].chain|
  {
    var n := |s| - 1;
    var t := s[..k] + s[k + 1..];
    if k == n {
      assert t == s[..n];
    } else {
      CountRemoved(s[..n], k);
      assert t[..|t| - 1] == s[..n][..k] + s[..n][k + 1..];
      assert t[|t| - 1] == s[n];
    }
  }

  /**
   * A detach loses no member and adds no other: the forest keeps all its members but the
   * detached ones, the members of stack k from position i on.
   */
  lemma DetachedCount(before: seq<StackShape>, after: seq<StackShape>, k: nat, i: nat)
    requires Detached(before, after, k, i)
    ensures MemberCount(after) == MemberCount(before) - (|before[k].chain| - i)
  {
    if i == 0 {
      CountRemoved(before, k);
    } else {
      CountOutside(before, after, k);
    }
  }

  /** A match of `findTouchingBlock`: the member touched and the side. */
  datatype Match = Match(block: Node, position: Position)

  /** The position of the last occurrence of n in c, or -1 when n is not in c. */
  ghost function IndexIn(c: seq<Node>, n: Node): int {
    if c == [] then -1 else if c[|c| - 1] == n then |c| - 1 else IndexIn(c[..|c| - 1], n)
  }

  /** No node occurs twice in c: every member is found at its own position. */
  ghost predicate Distinct(c: seq<Node>) {
    forall i {:trigger IndexIn(c, c[i])} :: 0 <= i < |c| ==> IndexIn(c, c[i]) == i
  }

  /** Pairwise different nodes are distinct. */
  lemma {:induction false} DistinctFromPairs(c: seq<Node>)
    requires forall i, j :: 0 <= i < j < |c| ==> c[i] != c[j]
    ensures Distinct(c)
  {
    if c != [] {
      var p := c[..|c| - 1];
      DistinctFromPairs(p);
      forall i | 0 <= i < |c| - 1
        ensures IndexIn(c, c[i]) == i
      {
        assert c[i] == p[i];
      }
    }
  }

  /** Distinct nodes are pairwise different. */
  lemma PairsFromDistinct(c: seq<Node>)
    requires Distinct(c)
    ensures forall i, j :: 0 <= i < j < |c| ==> c[i] != c[j]
  {
    forall i, j | 0 <= i < j < |c|
      ensures c[i] != c[j]
    {
      assert IndexIn(c, c[i]) == i && IndexIn(c, c[j]) == j;
    }
  }

  /** h heads a well-formed stack whose members are h.chain, in order. */
  ghost predicate Linked(h: Node)
    reads h, h.chain
  {
    var c := h.chain;
    h.top == h && h !in c && Distinct(c)
    && (forall n :: n in c ==> n.top == h)
    && (c == [] ==> h.next == null)
    && (c != [] ==> h.next == c[0] && c[0].previous == h && c[|c| - 1].next == null)
    && (forall i, j :: 0 <= i && j == i + 1 && j < |c| ==> c[i].next == c[j] && c[j].previous == c[i])
  }

  /** The members' placements, in chain order. */
  ghost function Placements(c: seq<Node>): (ps: seq<Placement>)
    reads c
    ensures |ps| == |c| && forall i {:trigger ps[i]} :: 0 <= i < |c| ==> ps[i] == c[i].Place()
  {
    if c == [] then [] else Placements(c[..|c| - 1]) + [c[|c| - 1].Place()]
  }

  /** The members' rendered heights, in chain order. */
  ghost function Heights(c: seq<Node>): (hs: seq<real>)
    ensures |hs| == |c| && forall i {:trigger hs[i]} :: 0 <= i < |c| ==> hs[i] == c[i].height
  {
    if c == [] then [] else Heights(c[..|c| - 1]) + [c[|c| - 1].height]
  }

  /** The members' rendered widths, in chain order. */
  ghost function Widths(c: seq<Node>): (ws: seq<real>)
    ensures |ws| == |c| && forall i {:trigger ws[i]} :: 0 <= i < |c| ==> ws[i] == c[i].width
  {
    if c == [] then [] else Widths(c[..|c| - 1]) + [c[|c| - 1].width]
  }

  /** The stack headed by h as hit-testing sees it. */
  ghost function View(h: Node): StackView
    reads h, h.chain
    requires h.box.Some?
  {
    StackView(h.x, h.y, h.paint, h.box.value, Placements(h.chain))
  }

  /** h heads a non-empty stack whose layout, `last` and `box` are those `drawStack` gives it. */
  ghost predicate Drawn(h: Node)
    reads h, h.chain
  {
    Linked(h) && |h.chain| > 0 && h.last == h.chain[|h.chain| - 1] && h.box.Some?
    && LaidOut(View(h), Heights(h.chain), SpacingStandard)
  }

  /**
   * A stack whose header and members are all left untouched stays well formed, and stays
   * laid out if it was.
   */
  twostate lemma StackKept(h: Node)
    requires unchanged(h) && forall n :: n in old(h.chain) ==> unchanged(n)
    ensures old(Linked(h)) ==> Linked(h)
    ensures old(Drawn(h)) ==> Drawn(h)
  {
    forall i | 0 <= i < |h.chain|
      ensures unchanged(h.chain[i])
    {
      assert h.chain[i] in old(h.chain);
    }
  }

  /**
   * A header whose members are drawn at the running heights ys of their heights, and
   * whose box is the fold of their zones, is laid out as `drawStack` lays stacks out.
   */
  lemma LaidOutFromDrawing(h: Node, ys: seq<real>, spacing: real)
    requires |h.chain| > 0 && ys == Layout.Offsets(Heights(h.chain), spacing, |h.chain|)
    requires h.box == Layout.StackBox(Heights(h.chain), spacing)
    requires forall j :: 0 <= j < |h.chain| ==> h.chain[j].elemX == 0.0 && h.chain[j].elemY == ys[j]
    ensures LaidOut(View(h), Heights(h.chain), spacing)
  {
  }

  /** Two distinct well-formed stacks share no node: a node's `top` names its one stack. */
  lemma Separate(h1: Node, h2: Node)
    requires Linked(h1) && Linked(h2) && h1 != h2
    ensures h1 !in h2.chain && h2 !in h1.chain
    ensures forall n :: n in h1.chain ==> n !in h2.chain
  {
  }

  /** A stack stays well formed while its links and its chain are left alone. */
  twostate lemma LinkedKept(h: Node)
    requires old(Linked(h))
    requires h.chain == old(h.chain) && h.top == old(h.top) && h.next == old(h.next)
    requires forall j :: 0 <= j < |h.chain| ==>
      h.chain[j].next == old(h.chain[j].next) && h.chain[j].previous == old(h.chain[j].previous)
      && h.chain[j].top == old(h.chain[j].top)
    ensures Linked(h)
  {
  }

  /**
   * The `while (list.next)` walk of `findTouchingBlock` along the stack headed by h: the
   * first member whose bottom zone meets bT (the candidate goes below it) or, failing that,
   * whose top zone meets bB (the candidate goes above it).
   */
  method WalkChain(h: Node, bT: Box, bB: Box) returns (m: Option<Match>)
    requires Linked(h)
    ensures var t := FirstTouchFrom(Placements(h.chain), bT, bB, 0);
      (m.None? <==> t.None?)
      && (t.Some? ==> t.value.member < |h.chain| && m.value == Match(h.chain[t.value.member], t.value.pos))
  {
    ghost var ms := Placements(h.chain);
    var list := h;
    m := None;
    ghost var i := 0;
    while list.next != null
      invariant 0 <= i <= |h.chain| && list == if i == 0 then h else h.chain[i - 1]
      invariant FirstTouchFrom(ms, bT, bB, i) == FirstTouchFrom(ms, bT, bB, 0) && m.None?
      decreases |h.chain| - i
    {
      list := list.next;
      assert list == h.chain[i] && ms[i] == list.Place();
      if Overlaps(list.ConnectorZoneBottom(), bT) {
        m := Some(Match(list, Bottom));
        return;
      } else if Overlaps(list.ConnectorZoneTop(), bB) {
        m := Some(Match(list, Top));
        return;
      }
      i := i + 1;
    }
  }

  /**
   * `arrayToLinkedList`: a fresh header whose members are the given blocks, in order; every
   * block's `top` is the header and its `previous` the node before it. The last block's
   * `next` is left as it was, so the stack is well formed when that block had no successor.
   * The header has no origin of its own; `drawStack` reads the missing one as (0, 0).
   */
  method ArrayToLinkedList(blocks: seq<Node>) returns (top: Node)
    requires forall i, j :: 0 <= i < j < |blocks| ==> blocks[i] != blocks[j]
    modifies blocks
    ensures fresh(top) && top.chain == blocks && top.length == |blocks|
    ensures top.top == top && top.x == 0.0 && top.y == 0.0 && top.box == None
    ensures top.next == if blocks == [] then null else blocks[0]
    ensures forall j {:trigger blocks[j].top} :: 0 <= j < |blocks| ==> blocks[j].top == top
    ensures blocks != [] ==> blocks[0].previous == top
    ensures forall j {:trigger blocks[j].previous} :: 0 < j < |blocks| ==> blocks[j].previous == blocks[j - 1]
    ensures forall j {:trigger blocks[j].next} :: 0 <= j < |blocks| - 1 ==> blocks[j].next == blocks[j + 1]
    ensures blocks != [] ==> blocks[|blocks| - 1].next == old(blocks[|blocks| - 1].next)
    ensures blocks == [] || old(blocks[|blocks| - 1].next) == null ==> Linked(top)
  {
    top := new Node.Group();
    top.length := |blocks|;
    top.top := top;
    var previous := top;
    var i := 0;
    while i < |blocks|
      invariant 0 <= i <= |blocks|
      invariant previous == if i == 0 then top else blocks[i - 1]
      invariant top.top == top && top.x == 0.0 && top.y == 0.0 && top.box == None && top.chain == []
      invariant top.length == |blocks| && top !in blocks
      invariant top.next == if i == 0 then null else blocks[0]
      invariant forall j {:trigger blocks[j].top} :: 0 <= j < i ==> blocks[j].top == top
      invariant 0 < i ==> blocks[0].previous == top
      invariant forall j {:trigger blocks[j].previous} :: 0 < j < i ==> blocks[j].previous == blocks[j - 1]
      invariant forall j {:trigger blocks[j].next} :: 0 <= j < i - 1 ==> blocks[j].next == blocks[j + 1]
      invariant blocks != [] ==> blocks[|blocks| - 1].next == old(blocks[|blocks| - 1].next)
    {
      var element := blocks[i];
      element.top := top;
      previous.next := element;
      element.previous := previous;
      previous := element;
      i := i + 1;
    }
    top.chain := blocks;
    DistinctFromPairs(blocks);
    if blocks == [] || old(blocks[|blocks| - 1].next) == null {
      LinkedFromLinks(top);
    }
  }

  /** Links laid out member after member, ending in null, make a well-formed stack. */
  lemma LinkedFromLinks(h: Node)
    requires h.top == h && h !in h.chain && Distinct(h.chain)
    requires forall j {:trigger h.chain[j].top} :: 0 <= j < |h.chain| ==> h.chain[j].top == h
    requires h.next == if h.chain == [] then null else h.chain[0]
    requires h.chain != [] ==> h.chain[0].previous == h && h.chain[|h.chain| - 1].next == null
    requires forall j {:trigger h.chain[j].previous} :: 0 < j < |h.chain| ==> h.chain[j].previous == h.chain[j - 1]
    requires forall j {:trigger h.chain[j].next} :: 0 <= j < |h.chain| - 1 ==> h.chain[j].next == h.chain[j + 1]
    ensures Linked(h)
  {
    forall n | n in h.chain
      ensures n.top == h
    {
      var j :| 0 <= j < |h.chain| && h.chain[j] == n;
      assert h.chain[j].top == h;
    }
    forall i, j | 0 <= i && j == i + 1 && j < |h.chain|
      ensures h.chain[i].next == h.chain[j] && h.chain[j].previous == h.chain[i]
    {
      assert h.chain[i].next == h.chain[i + 1];
      assert h.chain[j].previous == h.chain[j - 1];
    }
  }

  /**
   * The `blocks.map(arrayToLinkedList)` of the workspace's construction: one fresh stack per
   * array, in order, each well formed and listing its array's blocks.
   */
  method BuildForest(stacks: seq<seq<Node>>) returns (tree: seq<Node>)
    requires forall k :: 0 <= k < |stacks| ==> |stacks[k]| > 0 && stacks[k][|stacks[k]| - 1].next == null
    requires forall k :: 0 <= k < |stacks| ==> forall i, j :: 0 <= i < j < |stacks[k]| ==> stacks[k][i] != stacks[k][j]
    requires forall k, l :: 0 <= k < l < |stacks| ==> forall n :: n in stacks[k] ==> n !in stacks[l]
    modifies set k, i | 0 <= k < |stacks| && 0 <= i < |stacks[k]| :: stacks[k][i]
    ensures |tree| == |stacks|
    ensures forall k :: 0 <= k < |stacks| ==> fresh(tree[k]) && tree[k].chain == stacks[k] && Linked(tree[k])
    ensures Distinct(tree)
  {
    tree := [];
    var k := 0;
    while k < |stacks|
      invariant 0 <= k <= |stacks| && |tree| == k
      invariant forall l :: 0 <= l < k ==> fresh(tree[l]) && tree[l].chain == stacks[l] && Linked(tree[l])
      invariant forall l, m :: 0 <= l < m < k ==> tree[l] != tree[m]
      invariant forall m :: k <= m < |stacks| ==> stacks[m][|stacks[m]| - 1].next == null
    {
      var h := BuildStack(tree, stacks, k);
      tree := tree + [h];
      k := k + 1;
    }
    DistinctFromPairs(tree);
  }

  /**
   * One step of BuildForest: the k-th array becomes a fresh, well-formed stack, and the
   * stacks built before it, whose members lie in other arrays, stay well formed.
   */
  method BuildStack(tree: seq<Node>, stacks: seq<seq<Node>>, k: nat) returns (h: Node)
    requires k == |tree| < |stacks| && |stacks[k]| > 0 && stacks[k][|stacks[k]| - 1].next == null
    requires forall i, j :: 0 <= i < j < |stacks[k]| ==> stacks[k][i] != stacks[k][j]
    requires forall l :: 0 <= l < k ==> tree[l].chain == stacks[l] && Linked(tree[l]) && tree[l] !in stacks[k]
    requires forall l :: 0 <= l < |stacks| && l != k ==> forall n :: n in stacks[l] ==> n !in stacks[k]
    modifies stacks[k]
    ensures fresh(h) && h.chain == stacks[k] && Linked(h)
    ensures forall l :: 0 <= l < k ==> tree[l].chain == stacks[l] && Linked(tree[l])
    ensures forall m :: k < m < |stacks| && |stacks[m]| > 0 ==> stacks[m][|stacks[m]| - 1].next == old(stacks[m][|stacks[m]| - 1].next)
  {
    label Before:
    h := ArrayToLinkedList(stacks[k]);
    forall m | k < m < |stacks| && |stacks[m]| > 0
      ensures stacks[m][|stacks[m]| - 1].next == old(stacks[m][|stacks[m]| - 1].next)
    {
      assert stacks[m][|stacks[m]| - 1] in stacks[m];
    }
    forall l | 0 <= l < k
      ensures Linked(tree[l])
    {
      StackKept@Before(tree[l]);
    }
  }

  /** A single dragged block as `findTouchingBlock` sees it: its own two connector zones. */
  function BlockCandidate(b: Node): Candidate
    reads b
  {
    Candidate(b.ConnectorZoneTop(), b.ConnectorZoneBottom())
  }

  /**
   * The `f` wrapper: a dragged stack offered as one candidate, with the top zone of the
   * member its header's `next` names and the bottom zone of the member its `last` names.
   */
  function StackCandidate(h: Node): Candidate
    reads h, h.next, h.last
    requires h.next != null && h.last != null
  {
    Candidate(h.next.ConnectorZoneTop(), h.last.ConnectorZoneBottom())
  }

  /**
   * On a drawn stack whose members' heights make up for the spacing, the zone the `f`
   * wrapper offers is exactly the box `drawStack` cached for the stack.
   */
  lemma DraggedStackZone(h: Node)
    requires Drawn(h)
    requires forall n :: n in h.chain ==> n.height >= 0.0 && n.height + SpacingStandard >= 0.0
    ensures h.next != null && h.last != null
    ensures CandidateZone(StackCandidate(h)) == h.box.value
  {
    var c, hs := h.chain, Heights(h.chain);
    var n := |c|;
    forall k | 0 <= k < n
      ensures hs[k] >= 0.0 && hs[k] + SpacingStandard >= 0.0
    {
      assert c[k] in c;
    }
    Layout.OffsetsAt(hs, SpacingStandard, n);
    assert c[0].Place() == View(h).members[0];
    assert c[n - 1].Place() == View(h).members[n - 1];
    Layout.WholeStackZone(hs, SpacingStandard);
  }

  /**
   * The cut of `startDrag` when the grabbed block is not its stack's first member: the stack
   * headed by h, whose members are p followed by q, is cut before q's first member, the
   * block; the bare header group takes q, and the walk over q sets each moved member's `top`
   * to it and its `last` to each in turn, so to the final one.
   */
  method Cut(h: Node, block: Node, group: Node, ghost p: seq<Node>, ghost q: seq<Node>)
    requires h.top == h && h.chain == p + q && 0 < |p| && 0 < |q| && block == q[0]
    requires h !in p && h !in q && group != h && group !in p && group !in q
    requires Distinct(p) && Distinct(q) && forall m {:trigger p[m]} :: 0 <= m < |p| ==> p[m] !in q
    requires h.next == p[0] && p[0].previous == h && p[|p| - 1].next == q[0] && q[0].previous == p[|p| - 1]
    requires q[|q| - 1].next == null
    requires forall m {:trigger p[m].top} :: 0 <= m < |p| ==> p[m].top == h
    requires forall m {:trigger p[m].previous} :: 0 < m < |p| ==> p[m].previous == p[m - 1]
    requires forall m {:trigger p[m].next} :: 0 <= m < |p| - 1 ==> p[m].next == p[m + 1]
    requires forall m {:trigger q[m].previous} :: 0 < m < |q| ==> q[m].previous == q[m - 1]
    requires forall m {:trigger q[m].next} :: 0 <= m < |q| - 1 ==> q[m].next == q[m + 1]
    modifies h, p, q, group
    ensures Linked(group) && group.chain == q && group.last == q[|q| - 1]
    ensures group.x == old(group.x) && group.y == old(group.y)
    ensures Linked(h) && h.chain == p && h.last == old(h.last)
    ensures h.x == old(h.x) && h.y == old(h.y) && h.box == old(h.box) && h.paint == old(h.paint)
  {
    group.top := group;
    group.next := block;
    block.previous.next := null;
    block.previous := group;
    h.chain, group.chain := p, q;
    Restamp(group, block, q);
    LinkedFromLinks(group);
    LinkedFromLinks(h);
  }

  /**
   * The cut of a well-formed stack headed by h before its member i, the block: h keeps
   * the members before it, and the bare header group takes the block and the rest.
   */
  method CutAt(h: Node, block: Node, group: Node, ghost i: nat)
    requires Linked(h) && 0 < i < |h.chain| && h.chain[i] == block && group != h && group !in h.chain
    modifies h, h.chain, group
    ensures Linked(h) && h.chain == old(h.chain)[..i] && h.last == old(h.last)
    ensures h.x == old(h.x) && h.y == old(h.y) && h.box == old(h.box) && h.paint == old(h.paint)
    ensures Linked(group) && group.chain == old(h.chain)[i..] && group.last == old(h.chain)[|old(h.chain)| - 1]
    ensures group.x == old(group.x) && group.y == old(group.y)
  {
    ghost var c := h.chain;
    SplitLinks(h, i);
    assert group !in c[..i] && group !in c[i..];
    Cut(h, block, group, c[..i], c[i..]);
  }

  /**
   * In a well-formed stack, a member's `top` is the header and not the member itself, and
   * its `previous` is the header exactly when it is the first member.
   */
  lemma FirstMember(h: Node, i: nat)
    requires Linked(h) && i < |h.chain|
    ensures h.chain[i].top == h && h.chain[i] != h
    ensures h.chain[i].previous == h <==> i == 0
  {
    var c := h.chain;
    assert c[i] in c;
    if 0 < i {
      assert c[i].previous == c[i - 1] && c[i - 1] in c;
    }
  }

  /** The links of a well-formed stack, seen as the members before position i and those from it on. */
  lemma SplitLinks(h: Node, i: nat)
    requires Linked(h) && 0 < i < |h.chain|
    ensures var p, q := h.chain[..i], h.chain[i..];
      h.chain == p + q && h !in p && h !in q
      && Distinct(p) && Distinct(q) && (forall m {:trigger p[m]} :: 0 <= m < |p| ==> p[m] !in q)
      && h.next == p[0] && p[0].previous == h && p[|p| - 1].next == q[0] && q[0].previous == p[|p| - 1]
      && q[|q| - 1].next == null
      && (forall m {:trigger p[m].top} :: 0 <= m < |p| ==> p[m].top == h)
      && (forall m {:trigger p[m].previous} :: 0 < m < |p| ==> p[m].previous == p[m - 1])
      && (forall m {:trigger p[m].next} :: 0 <= m < |p| - 1 ==> p[m].next == p[m + 1])
      && (forall m {:trigger q[m].previous} :: 0 < m < |q| ==> q[m].previous == q[m - 1])
      && (forall m {:trigger q[m].next} :: 0 <= m < |q| - 1 ==> q[m].next == q[m + 1])
  {
    SplitParts(h.chain, i);
    LinksFromLinked(h);
    PartLinks(h, h.chain, i);
  }

  /** A distinct sequence is the concatenation of its two distinct, disjoint parts. */
  lemma SplitParts(c: seq<Node>, i: nat)
    requires Distinct(c) && i <= |c|
    ensures c == c[..i] + c[i..] && Distinct(c[..i]) && Distinct(c[i..])
    ensures forall m {:trigger c[..i][m]} :: 0 <= m < i ==> c[..i][m] !in c[i..]
  {
    DistinctSplit(c, i);
    PartsApart(c, i);
  }

  /** The member-by-member links of a chain c hold in both of its parts. */
  lemma PartLinks(h: Node, c: seq<Node>, i: nat)
    requires 0 < i < |c|
    requires forall j {:trigger c[j].top} :: 0 <= j < |c| ==> c[j].top == h
    requires forall j {:trigger c[j].previous} :: 0 < j < |c| ==> c[j].previous == c[j - 1]
    requires forall j {:trigger c[j].next} :: 0 <= j < |c| - 1 ==> c[j].next == c[j + 1]
    ensures var p, q := c[..i], c[i..];
      p[|p| - 1].next == q[0] && q[0].previous == p[|p| - 1] && p[0] == c[0] && q[|q| - 1] == c[|c| - 1]
      && (forall m {:trigger p[m].top} :: 0 <= m < |p| ==> p[m].top == h)
      && (forall m {:trigger p[m].previous} :: 0 < m < |p| ==> p[m].previous == p[m - 1])
      && (forall m {:trigger p[m].next} :: 0 <= m < |p| - 1 ==> p[m].next == p[m + 1])
      && (forall m {:trigger q[m].previous} :: 0 < m < |q| ==> q[m].previous == q[m - 1])
      && (forall m {:trigger q[m].next} :: 0 <= m < |q| - 1 ==> q[m].next == q[m + 1])
  {
    var p, q := c[..i], c[i..];
    assert forall m :: 0 <= m < |q| ==> q[m] == c[i + m];
    assert forall m :: 0 <= m < |p| ==> p[m] == c[m];
  }

  /**
   * The walk of the cut and of `addBlocks`: from the given member on, each member's `top`
   * becomes the header and the header's `last` the member, so the final member in the end.
   */
  method Restamp(group: Node, from: Node, ghost q: seq<Node>)
    requires |q| > 0 && from == q[0] && q[|q| - 1].next == null && group !in q
    requires forall m {:trigger q[m].next} :: 0 <= m < |q| - 1 ==> q[m].next == q[m + 1]
    modifies group, q
    ensures group.last == q[|q| - 1]
    ensures forall m {:trigger q[m].top} :: 0 <= m < |q| ==> q[m].top == group
    ensures group.next == old(group.next) && group.top == old(group.top) && group.chain == old(group.chain)
    ensures group.previous == old(group.previous) && group.x == old(group.x) && group.y == old(group.y)
    ensures forall m {:trigger q[m].next} :: 0 <= m < |q| ==> q[m].next == old(q[m].next)
    ensures forall m {:trigger q[m].previous} :: 0 <= m < |q| ==> q[m].previous == old(q[m].previous)
  {
    var b: Node? := from;
    ghost var j := 0;
    while b != null
      invariant 0 <= j <= |q| && b == if j < |q| then q[j] else null
      invariant group.next == old(group.next) && group.top == old(group.top) && group.chain == old(group.chain)
      invariant group.previous == old(group.previous) && group.x == old(group.x) && group.y == old(group.y)
      invariant 0 < j ==> group.last == q[j - 1]
      invariant forall m {:trigger q[m].top} :: 0 <= m < j ==> q[m].top == group
      invariant forall m {:trigger q[m].next} :: 0 <= m < |q| ==> q[m].next == old(q[m].next)
      invariant forall m {:trigger q[m].previous} :: 0 <= m < |q| ==> q[m].previous == old(q[m].previous)
      decreases |q| - j
    {
      b.top := group;
      group.last := b;
      b := b.next;
      j := j + 1;
    }
  }

  /** The parts of a distinct sequence split at i share no node. */
  lemma PartsApart(c: seq<Node>, i: nat)
    requires Distinct(c) && i <= |c|
    ensures forall m {:trigger c[..i][m]} :: 0 <= m < i ==> c[..i][m] !in c[i..]
  {
    forall m | 0 <= m < i
      ensures c[..i][m] !in c[i..]
    {
      assert c[..i][m] == c[m];
      forall l | 0 <= l < |c| - i
        ensures c[i..][l] != c[m]
      {
        assert c[i..][l] == c[i + l] && IndexIn(c, c[i + l]) == i + l;
      }
    }
  }

  /** Both parts of a distinct sequence are distinct. */
  lemma DistinctSplit(c: seq<Node>, i: nat)
    requires Distinct(c) && i <= |c|
    ensures Distinct(c[..i]) && Distinct(c[i..])
  {
    PairsFromDistinct(c);
    DistinctFromPairs(c[..i]);
    DistinctFromPairs(c[i..]);
  }

  /** The links of a well-linked stack, one member at a time. */
  lemma LinksFromLinked(h: Node)
    requires Linked(h)
    ensures forall j {:trigger h.chain[j].top} :: 0 <= j < |h.chain| ==> h.chain[j].top == h
    ensures forall j {:trigger h.chain[j].previous} :: 0 < j < |h.chain| ==> h.chain[j].previous == h.chain[j - 1]
    ensures forall j {:trigger h.chain[j].next} :: 0 <= j < |h.chain| - 1 ==> h.chain[j].next == h.chain[j + 1]
  {
    forall j | 0 < j < |h.chain|
      ensures h.chain[j].previous == h.chain[j - 1]
    {
      assert h.chain[j - 1].next == h.chain[j] && h.chain[j].previous == h.chain[j - 1];
    }
  }

  /** `_.remove(array, x)` as the forest uses it: the sequence without its entries that are x. */
  function Remove(s: seq<Node>, x: Node): seq<Node> {
    if s == [] then []
    else if s[0] == x then Remove(s[1..], x)
    else [s[0]] + Remove(s[1..], x)
  }

  /** On a sequence of distinct headers, removing entry k's header removes entry k alone. */
  lemma {:induction false} RemoveAt(s: seq<Node>, k: nat)
    requires k < |s| && forall i, j :: 0 <= i < j < |s| ==> s[i] != s[j]
    ensures Remove(s, s[k]) == s[..k] + s[k + 1..]
  {
    var t := s[1..];
    assert forall j :: 0 <= j < |t| ==> t[j] == s[j + 1];
    if k == 0 {
      assert s[0] !in t;
      RemoveNone(t, s[0]);
    } else {
      assert t[k - 1] == s[k];
      RemoveAt(t, k - 1);
      assert s[..k] == [s[0]] + t[..k - 1];
      assert s[k + 1..] == t[k..];
    }
  }

  /** A chain with d spliced in at position i holds the old members and those of d, and nothing else. */
  lemma SpliceMembers(c: seq<Node>, i: nat, d: seq<Node>)
    requires i <= |c|
    ensures forall n :: n in c[..i] + d + c[i..] ==> n in c || n in d
  {
    forall n | n in c[..i] + d + c[i..]
      ensures n in c || n in d
    {
      assert c == c[..i] + c[i..];
    }
  }

  /** A distinct sequence stays distinct when a node not in it is appended. */
  lemma DistinctPush(s: seq<Node>, x: Node)
    requires Distinct(s) && x !in s
    ensures Distinct(s + [x])
  {
    PairsFromDistinct(s);
    var t := s + [x];
    assert forall j :: 0 <= j < |s| ==> t[j] == s[j];
    DistinctFromPairs(t);
  }

  /** A distinct sequence stays distinct when one of its entries is dropped. */
  lemma DistinctDrop(s: seq<Node>, k: nat)
    requires Distinct(s) && k < |s|
    ensures Distinct(s[..k] + s[k + 1..])
  {
    PairsFromDistinct(s);
    var t := s[..k] + s[k + 1..];
    assert forall j :: 0 <= j < |t| ==> t[j] == if j < k then s[j] else s[j + 1];
    DistinctFromPairs(t);
  }

  /** Removing an absent header changes nothing. */
  lemma {:induction false} RemoveNone(s: seq<Node>, x: Node)
    requires x !in s
    ensures Remove(s, x) == s
  {
    if s != [] {
      RemoveNone(s[1..], x);
      assert s == [s[0]] + s[1..];
    }
  }

  /**
   * A well-formed stack's chain, cut into the parts p and q, falls into two distinct parts
   * that share no member and neither of which holds the header.
   */
  lemma OpenParts(h: Node, p: seq<Node>, q: seq<Node>)
    requires Linked(h) && h.chain == p + q
    ensures h !in p && h !in q && Distinct(p) && Distinct(q)
    ensures forall m {:trigger p[m]} :: 0 <= m < |p| ==> p[m] !in q
  {
    var c, i := h.chain, |p|;
    SplitParts(c, i);
    assert p == c[..i] && q == c[i..];
  }

  /**
   * The links where a well-formed stack's chain is cut into the parts p and q: the node t
   * the part q hangs from (the header when p is empty, otherwise p's last member) belongs
   * to the stack and links to q's first member, which links back; the header links to p's
   * first member.
   */
  lemma OpenLinks(h: Node, t: Node, p: seq<Node>, q: seq<Node>)
    requires Linked(h) && h.chain == p + q && t == (if p == [] then h else p[|p| - 1])
    ensures t.top == h
    ensures t.next == (if q == [] then null else q[0]) && (q != [] ==> q[0].previous == t && q[|q| - 1].next == null)
    ensures p != [] ==> h.next == p[0] && p[0].previous == h
  {
    var c, i := h.chain, |p|;
    assert forall m :: 0 <= m < |q| ==> q[m] == c[i + m];
    if 0 < i {
      assert t == c[i - 1] && c[i - 1] in c;
      if i < |c| {
        assert c[i - 1].next == c[i] && c[i].previous == c[i - 1];
      }
    }
  }

  /**
   * What `addBlocks`' splice needs of the dragged stack headed by g: its members' links,
   * and that they share no node with either part p, q of h's chain.
   */
  lemma DraggedParts(h: Node, g: Node, p: seq<Node>, q: seq<Node>)
    requires Linked(g) && 0 < |g.chain| && h.chain == p + q
    requires g != h && g !in h.chain && h !in g.chain && forall n :: n in g.chain ==> n !in h.chain
    ensures var d := g.chain;
      g.next == d[0] && d[|d| - 1].next == null && Distinct(d)
      && h !in d && g !in p && g !in d && g !in q
      && (forall m {:trigger p[m]} :: 0 <= m < |p| ==> p[m] !in d)
      && (forall m {:trigger d[m]} :: 0 <= m < |d| ==> d[m] !in q)
      && (forall m {:trigger d[m].previous} :: 0 < m < |d| ==> d[m].previous == d[m - 1])
      && (forall m {:trigger d[m].next} :: 0 <= m < |d| - 1 ==> d[m].next == d[m + 1])
  {
    LinksFromLinked(g);
    ApartParts(h.chain, g.chain, |p|);
    assert p == h.chain[..|p|] && q == h.chain[|p|..];
  }

  /** A chain d that shares no node with c shares none with either part of c around position i. */
  lemma ApartParts(c: seq<Node>, d: seq<Node>, i: nat)
    requires i <= |c| && forall n :: n in d ==> n !in c
    ensures forall m {:trigger c[..i][m]} :: 0 <= m < i ==> c[..i][m] !in d
    ensures forall m {:trigger d[m]} :: 0 <= m < |d| ==> d[m] !in c[i..]
  {
    forall m | 0 <= m < i
      ensures c[..i][m] !in d
    {
      assert c[..i][m] == c[m] && c[m] in c;
    }
    forall m | 0 <= m < |d|
      ensures d[m] !in c[i..]
    {
      assert d[m] in d;
    }
  }

  /** A well-formed stack cut into the parts p and q, as the splices need it: OpenParts, OpenLinks and OpenChain together. */
  lemma SpliceLinks(h: Node, t: Node, p: seq<Node>, q: seq<Node>)
    requires Linked(h) && h.chain == p + q && t == (if p == [] then h else p[|p| - 1])
    ensures h.top == h && h !in p && h !in q && t.top == h
    ensures Distinct(p) && Distinct(q) && forall m {:trigger p[m]} :: 0 <= m < |p| ==> p[m] !in q
    ensures t.next == (if q == [] then null else q[0]) && (q != [] ==> q[0].previous == t && q[|q| - 1].next == null)
    ensures p != [] ==> h.next == p[0] && p[0].previous == h
    ensures forall m {:trigger p[m].top} :: 0 <= m < |p| ==> p[m].top == h
    ensures forall m {:trigger q[m].top} :: 0 <= m < |q| ==> q[m].top == h
    ensures forall m {:trigger p[m].previous} :: 0 < m < |p| ==> p[m].previous == p[m - 1]
    ensures forall m {:trigger p[m].next} :: 0 <= m < |p| - 1 ==> p[m].next == p[m + 1]
    ensures forall m {:trigger q[m].previous} :: 0 < m < |q| ==> q[m].previous == q[m - 1]
    ensures forall m {:trigger q[m].next} :: 0 <= m < |q| - 1 ==> q[m].next == q[m + 1]
  {
    OpenParts(h, p, q);
    OpenLinks(h, t, p, q);
    OpenChain(h, p, q);
  }

  /** The member-by-member links and tops of a well-formed stack hold in the two parts p, q its chain is cut into. */
  lemma OpenChain(h: Node, p: seq<Node>, q: seq<Node>)
    requires Linked(h) && h.chain == p + q
    ensures forall m {:trigger p[m].top} :: 0 <= m < |p| ==> p[m].top == h
    ensures forall m {:trigger q[m].top} :: 0 <= m < |q| ==> q[m].top == h
    ensures forall m {:trigger p[m].previous} :: 0 < m < |p| ==> p[m].previous == p[m - 1]
    ensures forall m {:trigger p[m].next} :: 0 <= m < |p| - 1 ==> p[m].next == p[m + 1]
    ensures forall m {:trigger q[m].previous} :: 0 < m < |q| ==> q[m].previous == q[m - 1]
    ensures forall m {:trigger q[m].next} :: 0 <= m < |q| - 1 ==> q[m].next == q[m + 1]
  {
    var c, i := h.chain, |p|;
    LinksFromLinked(h);
    assert forall m :: 0 <= m < |q| ==> q[m] == c[i + m];
    assert forall m :: 0 <= m < |p| ==> p[m] == c[m];
  }

  /** The member-by-member links of two chains, joined end to start, hold in their concatenation. */
  lemma JoinLinks(a: seq<Node>, b: seq<Node>)
    requires forall m {:trigger a[m].previous} :: 0 < m < |a| ==> a[m].previous == a[m - 1]
    requires forall m {:trigger a[m].next} :: 0 <= m < |a| - 1 ==> a[m].next == a[m + 1]
    requires forall m {:trigger b[m].previous} :: 0 < m < |b| ==> b[m].previous == b[m - 1]
    requires forall m {:trigger b[m].next} :: 0 <= m < |b| - 1 ==> b[m].next == b[m + 1]
    requires 0 < |a| && 0 < |b| ==> a[|a| - 1].next == b[0] && b[0].previous == a[|a| - 1]
    ensures var c := a + b;
      (forall m {:trigger c[m].previous} :: 0 < m < |c| ==> c[m].previous == c[m - 1])
      && (forall m {:trigger c[m].next} :: 0 <= m < |c| - 1 ==> c[m].next == c[m + 1])
  {
    var c := a + b;
    forall m | 0 < m < |c|
      ensures c[m].previous == c[m - 1] && c[m - 1].next == c[m]
    {
      if m < |a| {
        assert c[m] == a[m] && c[m - 1] == a[m - 1];
      } else if m == |a| {
        assert c[m] == b[0] && c[m - 1] == a[|a| - 1];
      } else {
        assert c[m] == b[m - |a|] && c[m - 1] == b[m - 1 - |a|];
      }
    }
  }

  /** Two distinct chains with no node in common make a distinct chain. */
  lemma DistinctJoin(a: seq<Node>, b: seq<Node>)
    requires Distinct(a) && Distinct(b) && forall m {:trigger a[m]} :: 0 <= m < |a| ==> a[m] !in b
    ensures Distinct(a + b)
  {
    PairsFromDistinct(a);
    PairsFromDistinct(b);
    var c := a + b;
    forall i, j | 0 <= i < j < |c|
      ensures c[i] != c[j]
    {
      if j < |a| {
        assert c[i] == a[i] && c[j] == a[j];
      } else if i < |a| {
        assert c[i] == a[i] && c[j] == b[j - |a|];
      } else {
        assert c[i] == b[i - |a|] && c[j] == b[j - |a|];
      }
    }
    DistinctFromPairs(c);
  }

  /**
   * The splice of `addBlock`: the block is linked in after t, which is h or the last of
   * the members p before the splice point, and before the members q after it; it takes
   * t's `top`, and it becomes the header's `last` when nothing follows it.
   */
  method Insert(h: Node, t: Node, block: Node, ghost p: seq<Node>, ghost q: seq<Node>)
    requires h.top == h && h.chain == p + q && t == (if p == [] then h else p[|p| - 1]) && t.top == h
    requires h !in p && h !in q && block != h && block !in p && block !in q
    requires Distinct(p) && Distinct(q) && forall m {:trigger p[m]} :: 0 <= m < |p| ==> p[m] !in q
    requires t.next == (if q == [] then null else q[0]) && (q != [] ==> q[0].previous == t && q[|q| - 1].next == null)
    requires p != [] ==> h.next == p[0] && p[0].previous == h
    requires forall m {:trigger p[m].top} :: 0 <= m < |p| ==> p[m].top == h
    requires forall m {:trigger q[m].top} :: 0 <= m < |q| ==> q[m].top == h
    requires forall m {:trigger p[m].previous} :: 0 < m < |p| ==> p[m].previous == p[m - 1]
    requires forall m {:trigger p[m].next} :: 0 <= m < |p| - 1 ==> p[m].next == p[m + 1]
    requires forall m {:trigger q[m].previous} :: 0 < m < |q| ==> q[m].previous == q[m - 1]
    requires forall m {:trigger q[m].next} :: 0 <= m < |q| - 1 ==> q[m].next == q[m + 1]
    modifies h, p, q, block
    ensures Linked(h) && h.chain == p + [block] + q
    ensures h.last == if q == [] then block else old(h.last)
    ensures h.x == old(h.x) && h.y == old(h.y) && h.box == old(h.box) && h.paint == old(h.paint)
  {
    block.next := t.next;
    if t.next != null {
      t.next.previous := block;
    }
    t.next := block;
    block.top := t.top;
    block.previous := t;
    if block.next == null {
      block.top.last := block;
    }
    h.chain := p + [block] + q;
    assert forall m {:trigger p[m]} :: 0 <= m < |p| - 1 ==> p[m] != t by {
      forall m | 0 <= m < |p| - 1
        ensures p[m] != t
      {
        assert IndexIn(p, p[m]) == m && IndexIn(p, p[|p| - 1]) == |p| - 1;
      }
    }
    assert forall m {:trigger q[m]} :: 0 < m < |q| ==> q[m] != q[0] by {
      forall m | 0 < m < |q|
        ensures q[m] != q[0]
      {
        assert IndexIn(q, q[m]) == m && IndexIn(q, q[0]) == 0;
      }
    }
    LinkedFromParts(h, p, [block], q);
  }

  /**
   * The splice of `addBlocks`: the members d of the dragged stack headed by g are linked
   * in after t, which is h or the last of the members p before the splice point, and
   * before the members q after it; the walk from g's first member to the end of the
   * stack then gives each member h as `top` and leaves h's `last` on the final one.
   */
  method Join(h: Node, t: Node, g: Node, ghost p: seq<Node>, ghost d: seq<Node>, ghost q: seq<Node>)
    requires h.top == h && h.chain == p + q && t == (if p == [] then h else p[|p| - 1]) && t.top == h
    requires 0 < |d| && g.next == d[0] && g.last == d[|d| - 1] && d[|d| - 1].next == null
    requires h !in p && h !in d && h !in q && g != h && g !in p && g !in d && g !in q
    requires Distinct(p) && Distinct(d) && Distinct(q)
    requires forall m {:trigger p[m]} :: 0 <= m < |p| ==> p[m] !in d && p[m] !in q
    requires forall m {:trigger d[m]} :: 0 <= m < |d| ==> d[m] !in q
    requires t.next == (if q == [] then null else q[0]) && (q != [] ==> q[0].previous == t && q[|q| - 1].next == null)
    requires p != [] ==> h.next == p[0] && p[0].previous == h
    requires forall m {:trigger p[m].top} :: 0 <= m < |p| ==> p[m].top == h
    requires forall m {:trigger q[m].top} :: 0 <= m < |q| ==> q[m].top == h
    requires forall m {:trigger p[m].previous} :: 0 < m < |p| ==> p[m].previous == p[m - 1]
    requires forall m {:trigger p[m].next} :: 0 <= m < |p| - 1 ==> p[m].next == p[m + 1]
    requires forall m {:trigger d[m].previous} :: 0 < m < |d| ==> d[m].previous == d[m - 1]
    requires forall m {:trigger d[m].next} :: 0 <= m < |d| - 1 ==> d[m].next == d[m + 1]
    requires forall m {:trigger q[m].previous} :: 0 < m < |q| ==> q[m].previous == q[m - 1]
    requires forall m {:trigger q[m].next} :: 0 <= m < |q| - 1 ==> q[m].next == q[m + 1]
    modifies h, p, d, q
    ensures Linked(h) && h.chain == p + d + q
    ensures h.last == if q == [] then d[|d| - 1] else q[|q| - 1]
    ensures h.x == old(h.x) && h.y == old(h.y)
  {
    Relink(h, t, g, p, d, q);
    h.chain := p + d + q;
    JoinLinks(d, q);
    DistinctJoin(d, q);
    ghost var dq := d + q;
    assert dq[0] == d[0] && dq[|dq| - 1] == if q == [] then d[|d| - 1] else q[|q| - 1];
    Restamp(h, g.next, dq);
    assert h.chain == p + dq + [];
    LinkedFromParts(h, p, dq, []);
  }

  /**
   * The relinking of `addBlocks`' splice: the last of d is linked before t's old `next`,
   * and the first of d after t; every other link inside p, d and q is left alone.
   */
  method Relink(h: Node, t: Node, g: Node, ghost p: seq<Node>, ghost d: seq<Node>, ghost q: seq<Node>)
    requires h.top == h && t == (if p == [] then h else p[|p| - 1])
    requires 0 < |d| && g.next == d[0] && g.last == d[|d| - 1] && d[|d| - 1].next == null
    requires h !in p && h !in d && h !in q && g != h && g !in p && g !in d && g !in q
    requires Distinct(p) && Distinct(d) && Distinct(q)
    requires forall m {:trigger p[m]} :: 0 <= m < |p| ==> p[m] !in d && p[m] !in q
    requires forall m {:trigger d[m]} :: 0 <= m < |d| ==> d[m] !in q
    requires t.next == (if q == [] then null else q[0]) && (q != [] ==> q[|q| - 1].next == null)
    requires p != [] ==> h.next == p[0] && p[0].previous == h
    requires forall m {:trigger p[m].previous} :: 0 < m < |p| ==> p[m].previous == p[m - 1]
    requires forall m {:trigger p[m].next} :: 0 <= m < |p| - 1 ==> p[m].next == p[m + 1]
    requires forall m {:trigger d[m].previous} :: 0 < m < |d| ==> d[m].previous == d[m - 1]
    requires forall m {:trigger d[m].next} :: 0 <= m < |d| - 1 ==> d[m].next == d[m + 1]
    requires forall m {:trigger q[m].previous} :: 0 < m < |q| ==> q[m].previous == q[m - 1]
    requires forall m {:trigger q[m].next} :: 0 <= m < |q| - 1 ==> q[m].next == q[m + 1]
    modifies t, d[0], d[|d| - 1], if q == [] then {} else {q[0]}
    ensures h.top == h && h.x == old(h.x) && h.y == old(h.y)
    ensures forall m {:trigger p[m].top} :: 0 <= m < |p| ==> p[m].top == old(p[m].top)
    ensures forall m {:trigger q[m].top} :: 0 <= m < |q| ==> q[m].top == old(q[m].top)
    ensures t.next == d[0] && d[0].previous == t
    ensures q == [] ==> d[|d| - 1].next == null
    ensures q != [] ==> d[|d| - 1].next == q[0] && q[0].previous == d[|d| - 1] && q[|q| - 1].next == null
    ensures p != [] ==> h.next == p[0] && p[0].previous == h
    ensures forall m {:trigger p[m].previous} :: 0 < m < |p| ==> p[m].previous == p[m - 1]
    ensures forall m {:trigger p[m].next} :: 0 <= m < |p| - 1 ==> p[m].next == p[m + 1]
    ensures forall m {:trigger d[m].previous} :: 0 < m < |d| ==> d[m].previous == d[m - 1]
    ensures forall m {:trigger d[m].next} :: 0 <= m < |d| - 1 ==> d[m].next == d[m + 1]
    ensures forall m {:trigger q[m].previous} :: 0 < m < |q| ==> q[m].previous == q[m - 1]
    ensures forall m {:trigger q[m].next} :: 0 <= m < |q| - 1 ==> q[m].next == q[m + 1]
  {
    g.last.next := t.next;
    if t.next != null {
      t.next.previous := g.last;
    }
    t.next := g.next;
    t.next.previous := t;
    assert forall m {:trigger p[m]} :: 0 <= m < |p| - 1 ==> p[m] != t by {
      forall m | 0 <= m < |p| - 1
        ensures p[m] != t
      {
        assert IndexIn(p, p[m]) == m && IndexIn(p, p[|p| - 1]) == |p| - 1;
      }
    }
    assert forall m {:trigger d[m]} :: 0 <= m < |d| - 1 ==> d[m] != d[|d| - 1] by {
      forall m | 0 <= m < |d| - 1
        ensures d[m] != d[|d| - 1]
      {
        assert IndexIn(d, d[m]) == m && IndexIn(d, d[|d| - 1]) == |d| - 1;
      }
    }
    assert forall m {:trigger d[m]} :: 0 < m < |d| ==> d[m] != d[0] by {
      forall m | 0 < m < |d|
        ensures d[m] != d[0]
      {
        assert IndexIn(d, d[m]) == m && IndexIn(d, d[0]) == 0;
      }
    }
    assert forall m {:trigger q[m]} :: 0 < m < |q| ==> q[m] != q[0] by {
      forall m | 0 < m < |q|
        ensures q[m] != q[0]
      {
        assert IndexIn(q, q[m]) == m && IndexIn(q, q[0]) == 0;
      }
    }
  }

  /**
   * `addBlock`'s splice into a well-formed stack headed by h, at chain position i: the
   * block comes after t, the header when i is 0, else the member before position i.
   */
  method InsertAt(h: Node, t: Node, block: Node, ghost i: nat)
    requires Linked(h) && i <= |h.chain| && t == (if i == 0 then h else h.chain[i - 1])
    requires block != h && block !in h.chain
    modifies h, h.chain, block
    ensures Linked(h) && h.chain == old(h.chain)[..i] + [block] + old(h.chain)[i..]
    ensures h.last == if i == |old(h.chain)| then block else old(h.last)
    ensures h.x == old(h.x) && h.y == old(h.y) && h.box == old(h.box) && h.paint == old(h.paint)
  {
    ghost var c := h.chain;
    ghost var p, q := c[..i], c[i..];
    assert c == p + q;
    SpliceLinks(h, t, p, q);
    Insert(h, t, block, p, q);
  }

  /**
   * The new stack of `addBlock`, for the drop point (px, py) in the canvas: a fresh header
   * `{next: block.copy()}`, with its origin at the drop point pulled onto the canvas,
   * linked as the header of a stack whose only member is the copy.
   */
  method NewGroup(block: Node, px: real, py: real) returns (g: Node)
    ensures fresh(g) && Linked(g) && g.x == Placing.Clamp(px) && g.y == Placing.Clamp(py)
    ensures |g.chain| == 1 && fresh(g.chain[0])
    ensures g.chain[0].text == ShownText(block.text) && g.chain[0].width == block.width && g.chain[0].height == block.height
  {
    g := new Node.Group();
    g.next := block.Copy();
    g.x := Placing.Clamp(px);
    g.y := Placing.Clamp(py);
    g.next.previous := g;
    g.next.top := g;
    g.top := g;
    g.chain := [g.next];
  }

  /**
   * The new stack of `addBlocks`: the dragged header g itself, with its origin at the drop
   * point (px, py) pulled onto the canvas, and it and its first member relinked to each
   * other, links a well-formed stack already has.
   */
  method Reroot(g: Node, px: real, py: real)
    requires Linked(g) && 0 < |g.chain|
    modifies g, g.chain[0]
    ensures Linked(g) && g.chain == old(g.chain) && g.x == Placing.Clamp(px) && g.y == Placing.Clamp(py)
  {
    label Before:
    g.x := Placing.Clamp(px);
    g.y := Placing.Clamp(py);
    g.next.previous := g;
    g.next.top := g;
    g.top := g;
    LinkedKept@Before(g);
  }

  /**
   * The first steps of both splices, on a match with member j of the stack headed by h: the
   * node the dropped content goes after is the member, or its `previous` when its top
   * connector was touched; when that node is the header, the stack is first raised by
   * `height`, the height of the content (see Placing.Raise).
   */
  method Anchor(ghost h: Node, m: Match, ghost j: nat, height: real) returns (t: Node)
    requires Linked(h) && j < |h.chain| && m.block == h.chain[j]
    modifies h
    ensures var at := Placing.InsertAt(j, m.position);
      Linked(h) && at <= |h.chain| && t == (if at == 0 then h else h.chain[at - 1]) && t.top == h
      && h.chain == old(h.chain) && h.x == old(h.x) && h.last == old(h.last)
      && h.y == if at == 0 then Placing.Raise(old(h.y), height, SpacingStandard) else old(h.y)
  {
    ghost var c := h.chain;
    ghost var at := Placing.InsertAt(j, m.position);
    assert c[j] in c && c[j].top == h && c[j] != h;
    assert c[j].previous == if j == 0 then h else c[j - 1];
    t := m.block;
    if m.position == Top {
      t := t.previous;
    }
    assert t == if at == 0 then h else c[at - 1];
    assert t.top == h && (t == h <==> at == 0) by {
      if 0 < at {
        assert c[at - 1] in c;
      }
    }
    label Before:
    if t.top == t {
      t.y := Placing.Raise(t.y, height, SpacingStandard);
    }
    LinkedKept@Before(h);
  }

  /** The splice of `addBlock` into the stack headed by h, matched at member j: the block goes after the anchor (see Anchor). */
  method SpliceInto(ghost h: Node, m: Match, block: Node, ghost j: nat)
    requires Linked(h) && j < |h.chain| && m.block == h.chain[j]
    requires block != h && block !in h.chain
    modifies h, h.chain, block
    ensures var at := Placing.InsertAt(j, m.position);
      Linked(h) && h.chain == old(h.chain)[..at] + [block] + old(h.chain)[at..] && h.x == old(h.x)
      && h.y == (if at == 0 then Placing.Raise(old(h.y), block.height, SpacingStandard) else old(h.y))
      && h.last == if at == |old(h.chain)| then block else old(h.last)
  {
    var t := Anchor(h, m, j, block.height);
    InsertAt(t.top, t, block, Placing.InsertAt(j, m.position));
  }

  /**
   * The splice of `addBlocks` of the stack headed by g, whose drawing is `height` tall, into
   * the stack headed by h, matched at member j: g's members go after the anchor (see Anchor).
   */
  method JoinInto(ghost h: Node, m: Match, g: Node, ghost j: nat, height: real)
    requires Linked(h) && j < |h.chain| && m.block == h.chain[j]
    requires Linked(g) && 0 < |g.chain| && g.last == g.chain[|g.chain| - 1]
    requires g != h && g !in h.chain && h !in g.chain && forall n :: n in g.chain ==> n !in h.chain
    modifies h, h.chain, g.chain
    ensures var at := Placing.InsertAt(j, m.position);
      Linked(h) && h.chain == old(h.chain)[..at] + old(g.chain) + old(h.chain)[at..] && h.x == old(h.x)
      && h.y == (if at == 0 then Placing.Raise(old(h.y), height, SpacingStandard) else old(h.y))
      && h.last == h.chain[|h.chain| - 1]
  {
    var t := Anchor(h, m, j, height);
    JoinAt(t.top, t, g, Placing.InsertAt(j, m.position));
  }

  /**
   * `addBlocks`' splice of the well-formed stack headed by g, which shares no node with
   * the one headed by h, into it at chain position i, after t as for InsertAt.
   */
  method JoinAt(h: Node, t: Node, g: Node, ghost i: nat)
    requires Linked(h) && i <= |h.chain| && t == (if i == 0 then h else h.chain[i - 1])
    requires Linked(g) && 0 < |g.chain| && g.last == g.chain[|g.chain| - 1]
    requires g != h && g !in h.chain && h !in g.chain && forall n :: n in g.chain ==> n !in h.chain
    modifies h, h.chain, g.chain
    ensures Linked(h) && h.chain == old(h.chain)[..i] + old(g.chain) + old(h.chain)[i..]
    ensures h.last == h.chain[|h.chain| - 1]
    ensures h.x == old(h.x) && h.y == old(h.y)
  {
    ghost var c := h.chain;
    ghost var p, q := c[..i], c[i..];
    assert c == p + q;
    SpliceLinks(h, t, p, q);
    DraggedParts(h, g, p, q);
    Join(h, t, g, p, g.chain, q);
  }

  /**
   * A header whose chain is p, d and q in turn, each distinct and apart from the others,
   * every member owned by it and linked to its neighbours, heads a well-formed stack.
   */
  lemma LinkedFromParts(h: Node, p: seq<Node>, d: seq<Node>, q: seq<Node>)
    requires h.top == h && h.chain == p + d + q && 0 < |d| && h !in p && h !in d && h !in q
    requires Distinct(p) && Distinct(d) && Distinct(q)
    requires forall m {:trigger p[m]} :: 0 <= m < |p| ==> p[m] !in d && p[m] !in q
    requires forall m {:trigger d[m]} :: 0 <= m < |d| ==> d[m] !in q
    requires p == [] ==> h.next == d[0] && d[0].previous == h
    requires p != [] ==> h.next == p[0] && p[0].previous == h && p[|p| - 1].next == d[0] && d[0].previous == p[|p| - 1]
    requires q == [] ==> d[|d| - 1].next == null
    requires q != [] ==> d[|d| - 1].next == q[0] && q[0].previous == d[|d| - 1] && q[|q| - 1].next == null
    requires forall m {:trigger p[m].top} :: 0 <= m < |p| ==> p[m].top == h
    requires forall m {:trigger d[m].top} :: 0 <= m < |d| ==> d[m].top == h
    requires forall m {:trigger q[m].top} :: 0 <= m < |q| ==> q[m].top == h
    requires forall m {:trigger p[m].previous} :: 0 < m < |p| ==> p[m].previous == p[m - 1]
    requires forall m {:trigger p[m].next} :: 0 <= m < |p| - 1 ==> p[m].next == p[m + 1]
    requires forall m {:trigger d[m].previous} :: 0 < m < |d| ==> d[m].previous == d[m - 1]
    requires forall m {:trigger d[m].next} :: 0 <= m < |d| - 1 ==> d[m].next == d[m + 1]
    requires forall m {:trigger q[m].previous} :: 0 < m < |q| ==> q[m].previous == q[m - 1]
    requires forall m {:trigger q[m].next} :: 0 <= m < |q| - 1 ==> q[m].next == q[m + 1]
    ensures Linked(h)
  {
    var pd := p + d;
    JoinLinks(p, d);
    JoinLinks(pd, q);
    DistinctJoin(p, d);
    forall m | 0 <= m < |pd|
      ensures pd[m] !in q
    {
      if m < |p| {
        assert pd[m] == p[m];
      } else {
        assert pd[m] == d[m - |p|];
      }
    }
    DistinctJoin(pd, q);
    TopsJoin(h, p, d);
    TopsJoin(h, pd, q);
    assert pd[|pd| - 1] == d[|d| - 1] && pd[0] == if p == [] then d[0] else p[0];
    LinkedFromLinks(h);
  }

  /** Chains whose members all have h as `top` make one whose members do too. */
  lemma TopsJoin(h: Node, a: seq<Node>, b: seq<Node>)
    requires forall m {:trigger a[m].top} :: 0 <= m < |a| ==> a[m].top == h
    requires forall m {:trigger b[m].top} :: 0 <= m < |b| ==> b[m].top == h
    ensures var c := a + b; forall m {:trigger c[m].top} :: 0 <= m < |c| ==> c[m].top == h
  {
    var c := a + b;
    forall m | 0 <= m < |c|
      ensures c[m].top == h
    {
      if m < |a| {
        assert c[m] == a[m];
      } else {
        assert c[m] == b[m - |a|];
      }
    }
  }

  /** What `startDrag` leaves for the drag: the dragged stack's header and the size of the div that carries it. */
  datatype Drag = Drag(group: Node, width: real, height: real)

  /** A pointer event as `startDrag` reads it: its `type`, and its `which` and `buttons`, 0 when absent. */
  datatype PointerEvent = PointerEvent(kind: string, which: int, buttons: int)

  /** `e.which || e.buttons`: the button `which` reports, or `buttons` when `which` is absent. */
  function Button(e: PointerEvent): int {
    if e.which != 0 then e.which else e.buttons
  }

  /**
   * The guard of `startDrag`: a click or mouse event not made with the primary button is
   * ignored. Touch events always start a drag; `which`, when reported, decides over
   * `buttons`.
   */
  predicate Ignored(e: PointerEvent): (r: bool)
    ensures e.kind == "touchstart" ==> !r
    ensures e.kind == "mousedown" && e.which != 0 ==> (r <==> e.which != 1)
    ensures e.kind == "mousedown" && e.which == 0 ==> (r <==> e.buttons != 1)
    ensures r ==> e.which != 1 && (e.which == 0 ==> e.buttons != 1)
  {
    (e.kind == "click" || e.kind == "mousedown" || e.kind == "mousemove") && Button(e) != 1
  }

  /**
   * The sizing of the div that carries a dragged stack in `startDrag`: the walk over the
   * stack headed by group adds each member's height plus the spacing, and takes the largest
   * member width; one spacing is then taken off the height.
   */
  method DragCanvasSize(group: Node) returns (width: real, height: real)
    requires Linked(group)
    ensures height == Layout.CanvasHeight(Heights(group.chain), SpacingStandard)
    ensures width == Layout.Widest(Widths(group.chain))
  {
    ghost var c := group.chain;
    ghost var hs, ws := Heights(c), Widths(c);
    var b := group.next;
    height, width := 0.0, 0.0;
    ghost var i := 0;
    while b != null
      invariant 0 <= i <= |c| && b == if i < |c| then c[i] else null
      invariant height == Layout.Offset(hs, SpacingStandard, i)
      invariant width == Layout.Widest(ws[..i])
      decreases |c| - i
    {
      height := height + b.height + SpacingStandard;
      width := if width >= b.width then width else b.width;
      assert ws[..i + 1][..i] == ws[..i];
      b := b.next;
      i := i + 1;
    }
    assert ws[..|c|] == ws;
    height := height - SpacingStandard;
  }

  /** `SpacingStandard`: vertical space added between consecutive members; negative, so their nubs overlap. */
  const SpacingStandard: real := -5.0

  class Workspace {
    /** The forest: the headers of the stacks placed in the canvas, in paint order. */
    var blockTree: seq<Node>
    /** The canvas's position on screen, used to map screen points into the canvas. */
    const originX: real
    const originY: real

    /**
     * `new Workspace(parent, blocks)`: each array of blocks becomes a stack through
     * `arrayToLinkedList`, in order (no arrays: an empty forest), and the forest is drawn.
     * The blocks are fresh, so each array's last block has no successor; an empty array
     * would give a stack whose box `drawStack` leaves undefined, which `findTouchingBlock`
     * then dereferences, so every array holds a block.
     */
    constructor(stacks: seq<seq<Node>>, originX: real, originY: real)
      requires forall k :: 0 <= k < |stacks| ==> |stacks[k]| > 0 && stacks[k][|stacks[k]| - 1].next == null
      requires forall k :: 0 <= k < |stacks| ==> forall i, j :: 0 <= i < j < |stacks[k]| ==> stacks[k][i] != stacks[k][j]
      requires forall k, l :: 0 <= k < l < |stacks| ==> forall n :: n in stacks[k] ==> n !in stacks[l]
      modifies set k, i | 0 <= k < |stacks| && 0 <= i < |stacks[k]| :: stacks[k][i]
      ensures this.originX == originX && this.originY == originY
      ensures Valid() && AllDrawn() && |blockTree| == |stacks|
      ensures forall k :: 0 <= k < |stacks| ==>
                fresh(blockTree[k]) && blockTree[k].chain == stacks[k] && blockTree[k].paint == k
    {
      this.originX, this.originY := originX, originY;
      var tree := BuildForest(stacks);
      blockTree := tree;
      new;
      Redraw();
    }

    /** The headers and members of the stacks of the forest. */
    ghost function Nodes(): (ns: set<Node>)
      reads this, blockTree
      ensures forall k :: 0 <= k < |blockTree| ==> blockTree[k] in ns
      ensures forall k, n :: 0 <= k < |blockTree| && n in blockTree[k].chain ==> n in ns
    {
      assert forall k :: 0 <= k < |blockTree| ==> blockTree[k] in blockTree;
      (set h | h in blockTree) + (set h, n | h in blockTree && n in h.chain :: n)
    }

    /** Every stack of the forest is well formed and has members. */
    ghost predicate Stacks()
      reads this, blockTree, Nodes()
    {
      forall k :: 0 <= k < |blockTree| ==> Linked(blockTree[k]) && |blockTree[k].chain| > 0
    }

    /** The forest is made of distinct, well-formed, non-empty stacks. */
    ghost predicate Valid()
      reads this, blockTree, Nodes()
    {
      Stacks() && Distinct(blockTree)
    }

    /** No node of another stack of the forest belongs to stack k. */
    lemma Apart(k: nat)
      requires Valid() && k < |blockTree|
      ensures forall l :: 0 <= l < |blockTree| && l != k ==>
                blockTree[l] != blockTree[k] && blockTree[l] !in blockTree[k].chain
                && forall n :: n in blockTree[l].chain ==> n != blockTree[k] && n !in blockTree[k].chain
    {
      forall l | 0 <= l < |blockTree| && l != k
        ensures blockTree[l] != blockTree[k]
      {
        assert IndexIn(blockTree, blockTree[l]) == l && IndexIn(blockTree, blockTree[k]) == k;
      }
    }

    /**
     * The forest stays valid while its headers, their chains and the footprint stay put
     * and every stack stays well formed.
     */
    twostate lemma ValidKept()
      requires old(Valid())
      requires blockTree == old(blockTree)
      requires forall k :: 0 <= k < |blockTree| ==>
                 blockTree[k].chain == old(blockTree[k].chain) && Linked(blockTree[k])
      ensures Valid()
    {
    }

    /** Every stack of the forest is drawn, as after `redraw`. */
    ghost predicate AllDrawn()
      reads this, blockTree, Nodes()
      requires Valid()
    {
      forall k :: 0 <= k < |blockTree| ==> Drawn(blockTree[k])
    }

    /** Every stack of the forest has a cached box, as `findTouchingBlock` needs. */
    ghost predicate Boxed()
      reads this, blockTree
    {
      forall k :: 0 <= k < |blockTree| ==> blockTree[k].box.Some?
    }

    /** The forest as hit-testing sees it. */
    ghost function Views(): (vs: seq<StackView>)
      reads *
      requires Boxed()
      ensures |vs| == |blockTree|
      ensures forall k {:trigger View(blockTree[k])} :: 0 <= k < |blockTree| ==> vs[k] == View(blockTree[k])
    {
      seq(|blockTree|, k requires 0 <= k < |blockTree| && Boxed() reads * =>
        View(blockTree[k]))
    }

    /** `transformWithElement(list.group)`: a canvas-placed screen box mapped into h's group. */
    function ToGroup(b: Box, h: Node): Box
      reads h
    {
      Translate(b, -(originX + h.x), -(originY + h.y))
    }

    /**
     * `drawStack`: the stack's group is painted at the given position among its siblings,
     * its members are drawn one under the other, and the header's `last` and `box` are
     * refreshed; the stack stays well formed and, if it has members, is laid out.
     */
    method DrawStack(h: Node, position: int)
      requires Linked(h)
      modifies h, h.chain
      ensures Linked(h) && h.chain == old(h.chain)
      ensures h.x == old(h.x) && h.y == old(h.y) && h.paint == position
      ensures h.chain != [] ==> Drawn(h)
      ensures h.chain == [] ==> h.last == h && h.box == None
    {
      ghost var ys := DrawChain(h, position);
      LinkedKept(h);
      if h.chain != [] {
        LaidOutFromDrawing(h, ys, SpacingStandard);
      }
    }

    /**
     * The body of `drawStack`: the group is painted at the position, the members are drawn
     * (see DrawMembers), and the node the walk ends on and the box are stored in its header.
     */
    method DrawChain(h: Node, position: int) returns (ghost ys: seq<real>)
      requires Linked(h)
      modifies h, h.chain
      ensures h.chain == old(h.chain) && h.top == old(h.top) && h.next == old(h.next)
      ensures h.x == old(h.x) && h.y == old(h.y) && h.paint == position
      ensures h.last == if h.chain == [] then h else h.chain[|h.chain| - 1]
      ensures h.box == Layout.StackBox(Heights(h.chain), SpacingStandard)
      ensures ys == Layout.Offsets(Heights(h.chain), SpacingStandard, |h.chain|)
      ensures forall j :: 0 <= j < |h.chain| ==>
                h.chain[j].next == old(h.chain[j].next) && h.chain[j].previous == old(h.chain[j].previous)
                && h.chain[j].top == old(h.chain[j].top)
      ensures forall j :: 0 <= j < |h.chain| ==>
                h.chain[j].elemX == 0.0 && h.chain[j].elemY == ys[j]
                && !h.chain[j].highlightTop && !h.chain[j].highlightBottom
    {
      h.paint := position;
      var last, box;
      last, box, ys := DrawMembers(h);
      last.top.last := last;
      last.top.box := box;
    }

    /**
     * `list.draw(group).move(0, height)` on the i-th member: it alone is repainted, unhighlighted,
     * at offset y, so the members drawn so far are the first i + 1.
     */
    static method DrawMember(n: Node, ghost c: seq<Node>, ghost i: nat, ghost ys: seq<real>, y: real)
      requires i < |c| && c[i] == n && Distinct(c) && |ys| == i
      requires forall j :: 0 <= j < i ==>
                 c[j].elemX == 0.0 && c[j].elemY == ys[j] && !c[j].highlightTop && !c[j].highlightBottom
      modifies n
      ensures forall j :: 0 <= j < |c| ==>
                c[j].next == old(c[j].next) && c[j].previous == old(c[j].previous) && c[j].top == old(c[j].top)
      ensures forall j :: 0 <= j < i + 1 ==>
                c[j].elemX == 0.0 && c[j].elemY == (ys + [y])[j] && !c[j].highlightTop && !c[j].highlightBottom
    {
      assert IndexIn(c, c[i]) == i;
      n.Draw(y);
    }

    /**
     * The loop of `drawStack`: each member is drawn at the running height, which then grows
     * by the member's height plus the spacing, and its connector zone is combined into the
     * box. Returns the node the walk ends on, the box, and the heights used.
     */
    method DrawMembers(h: Node) returns (last: Node, box: Option<Box>, ghost ys: seq<real>)
      requires Linked(h)
      modifies h.chain
      ensures last == if h.chain == [] then h else h.chain[|h.chain| - 1]
      ensures box == Layout.StackBox(Heights(h.chain), SpacingStandard)
      ensures ys == Layout.Offsets(Heights(h.chain), SpacingStandard, |h.chain|)
      ensures forall j :: 0 <= j < |h.chain| ==>
                h.chain[j].next == old(h.chain[j].next) && h.chain[j].previous == old(h.chain[j].previous)
                && h.chain[j].top == old(h.chain[j].top)
      ensures forall j :: 0 <= j < |h.chain| ==>
                h.chain[j].elemX == 0.0 && h.chain[j].elemY == ys[j]
                && !h.chain[j].highlightTop && !h.chain[j].highlightBottom
    {
      ghost var c, hs := h.chain, Heights(h.chain);
      var height := 0.0;
      box := None;
      last := h;
      ghost var i := 0;
      ys := [];
      while last.next != null
        invariant 0 <= i <= |c|
        invariant last == if i == 0 then h else c[i - 1]
        invariant last.next == if i < |c| then c[i] else null
        invariant forall j :: 0 <= j < |c| ==>
                    c[j].next == old(c[j].next) && c[j].previous == old(c[j].previous) && c[j].top == old(c[j].top)
        invariant height == Layout.Offset(hs, SpacingStandard, i)
        invariant box == Layout.BoxUpTo(hs, SpacingStandard, i)
        invariant ys == Layout.Offsets(hs, SpacingStandard, i)
        invariant forall j :: 0 <= j < i ==>
                    c[j].elemX == 0.0 && c[j].elemY == ys[j] && !c[j].highlightTop && !c[j].highlightBottom
        decreases |c| - i
      {
        last := last.next;
        DrawMember(last, c, i, ys, height);
        ys := ys + [height];
        height := height + last.height + SpacingStandard;
        if box.Some? {
          box := Some(Combine(box.value, last.ConnectorZone()));
        } else {
          box := Some(last.ConnectorZone());
        }
        i := i + 1;
      }
    }

    /**
     * `redraw`: the canvas is cleared and every stack is drawn again, the k-th stack of the
     * forest as the k-th group painted; afterwards every stack is laid out.
     */
    method Redraw()
      requires Valid()
      modifies Nodes()
      ensures Valid() && AllDrawn()
      ensures blockTree == old(blockTree)
      ensures forall k :: 0 <= k < |blockTree| ==>
                blockTree[k].chain == old(blockTree[k].chain) && blockTree[k].paint == k
                && blockTree[k].x == old(blockTree[k].x) && blockTree[k].y == old(blockTree[k].y)
      ensures Shape() == old(Shape())
    {
      var k := 0;
      while k < |blockTree|
        invariant 0 <= k <= |blockTree| && Valid()
        invariant forall l :: 0 <= l < |blockTree| ==>
                    blockTree[l].chain == old(blockTree[l].chain)
                    && blockTree[l].x == old(blockTree[l].x) && blockTree[l].y == old(blockTree[l].y)
        invariant forall l :: 0 <= l < k ==> Drawn(blockTree[l]) && blockTree[l].paint == l
      {
        DrawNth(k);
        k := k + 1;
      }
    }

    /** One step of `redraw`: the k-th stack is drawn as the k-th group; the others are left as they were. */
    method DrawNth(k: nat)
      requires Valid() && k < |blockTree|
      modifies blockTree[k], blockTree[k].chain
      ensures Valid() && Drawn(blockTree[k]) && blockTree[k].paint == k
      ensures forall l :: 0 <= l < |blockTree| ==>
                blockTree[l].chain == old(blockTree[l].chain)
                && blockTree[l].x == old(blockTree[l].x) && blockTree[l].y == old(blockTree[l].y)
      ensures forall l :: 0 <= l < |blockTree| && l != k ==>
                blockTree[l].paint == old(blockTree[l].paint) && (old(Drawn(blockTree[l])) ==> Drawn(blockTree[l]))
    {
      Apart(k);
      DrawStack(blockTree[k], k);
      forall l | 0 <= l < |blockTree| && l != k
        ensures Linked(blockTree[l]) && (old(Drawn(blockTree[l])) ==> Drawn(blockTree[l]))
      {
        StackKept(blockTree[l]);
      }
      ValidKept();
    }
  
    /**
     * `_.remove(this.blockTree, group)` for the header of stack k: that stack leaves the
     * forest, and the others keep their order.
     */
    method RemoveStack(group: Node, ghost k: nat)
      requires Valid() && k < |blockTree| && blockTree[k] == group
      modifies this
      ensures Valid() && blockTree == old(blockTree[..k] + blockTree[k + 1..])
      ensures Shape() == old(Shape()[..k] + Shape()[k + 1..])
    {
      PairsFromDistinct(blockTree);
      RemoveAt(blockTree, k);
      DistinctDrop(blockTree, k);
      blockTree := Remove(blockTree, group);
    }

    /**
     * The detach of `startDrag`: the grabbed block, member i of stack k, leaves the forest
     * with the members after it, as the stack the returned header heads, whose origin is
     * reset. When the block is the first member (its `previous` is its `top`), the whole
     * stack is taken out of the forest (see TakeStack); otherwise the stack keeps the
     * members before it and a fresh header takes the block and the rest (see SplitStack).
     */
    method Detach(block: Node, ghost k: nat, ghost i: nat) returns (group: Node)
      requires Valid() && k < |blockTree| && i < |blockTree[k].chain| && blockTree[k].chain[i] == block
      modifies this, blockTree[k], blockTree[k].chain
      ensures Valid() && Linked(group) && group.x == 0.0 && group.y == 0.0
      ensures group.chain == old(blockTree[k].chain)[i..]
      ensures forall l :: 0 <= l < |blockTree| ==> blockTree[l] != group
      ensures i == 0 ==> group == old(blockTree[k]) && blockTree == old(blockTree[..k] + blockTree[k + 1..])
      ensures 0 < i ==> fresh(group) && group.last == old(blockTree[k].chain[|blockTree[k].chain| - 1])
      ensures 0 < i ==> blockTree == old(blockTree) && blockTree[k].chain == old(blockTree[k].chain)[..i]
      ensures 0 < i ==> blockTree[k].last == old(blockTree[k].last)
      ensures Detached(old(Shape()), Shape(), k, i)
      ensures Nodes() <= old(Nodes())
    {
      Apart(k);
      FirstMember(blockTree[k], i);
      if block.top == block || block.top == block.previous {
        group := TakeStack(block.top, k);
      } else {
        group := SplitStack(block, k, i);
      }
      NodesShrink();
    }

    /** The forest's node set only shrinks while every header is an old one holding only old members. */
    twostate lemma NodesShrink()
      requires forall l :: 0 <= l < |blockTree| ==>
                 var h := blockTree[l]; h in old(blockTree) && forall n :: n in h.chain ==> n in old(h.chain)
      ensures Nodes() <= old(Nodes())
    {
    }

    /** The detach of a stack's first member: its header leaves the forest and its origin is reset. */
    method TakeStack(group: Node, ghost k: nat) returns (g: Node)
      requires Valid() && k < |blockTree| && blockTree[k] == group
      modifies this, group
      ensures g == group && Valid() && Linked(g) && g.chain == old(g.chain) && g.x == 0.0 && g.y == 0.0
      ensures blockTree == old(blockTree[..k] + blockTree[k + 1..])
      ensures Detached(old(Shape()), Shape(), k, 0)
      ensures forall l :: 0 <= l < |blockTree| ==> blockTree[l] != g
    {
      Apart(k);
      RemoveStack(group, k);
      label Removed:
      group.x, group.y := 0.0, 0.0;
      LinkedKept@Removed(group);
      forall l | 0 <= l < |blockTree|
        ensures Linked(blockTree[l]) && blockTree[l] != group
      {
        StackKept@Removed(blockTree[l]);
      }
      ShapeKept@Removed();
      ValidFrom();
      g := group;
    }

    /**
     * The detach of a later member: stack k keeps the members before position i, and a
     * fresh header, with its origin reset, takes the block and the members after it. The
     * reset, which the cut does not read, is made before it rather than after.
     */
    method SplitStack(block: Node, ghost k: nat, ghost i: nat) returns (group: Node)
      requires Valid() && k < |blockTree| && 0 < i < |blockTree[k].chain| && blockTree[k].chain[i] == block
      requires block.top == blockTree[k]
      modifies blockTree[k], blockTree[k].chain
      ensures Valid() && fresh(group) && Linked(group) && group.x == 0.0 && group.y == 0.0
      ensures group.chain == old(blockTree[k].chain)[i..]
      ensures group.last == old(blockTree[k].chain[|blockTree[k].chain| - 1])
      ensures blockTree == old(blockTree) && blockTree[k].chain == old(blockTree[k].chain)[..i]
      ensures Detached(old(Shape()), Shape(), k, i)
      ensures blockTree[k].last == old(blockTree[k].last) && blockTree[k].box == old(blockTree[k].box)
      ensures forall l :: 0 <= l < |blockTree| ==> blockTree[l].paint == old(blockTree[l].paint)
    {
      ghost var h := blockTree[k];
      ghost var c := h.chain;
      Apart(k);
      label Before:
      group := new Node.Group();
      group.x, group.y := 0.0, 0.0;
      CutAt(block.top, block, group, i);
      OthersKept@Before(k);
      ValidFrom();
    }

    /**
     * `startDrag` on the block, member i of stack k: an event the guard ignores changes
     * nothing. Otherwise the block and the members after it are lifted out of the forest
     * (see Lift).
     */
    method StartDrag(e: PointerEvent, block: Node, ghost k: nat, ghost i: nat) returns (drag: Option<Drag>)
      requires Valid() && k < |blockTree| && i < |blockTree[k].chain| && blockTree[k].chain[i] == block
      modifies this, Nodes()
      ensures drag.None? <==> Ignored(e)
      ensures drag.None? ==> unchanged(this) && forall n :: n in old(Nodes()) ==> unchanged(n)
      ensures drag.Some? ==> Valid() && AllDrawn()
      ensures drag.Some? ==>
                var g := drag.value.group;
                Drawn(g) && g.paint == 0 && g.x == 0.0 && g.y == 0.0 && g.chain == old(blockTree[k].chain)[i..]
                && (forall l :: 0 <= l < |blockTree| ==> blockTree[l] != g)
                && drag.value.height == Layout.CanvasHeight(Heights(g.chain), SpacingStandard)
                && drag.value.width == Layout.Widest(Widths(g.chain))
      ensures drag.Some? && i == 0 ==> blockTree == old(blockTree[..k] + blockTree[k + 1..])
      ensures drag.Some? && 0 < i ==> blockTree == old(blockTree) && blockTree[k].chain == old(blockTree[k].chain)[..i]
      ensures drag.Some? ==> Detached(old(Shape()), Shape(), k, i)
      ensures drag.Some? ==> forall l :: 0 <= l < |blockTree| ==> blockTree[l].paint == l
    {
      if Ignored(e) {
        return None;
      }
      var d := Lift(block, k, i);
      drag := Some(d);
    }

    /**
     * The body of `startDrag` past the guard: the block and the members after it are
     * detached (see Detach), the div that will carry them is sized to hold them, they are
     * drawn as the only group of that div, and the forest, which no longer holds them, is
     * redrawn (see Carry). The forest loses exactly the detached members (see
     * DetachedCount), and its stacks are painted in forest order.
     */
    method Lift(block: Node, ghost k: nat, ghost i: nat) returns (d: Drag)
      requires Valid() && k < |blockTree| && i < |blockTree[k].chain| && blockTree[k].chain[i] == block
      modifies this, Nodes()
      ensures Valid() && AllDrawn()
      ensures var g := d.group;
                Drawn(g) && g.paint == 0 && g.x == 0.0 && g.y == 0.0 && g.chain == old(blockTree[k].chain)[i..]
                && (forall l :: 0 <= l < |blockTree| ==> blockTree[l] != g)
                && d.height == Layout.CanvasHeight(Heights(g.chain), SpacingStandard)
                && d.width == Layout.Widest(Widths(g.chain))
      ensures i == 0 ==> blockTree == old(blockTree[..k] + blockTree[k + 1..])
      ensures 0 < i ==> blockTree == old(blockTree) && blockTree[k].chain == old(blockTree[k].chain)[..i]
      ensures Detached(old(Shape()), Shape(), k, i)
      ensures forall l :: 0 <= l < |blockTree| ==> blockTree[l].paint == l
    {
      var group := Detach(block, k, i);
      d := Carry(group);
    }

    /**
     * The part of `startDrag` after the detach: the div that will carry the detached stack
     * is sized to hold it (see DragCanvasSize), and both are drawn (see ShowApart).
     */
    method Carry(group: Node) returns (d: Drag)
      requires Valid() && Linked(group) && |group.chain| > 0
      requires forall l :: 0 <= l < |blockTree| ==> blockTree[l] != group
      modifies Nodes(), group, group.chain
      ensures Valid() && AllDrawn() && blockTree == old(blockTree) && Shape() == old(Shape())
      ensures forall l :: 0 <= l < |blockTree| ==> blockTree[l].chain == old(blockTree[l].chain) && blockTree[l].paint == l
      ensures d.group == group && Drawn(group) && group.paint == 0 && group.chain == old(group.chain)
      ensures group.x == old(group.x) && group.y == old(group.y)
      ensures d.height == Layout.CanvasHeight(Heights(group.chain), SpacingStandard)
      ensures d.width == Layout.Widest(Widths(group.chain))
    {
      var width, height := DragCanvasSize(group);
      ShowApart(group);
      d := Drag(group, width, height);
    }

    /**
     * The drawing half of `startDrag`: the detached stack is drawn as the first group of the
     * drag div, then the forest is redrawn; the detached stack shares no node with the
     * forest, so each drawing leaves the other alone.
     */
    method ShowApart(group: Node)
      requires Valid() && Linked(group) && |group.chain| > 0
      requires forall l :: 0 <= l < |blockTree| ==> blockTree[l] != group
      modifies Nodes(), group, group.chain
      ensures Valid() && AllDrawn() && blockTree == old(blockTree) && Shape() == old(Shape())
      ensures forall l :: 0 <= l < |blockTree| ==> blockTree[l].chain == old(blockTree[l].chain) && blockTree[l].paint == l
      ensures Drawn(group) && group.paint == 0 && group.chain == old(group.chain)
      ensures group.x == old(group.x) && group.y == old(group.y)
    {
      Outside(group);
      label Before:
      DrawStack(group, 0);
      ForestKept@Before();
      label Drawn:
      Outside(group);
      Redraw();
      StackKept@Drawn(group);
    }

    /** The forest stays valid, with the same nodes, while none of its nodes is touched. */
    twostate lemma ForestKept()
      requires old(Valid()) && unchanged(this)
      requires forall n :: n in old(Nodes()) ==> unchanged(n)
      ensures Valid() && Nodes() == old(Nodes()) && Shape() == old(Shape())
    {
      forall l | 0 <= l < |blockTree|
        ensures Linked(blockTree[l]) && blockTree[l].chain == old(blockTree[l].chain)
      {
        assert old(blockTree[l] in Nodes() && forall n :: n in blockTree[l].chain ==> n in Nodes());
        StackKept(blockTree[l]);
      }
    }

    /** The forest's shape stays put while neither the forest nor any of its headers is touched. */
    twostate lemma ShapeKept()
      requires unchanged(this) && forall l :: 0 <= l < |blockTree| ==> unchanged(blockTree[l])
      ensures Shape() == old(Shape())
    {
    }

    /**
     * While only stack k's header and members are touched, the other stacks stay well
     * formed and the forest's shape changes at most at stack k.
     */
    twostate lemma OthersKept(new k: nat)
      requires unchanged(this) && k < |blockTree|
      requires forall l :: 0 <= l < |blockTree| && l != k ==>
                 unchanged(blockTree[l]) && forall n :: n in old(blockTree[l].chain) ==> unchanged(n)
      ensures forall l :: 0 <= l < |blockTree| && l != k ==> old(Linked(blockTree[l])) ==> Linked(blockTree[l])
      ensures Shape() == old(Shape())[k := Shape()[k]]
    {
      forall l | 0 <= l < |blockTree| && l != k
        ensures old(Linked(blockTree[l])) ==> Linked(blockTree[l])
      {
        StackKept(blockTree[l]);
      }
    }

    /**
     * Once the stacks are painted in forest order, as `redraw` leaves them, the member the
     * hit test picks belongs to the last stack touched: no stack after it is touched.
     */
    lemma TopmostHit(q: Query)
      requires Boxed() && forall l :: 0 <= l < |blockTree| ==> blockTree[l].paint == l
      ensures var r := Scan(Views(), q);
        r.Some? ==> forall l :: r.value.stack < l < |blockTree| ==> StackTouch(Views()[l], q).None?
    {
      var vs := Views();
      forall l | 0 <= l < |vs|
        ensures Paints(vs)[l] == l
      {
        assert vs[l] == View(blockTree[l]);
      }
      LaterStackWins(Touches(vs, q), Paints(vs));
    }

    /** The forest as the drops see it: each stack's header, members and origin, in forest order. */
    ghost function Shape(): (s: seq<StackShape>)
      reads this, blockTree
      ensures |s| == |blockTree|
      ensures forall k {:trigger s[k]} :: 0 <= k < |s| ==>
                s[k] == StackShape(blockTree[k], blockTree[k].chain, blockTree[k].x, blockTree[k].y)
    {
      seq(|blockTree|, k requires 0 <= k < |blockTree| reads this, blockTree =>
        StackShape(blockTree[k], blockTree[k].chain, blockTree[k].x, blockTree[k].y))
    }

    /**
     * `addBlock`: a block dragged out of the toolbox is let go at screen offset (dx, dy); it
     * is placed as the hit test decides (see DropAt) and the forest is redrawn.
     */
    method AddBlock(block: Node, dx: real, dy: real)
      requires Valid() && AllDrawn() && block !in Nodes()
      modifies this, Nodes(), block
      ensures Valid() && AllDrawn() && forall l :: 0 <= l < |blockTree| ==> blockTree[l].paint == l
      ensures var d := Placing.DropOf(old(Scan(Views(), Query(BlockCandidate(block), dx, dy, originX, originY))),
                                      dx - originX, dy - originY, block.width, block.height);
        Placed(old(Shape()), Shape(), d, [block], block.height)
        && (d.NewStack? ==>
              var g := blockTree[|blockTree| - 1];
              fresh(g) && fresh(g.chain[0])
              && g.chain[0].text == ShownText(block.text) && g.chain[0].width == block.width && g.chain[0].height == block.height)
    {
      ghost var hit := Scan(Views(), Query(BlockCandidate(block), dx, dy, originX, originY));
      DropAt(block, dx, dy, hit);
      Redraw();
    }

    /**
     * The part of `addBlock` before the redraw: the forest is searched for a member the
     * block touches at screen offset (dx, dy) (see FindTouchingBlock), which finds the match
     * `hit` names, and the block is placed accordingly, at the drop point mapped into the
     * canvas (see DropBlock).
     */
    method DropAt(block: Node, dx: real, dy: real, ghost hit: Option<Hit>)
      requires Valid() && Boxed() && block !in Nodes()
      requires hit == Scan(Views(), Query(BlockCandidate(block), dx, dy, originX, originY))
      modifies this, Nodes(), block
      ensures Valid()
      ensures var d := Placing.DropOf(hit, dx - originX, dy - originY, block.width, block.height);
        Placed(old(Shape()), Shape(), d, [block], block.height)
        && (d.NewStack? ==>
              var g := blockTree[|blockTree| - 1];
              fresh(g) && fresh(g.chain[0])
              && g.chain[0].text == ShownText(block.text) && g.chain[0].width == block.width && g.chain[0].height == block.height)
      ensures forall n :: n in Nodes() ==> n in old(Nodes()) || n == block || fresh(n)
    {
      var r := FindTouchingBlock(BlockCandidate(block), dx, dy);
      DropBlock(block, r, hit, dx - originX, dy - originY);
    }

    /**
     * The placing half of `addBlock`, for `findTouchingBlock`'s result r, which names the
     * member and side `hit` gives, and the drop point (px, py) in the canvas: the block is
     * spliced next to the member matched (see SpliceBlock); or, with no match, forgotten
     * when its centre is off the canvas, and otherwise copied as the only member of a new
     * stack (see PushCopy). The outcome is the one Placing.DropOf decides.
     */
    method DropBlock(block: Node, r: Option<Match>, ghost hit: Option<Hit>, px: real, py: real)
      requires Valid() && block !in Nodes()
      requires r.None? <==> hit.None?
      requires r.Some? ==> hit.value.stack < |blockTree| && hit.value.member < |blockTree[hit.value.stack].chain|
                           && r.value == Match(blockTree[hit.value.stack].chain[hit.value.member], hit.value.pos)
      modifies this, Nodes(), block
      ensures Valid()
      ensures var d := Placing.DropOf(hit, px, py, block.width, block.height);
        Placed(old(Shape()), Shape(), d, [block], block.height)
        && (d.NewStack? ==>
              var g := blockTree[|blockTree| - 1];
              fresh(g) && fresh(g.chain[0])
              && g.chain[0].text == ShownText(block.text) && g.chain[0].width == block.width && g.chain[0].height == block.height)
      ensures forall n :: n in Nodes() ==> n in old(Nodes()) || n == block || fresh(n)
    {
      if r.Some? {
        SpliceBlock(block, r.value, hit.value);
      } else if Placing.OffCanvas(px, py, block.width, block.height) {
      } else {
        PushCopy(block, px, py);
      }
    }

    /** The splice branch of `addBlock`, on the match `hit` names (see SpliceInto); the other stacks are left alone. */
    method SpliceBlock(block: Node, m: Match, ghost hit: Hit)
      requires Valid() && hit.stack < |blockTree| && hit.member < |blockTree[hit.stack].chain|
      requires m == Match(blockTree[hit.stack].chain[hit.member], hit.pos)
      requires block !in Nodes()
      modifies blockTree[hit.stack], blockTree[hit.stack].chain, block
      ensures Valid()
      ensures Spliced(old(Shape()), Shape(), hit.stack, Placing.InsertAt(hit.member, hit.pos), [block], block.height)
      ensures forall n :: n in Nodes() ==> n in old(Nodes()) || n == block
    {
      label Before:
      SpliceInto(blockTree[hit.stack], m, block, hit.member);
      SplicedKept@Before(hit.stack, Placing.InsertAt(hit.member, hit.pos), [block], block.height);
    }

    /**
     * The new-stack branch of `addBlock`, for the drop point (px, py) in the canvas: a fresh
     * header whose only member is a copy of the block, with its origin at the drop point
     * pulled onto the canvas, is pushed onto the forest. The stacks already there are left
     * alone.
     */
    method PushCopy(block: Node, px: real, py: real)
      requires Valid()
      modifies this
      ensures Valid()
      ensures Pushed(old(Shape()), Shape(), Placing.Clamp(px), Placing.Clamp(py), 1)
      ensures var g := blockTree[|blockTree| - 1];
        fresh(g) && fresh(g.chain[0])
        && g.chain[0].text == ShownText(block.text) && g.chain[0].width == block.width && g.chain[0].height == block.height
      ensures forall n :: n in Nodes() ==> n in old(Nodes()) || fresh(n)
    {
      var g := NewGroup(block, px, py);
      Push(g);
    }

    /**
     * `this.blockTree.push(g)`, as both new-stack branches end: the well-formed stack g,
     * which shares no node with the forest, is pushed after the stacks already there.
     */
    method Push(g: Node)
      requires Valid() && Linked(g) && 0 < |g.chain|
      requires forall l :: 0 <= l < |blockTree| ==> blockTree[l] != g
      modifies this
      ensures Valid() && blockTree == old(blockTree) + [g]
      ensures Pushed(old(Shape()), Shape(), g.x, g.y, |g.chain|)
      ensures forall n :: n in Nodes() ==> n in old(Nodes()) || n == g || n in g.chain
    {
      Outside(g);
      DistinctPush(blockTree, g);
      blockTree := blockTree + [g];
      ValidFrom();
      NodesWithin({g} + set n | n in g.chain);
    }

    /**
     * `addBlocks`: the stack headed by block, dragged apart from the forest (see StartDrag)
     * and drawn as a group `width` wide and `height` tall, is let go at screen offset
     * (dx, dy); its members are placed as the hit test decides (see DropStackAt) and the
     * forest is redrawn. A new stack is the dragged stack itself.
     */
    method AddBlocks(block: Node, dx: real, dy: real, width: real, height: real)
      requires Valid() && AllDrawn()
      requires Linked(block) && 0 < |block.chain| && block.last == block.chain[|block.chain| - 1]
      requires forall l :: 0 <= l < |blockTree| ==> blockTree[l] != block
      modifies this, Nodes(), block, block.chain
      ensures Valid() && AllDrawn() && forall l :: 0 <= l < |blockTree| ==> blockTree[l].paint == l
      ensures var d := Placing.DropOf(old(Scan(Views(), Query(StackCandidate(block), dx, dy, originX, originY))),
                                      dx - originX, dy - originY, width, height);
        Placed(old(Shape()), Shape(), d, old(block.chain), height)
        && (d.NewStack? ==> blockTree[|blockTree| - 1] == block && block.chain == old(block.chain))
    {
      ghost var hit := Scan(Views(), Query(StackCandidate(block), dx, dy, originX, originY));
      DropStackAt(block, dx, dy, width, height, hit);
      Redraw();
    }

    /**
     * The part of `addBlocks` before the redraw: the forest is searched for a member the
     * dragged stack touches at screen offset (dx, dy) (see FindTouchingBlock), which finds
     * the match `hit` names, and the stack is placed accordingly, at the drop point mapped
     * into the canvas (see DropStack).
     */
    method DropStackAt(block: Node, dx: real, dy: real, width: real, height: real, ghost hit: Option<Hit>)
      requires Valid() && Boxed()
      requires Linked(block) && 0 < |block.chain| && block.last == block.chain[|block.chain| - 1]
      requires forall l :: 0 <= l < |blockTree| ==> blockTree[l] != block
      requires hit == Scan(Views(), Query(StackCandidate(block), dx, dy, originX, originY))
      modifies this, Nodes(), block, block.chain
      ensures Valid()
      ensures var d := Placing.DropOf(hit, dx - originX, dy - originY, width, height);
        Placed(old(Shape()), Shape(), d, old(block.chain), height)
        && (d.NewStack? ==> blockTree[|blockTree| - 1] == block && block.chain == old(block.chain))
      ensures forall n :: n in Nodes() ==> n in old(Nodes()) || n == block || n in old(block.chain)
    {
      var r := FindStack(block, dx, dy, hit);
      DropStack(block, r, hit, dx - originX, dy - originY, width, height);
    }

    /**
     * `findTouchingBlock(new f(block), offset)` on the dragged stack headed by block: the
     * match found is the one `hit` names, and nothing changes.
     */
    method FindStack(block: Node, dx: real, dy: real, ghost hit: Option<Hit>) returns (r: Option<Match>)
      requires Valid() && Boxed()
      requires Linked(block) && 0 < |block.chain| && block.last == block.chain[|block.chain| - 1]
      requires forall l :: 0 <= l < |blockTree| ==> blockTree[l] != block
      requires hit == Scan(Views(), Query(StackCandidate(block), dx, dy, originX, originY))
      ensures Valid() && Shape() == old(Shape()) && Nodes() == old(Nodes())
      ensures Linked(block) && 0 < |block.chain| && block.last == block.chain[|block.chain| - 1]
      ensures block.chain == old(block.chain) && forall l :: 0 <= l < |blockTree| ==> blockTree[l] != block
      ensures r.None? <==> hit.None?
      ensures r.Some? ==> hit.value.stack < |blockTree| && hit.value.member < |blockTree[hit.value.stack].chain|
                          && r.value == Match(blockTree[hit.value.stack].chain[hit.value.member], hit.value.pos)
    {
      label Before:
      r := FindTouchingBlock(StackCandidate(block), dx, dy);
      StackKept@Before(block);
    }

    /**
     * The placing half of `addBlocks`, for `findTouchingBlock`'s result r, which names the
     * member and side `hit` gives, and the drop point (px, py) in the canvas: the dragged
     * members are spliced next to the member matched (see JoinStack); or, with no match,
     * dropped when the centre of the dragged group is off the canvas, and otherwise kept as
     * a stack of their own (see PushStack). The outcome is the one Placing.DropOf decides.
     */
    method DropStack(block: Node, r: Option<Match>, ghost hit: Option<Hit>, px: real, py: real, width: real, height: real)
      requires Valid()
      requires Linked(block) && 0 < |block.chain| && block.last == block.chain[|block.chain| - 1]
      requires forall l :: 0 <= l < |blockTree| ==> blockTree[l] != block
      requires r.None? <==> hit.None?
      requires r.Some? ==> hit.value.stack < |blockTree| && hit.value.member < |blockTree[hit.value.stack].chain|
                           && r.value == Match(blockTree[hit.value.stack].chain[hit.value.member], hit.value.pos)
      modifies this, Nodes(), block, block.chain
      ensures Valid()
      ensures var d := Placing.DropOf(hit, px, py, width, height);
        Placed(old(Shape()), Shape(), d, old(block.chain), height)
        && (d.NewStack? ==> blockTree[|blockTree| - 1] == block && block.chain == old(block.chain))
      ensures forall n :: n in Nodes() ==> n in old(Nodes()) || n == block || n in old(block.chain)
    {
      if r.Some? {
        JoinStack(block, r.value, hit.value, height);
      } else if Placing.OffCanvas(px, py, width, height) {
      } else {
        PushStack(block, px, py);
      }
    }

    /**
     * The splice branch of `addBlocks`, on the match `hit` names (see JoinInto): the dragged
     * members join the stack matched; the other stacks are left alone.
     */
    method JoinStack(block: Node, m: Match, ghost hit: Hit, height: real)
      requires Valid() && hit.stack < |blockTree| && hit.member < |blockTree[hit.stack].chain|
      requires m == Match(blockTree[hit.stack].chain[hit.member], hit.pos)
      requires Linked(block) && 0 < |block.chain| && block.last == block.chain[|block.chain| - 1]
      requires forall l :: 0 <= l < |blockTree| ==> blockTree[l] != block
      modifies blockTree[hit.stack], blockTree[hit.stack].chain, block.chain
      ensures Valid()
      ensures Spliced(old(Shape()), Shape(), hit.stack, Placing.InsertAt(hit.member, hit.pos), old(block.chain), height)
      ensures forall n :: n in Nodes() ==> n in old(Nodes()) || n in old(block.chain)
    {
      Outside(block);
      label Before:
      JoinInto(blockTree[hit.stack], m, block, hit.member, height);
      SplicedKept@Before(hit.stack, Placing.InsertAt(hit.member, hit.pos), old(block.chain), height);
    }

    /**
     * The new-stack branch of `addBlocks`, for the drop point (px, py) in the canvas: the
     * dragged stack, moved there (see Reroot), is pushed onto the forest. The stacks
     * already there are left alone.
     */
    method PushStack(block: Node, px: real, py: real)
      requires Valid()
      requires Linked(block) && 0 < |block.chain|
      requires forall l :: 0 <= l < |blockTree| ==> blockTree[l] != block
      modifies this, block, block.chain[0]
      ensures Valid()
      ensures Pushed(old(Shape()), Shape(), Placing.Clamp(px), Placing.Clamp(py), |old(block.chain)|)
      ensures blockTree[|blockTree| - 1] == block && block.chain == old(block.chain)
      ensures forall n :: n in Nodes() ==> n in old(Nodes()) || n == block || n in old(block.chain)
    {
      Outside(block);
      assert block.chain[0] in block.chain;
      label Before:
      Reroot(block, px, py);
      ForestKept@Before();
      Push(block);
    }

    /**
     * After a splice of d into stack k at position at, which touched no node of the other
     * stacks and raised stack k by `raise` when at is the first position, the forest is
     * still valid, has changed as Spliced says, and has gained only the nodes of d.
     */
    twostate lemma SplicedKept(new k: nat, new at: nat, new d: seq<Node>, new raise: real)
      requires old(Valid()) && unchanged(this) && k < |blockTree| && at <= |old(blockTree[k].chain)|
      requires forall n :: n in old(Nodes()) && n != blockTree[k] && n !in old(blockTree[k].chain) ==> unchanged(n)
      requires Linked(blockTree[k])
      requires blockTree[k].chain == old(blockTree[k].chain)[..at] + d + old(blockTree[k].chain)[at..]
      requires blockTree[k].x == old(blockTree[k].x)
      requires blockTree[k].y == if at == 0 then Placing.Raise(old(blockTree[k].y), raise, SpacingStandard) else old(blockTree[k].y)
      ensures Valid()
      ensures Spliced(old(Shape()), Shape(), k, at, d, raise)
      ensures forall n :: n in Nodes() ==> n in old(Nodes()) || n in d
    {
      forall l | 0 <= l < |blockTree| && l != k
        ensures Linked(blockTree[l]) && blockTree[l].chain == old(blockTree[l].chain)
                && blockTree[l].x == old(blockTree[l].x) && blockTree[l].y == old(blockTree[l].y)
      {
        assert old(IndexIn(blockTree, blockTree[l]) == l && IndexIn(blockTree, blockTree[k]) == k);
        assert old(blockTree[l] in Nodes() && forall n :: n in blockTree[l].chain ==> n in Nodes());
        assert old(Linked(blockTree[l]) && Linked(blockTree[k]));
        StackKept(blockTree[l]);
      }
      ValidFrom();
      SpliceMembers(old(blockTree[k].chain), at, d);
      assert old(blockTree[k] in Nodes() && forall n :: n in blockTree[k].chain ==> n in Nodes());
    }

    /**
     * The forest's nodes are old nodes of the forest or among `extra` while every header and
     * member is.
     */
    twostate lemma NodesWithin(new extra: set<Node>)
      requires forall l :: 0 <= l < |blockTree| ==>
                 (blockTree[l] in old(Nodes()) || blockTree[l] in extra)
                 && forall n :: n in blockTree[l].chain ==> n in old(Nodes()) || n in extra
      ensures forall n :: n in Nodes() ==> n in old(Nodes()) || n in extra
    {
    }

    /** A well-formed stack whose header is not one of the forest's shares no node with the forest. */
    lemma Outside(g: Node)
      requires Valid() && Linked(g) && forall l :: 0 <= l < |blockTree| ==> blockTree[l] != g
      ensures g !in Nodes() && forall n :: n in g.chain ==> n !in Nodes()
    {
      forall l | 0 <= l < |blockTree|
        ensures g !in blockTree[l].chain && forall n :: n in g.chain ==> n != blockTree[l] && n !in blockTree[l].chain
      {
        Separate(blockTree[l], g);
      }
    }

    /** A forest of distinct headers of well-formed, non-empty stacks is valid. */
    lemma ValidFrom()
      requires forall l :: 0 <= l < |blockTree| ==> Linked(blockTree[l]) && |blockTree[l].chain| > 0
      requires Distinct(blockTree)
      ensures Valid()
    {
    }

    /**
     * The outcome of scanning some stacks in `findTouchingBlock`: the match found so far
     * is the member and side that `hit` names.
     */
    ghost predicate Agrees(found: Option<Match>, hit: Option<Hit>)
      reads this, blockTree, if found.Some? then {found.value.block} else {}
    {
      (found.None? <==> hit.None?)
      && (hit.Some? ==>
            hit.value.stack < |blockTree| && hit.value.member < |blockTree[hit.value.stack].chain|
            && found.value == Match(blockTree[hit.value.stack].chain[hit.value.member], hit.value.pos)
            && found.value.block.top == blockTree[hit.value.stack])
    }

    /**
     * One turn of the `blockTree.map` in `findTouchingBlock`, for the stack headed by h:
     * the stack is skipped when its cached box misses the candidate's zone; otherwise its
     * chain is walked (see WalkChain). The result is the stack's own match, `StackTouch`.
     */
    method StackMatch(h: Node, box: Box, boxTop: Box, boxBottom: Box, ghost q: Query, ghost s: StackView)
      returns (m: Option<Match>)
      requires Linked(h) && h.box.Some? && View(h) == s
      requires q.originX == originX && q.originY == originY
      requires box == Translate(CandidateZone(q.cand), q.dx, q.dy)
      requires boxTop == Translate(q.cand.top, q.dx, q.dy) && boxBottom == Translate(q.cand.bottom, q.dx, q.dy)
      ensures var t := StackTouch(s, q);
        (m.None? <==> t.None?)
        && (t.Some? ==> t.value.member < |h.chain| && m.value == Match(h.chain[t.value.member], t.value.pos)
                        && m.value.block.top == h)
    {
      assert ToGroup(box, h) == InGroup(CandidateZone(q.cand), q, s);
      if !Overlaps(h.box.value, ToGroup(box, h)) {
        return None;
      }
      var bT, bB := ToGroup(boxTop, h), ToGroup(boxBottom, h);
      assert bT == InGroup(q.cand.top, q, s) && bB == InGroup(q.cand.bottom, q, s);
      m := WalkChain(h, bT, bB);
      if m.Some? {
        assert m.value.block in old(h.chain);
      }
    }

    /**
     * The turn of the `blockTree.map` for stack k, followed by `matched`: a match in stack k
     * replaces the one found so far unless that one's stack is painted strictly above
     * stack k.
     */
    method ScanStack(k: nat, found: Option<Match>, box: Box, boxTop: Box, boxBottom: Box, ghost q: Query,
                     ghost vs: seq<StackView>)
      returns (found': Option<Match>)
      requires Stacks() && Boxed() && vs == Views() && k < |blockTree|
      requires q.originX == originX && q.originY == originY
      requires box == Translate(CandidateZone(q.cand), q.dx, q.dy)
      requires boxTop == Translate(q.cand.top, q.dx, q.dy) && boxBottom == Translate(q.cand.bottom, q.dx, q.dy)
      requires Agrees(found, Select(Touches(vs, q), Paints(vs), k))
      ensures Stacks() && Boxed() && vs == Views()
      ensures Agrees(found', Select(Touches(vs, q), Paints(vs), k + 1))
    {
      ghost var ts, ps := Touches(vs, q), Paints(vs);
      ghost var hit := Select(ts, ps, k);
      assert hit.Some? ==> hit.value.stack < k;
      var h := blockTree[k];
      assert vs[k] == View(h);
      ghost var t := StackTouch(vs[k], q);
      assert ts[k] == t && ps[k] == h.paint;
      var m := StackMatch(h, box, boxTop, boxBottom, q, vs[k]);
      assert Views() == vs;
      found' := found;
      if m.Some? {
        if found.Some? && found.value.block.top.paint > m.value.block.top.paint {
          assert ps[hit.value.stack] > ps[k];
        } else {
          found' := m;
        }
      }
    }

    /**
     * `findTouchingBlock`: the candidate is dropped at offset (dx, dy) on screen; the result
     * is the member and side `Scan` selects over the forest, stacks painted later winning
     * over stacks painted below them. The search changes nothing.
     */
    method FindTouchingBlock(cand: Candidate, dx: real, dy: real) returns (r: Option<Match>)
      requires Stacks() && Boxed()
      ensures Views() == old(Views()) && Shape() == old(Shape()) && Nodes() == old(Nodes())
      ensures old(Valid()) ==> Valid()
      ensures var hit := Scan(Views(), Query(cand, dx, dy, originX, originY));
        (r.None? <==> hit.None?)
        && (r.Some? ==> hit.value.stack < |blockTree| && hit.value.member < |blockTree[hit.value.stack].chain|
                        && r.value == Match(blockTree[hit.value.stack].chain[hit.value.member], hit.value.pos))
    {
      var box := Translate(CandidateZone(cand), dx, dy);
      var boxTop := Translate(cand.top, dx, dy);
      var boxBottom := Translate(cand.bottom, dx, dy);
      ghost var q := Query(cand, dx, dy, originX, originY);
      ghost var vs := Views();
      var found: Option<Match> := None;
      var k := 0;
      while k < |blockTree|
        invariant 0 <= k <= |blockTree| && Stacks() && Boxed() && vs == Views()
        invariant Agrees(found, Select(Touches(vs, q), Paints(vs), k))
      {
        found := ScanStack(k, found, box, boxTop, boxBottom, q, vs);
        k := k + 1;
      }
      r := found;
    }
  }
}
