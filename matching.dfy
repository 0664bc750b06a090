/**
 * Hit-testing of `findTouchingBlock` (experiments/snapBlocks/index.js:371-426), stated on
 * values: the workspace method in module Snap is proved to return what `Scan` says.
 */
module Matching {
  import opened Wrappers
  import opened Geometry
  import Layout

  /** Which side of the matched member the floating content attaches to. */
  datatype Position = Top | Bottom

  /** Where a member's element is drawn inside its stack's group, and its rendered height. */
  datatype Placement = Placement(x: real, y: real, height: real)

  /** The connector zones the floating content offers, in the coordinates of its own drawing. */
  datatype Candidate = Candidate(top: Box, bottom: Box)

  /** A stack of the forest as hit-testing sees it: group origin, paint position, cached box, members. */
  datatype StackView = StackView(x: real, y: real, paint: int, box: Box, members: seq<Placement>)

  /** A drop: the candidate, the drop offset in screen coordinates, and the canvas origin on screen. */
  datatype Query = Query(cand: Candidate, dx: real, dy: real, originX: real, originY: real)

  /** A match inside one stack: the member's index in chain order and the side. */
  datatype Touch = Touch(member: nat, pos: Position)

  /** A match in the forest: the stack's index in the forest, the member's index, the side. */
  datatype Hit = Hit(stack: nat, member: nat, pos: Position)

  /** `connectorZone` of the whole candidate. */
  function CandidateZone(c: Candidate): Box {
    Combine(c.top, c.bottom)
  }

  /**
   * A candidate box moved to the drop offset and then mapped into the frame of S's group
   * (`translate` followed by `transformWithElement`); the group's frame is its stack origin
   * inside the canvas, and the canvas sits at the query's origin on screen.
   */
  function InGroup(b: Box, q: Query, s: StackView): Box {
    Translate(Translate(b, q.dx, q.dy), -(q.originX + s.x), -(q.originY + s.y))
  }

  /** The member's bottom zone overlaps the candidate's top zone: the candidate goes below it. */
  predicate BottomTouch(m: Placement, candTop: Box) {
    Overlaps(ZoneBottom(m.x, m.y, m.height), candTop)
  }

  /** The member's top zone overlaps the candidate's bottom zone: the candidate goes above it. */
  predicate TopTouch(m: Placement, candBottom: Box) {
    Overlaps(ZoneTop(m.x, m.y, m.height), candBottom)
  }

  /**
   * The walk along one chain from member i on: the first member that touches the candidate,
   * with the bottom test made before the top test.
   */
  function FirstTouchFrom(ms: seq<Placement>, candTop: Box, candBottom: Box, i: nat): (r: Option<Touch>)
    requires i <= |ms|
    ensures r.None? <==> forall j :: i <= j < |ms| ==> !BottomTouch(ms[j], candTop) && !TopTouch(ms[j], candBottom)
    ensures r.Some? ==> i <= r.value.member < |ms|
    ensures r.Some? ==> forall j :: i <= j < r.value.member ==> !BottomTouch(ms[j], candTop) && !TopTouch(ms[j], candBottom)
    ensures r.Some? ==> (r.value.pos == Bottom <==> BottomTouch(ms[r.value.member], candTop))
    ensures r.Some? && r.value.pos == Top ==> TopTouch(ms[r.value.member], candBottom)
    decreases |ms| - i
  {
    if i == |ms| then None
    else if BottomTouch(ms[i], candTop) then Some(Touch(i, Bottom))
    else if TopTouch(ms[i], candBottom) then Some(Touch(i, Top))
    else FirstTouchFrom(ms, candTop, candBottom, i + 1)
  }

  /** One stack: skipped when its cached box misses the candidate's zone, else the chain walk. */
  function StackTouch(s: StackView, q: Query): Option<Touch> {
    if !Overlaps(s.box, InGroup(CandidateZone(q.cand), q, s)) then None
    else FirstTouchFrom(s.members, InGroup(q.cand.top, q, s), InGroup(q.cand.bottom, q, s), 0)
  }

  /**
   * The rule of `matched`, applied in forest order to the per-stack results of the first n
   * stacks: a stack's match replaces the one found so far unless the earlier match's stack
   * is painted strictly above it. The result is therefore a match of a top-most painted
   * matching stack, and of the last scanned one among equally painted ones.
   */
  function Select(touches: seq<Option<Touch>>, paints: seq<int>, n: nat): (r: Option<Hit>)
    requires n <= |touches| == |paints|
    ensures r.None? <==> forall l :: 0 <= l < n ==> touches[l].None?
    ensures r.Some? ==> r.value.stack < n && touches[r.value.stack] == Some(Touch(r.value.member, r.value.pos))
  {
    if n == 0 then None
    else
      var acc := Select(touches, paints, n - 1);
      match touches[n - 1]
      case None => acc
      case Some(t) =>
        if acc.Some? && paints[acc.value.stack] > paints[n - 1] then acc
        else Some(Hit(n - 1, t.member, t.pos))
  }

  /**
   * The selected stack is painted at least as high as every matching stack, and strictly
   * higher than every matching stack scanned after it.
   */
  lemma {:induction false} SelectTopmost(touches: seq<Option<Touch>>, paints: seq<int>, n: nat)
    requires n <= |touches| == |paints|
    ensures var r := Select(touches, paints, n);
      r.Some? ==>
        (forall l :: 0 <= l < n && touches[l].Some? ==> paints[l] <= paints[r.value.stack])
        && (forall l :: r.value.stack < l < n && touches[l].Some? ==> paints[l] < paints[r.value.stack])
  {
    if n > 0 {
      SelectTopmost(touches, paints, n - 1);
    }
  }

  /** Each stack's own result. */
  function Touches(stacks: seq<StackView>, q: Query): (ts: seq<Option<Touch>>)
    ensures |ts| == |stacks|
    ensures forall l {:trigger StackTouch(stacks[l], q)} :: 0 <= l < |stacks| ==> ts[l] == StackTouch(stacks[l], q)
  {
    seq(|stacks|, l requires 0 <= l < |stacks| => StackTouch(stacks[l], q))
  }

  /** Each stack's paint position. */
  function Paints(stacks: seq<StackView>): (ps: seq<int>)
    ensures |ps| == |stacks| && forall l :: 0 <= l < |stacks| ==> ps[l] == stacks[l].paint
  {
    seq(|stacks|, l requires 0 <= l < |stacks| => stacks[l].paint)
  }

  /** `findTouchingBlock` over the whole forest. */
  function Scan(stacks: seq<StackView>, q: Query): Option<Hit> {
    Select(Touches(stacks, q), Paints(stacks), |stacks|)
  }

  /**
   * The stack drawn by `drawStack` from member heights hs with the given spacing: member i
   * at horizontal position 0 and at the i-th running height, and the box their zones' fold.
   */
  predicate LaidOut(s: StackView, hs: seq<real>, spacing: real) {
    |hs| == |s.members| && 0 < |hs|
    && Layout.StackBox(hs, spacing) == Some(s.box)
    && forall i :: 0 <= i < |hs| ==> s.members[i] == Placement(0.0, Layout.Offsets(hs, spacing, |hs|)[i], hs[i])
  }

  /**
   * Skipping a stack whose cached box misses the candidate's zone never loses a match:
   * on a laid-out stack the result is that of the chain walk alone.
   */
  lemma RejectionIsSafe(s: StackView, hs: seq<real>, spacing: real, q: Query)
    requires LaidOut(s, hs, spacing)
    ensures StackTouch(s, q)
         == FirstTouchFrom(s.members, InGroup(q.cand.top, q, s), InGroup(q.cand.bottom, q, s), 0)
  {
    var cT, cB := InGroup(q.cand.top, q, s), InGroup(q.cand.bottom, q, s);
    var zone := InGroup(CandidateZone(q.cand), q, s);
    var walk := FirstTouchFrom(s.members, cT, cB, 0);
    if walk.Some? {
      var i := walk.value.member;
      var m := s.members[i];
      Layout.OffsetsAt(hs, spacing, |hs|);
      Layout.BoxCoversMembers(hs, spacing, |hs|, i);
      assert Contains(s.box, Zone(m.x, m.y, m.height));
      assert Contains(zone, cT) && Contains(zone, cB);
      if walk.value.pos == Bottom {
        assert Contains(s.box, ZoneBottom(m.x, m.y, m.height));
      } else {
        assert Contains(s.box, ZoneTop(m.x, m.y, m.height));
      }
      assert Overlaps(s.box, zone);
    }
  }

  /**
   * When stacks are painted in forest order (as a redraw paints them), the match comes from
   * the last stack in the forest that has one.
   */
  lemma LaterStackWins(touches: seq<Option<Touch>>, paints: seq<int>)
    requires |touches| == |paints|
    requires forall l :: 0 <= l < |paints| ==> paints[l] == l
    ensures var r := Select(touches, paints, |touches|);
      r.Some? ==> forall l :: r.value.stack < l < |touches| ==> touches[l].None?
  {
    SelectTopmost(touches, paints, |touches|);
  }

  /** Among stacks painted at the same position, the last scanned one with a match wins. */
  lemma EqualPaintLastWins(touches: seq<Option<Touch>>, paints: seq<int>, l: nat)
    requires |touches| == |paints| && l < |touches| && touches[l].Some?
    requires forall k :: 0 <= k < |paints| ==> paints[k] == paints[0]
    ensures Select(touches, paints, |touches|).Some? && Select(touches, paints, |touches|).value.stack >= l
  {
    SelectTopmost(touches, paints, |touches|);
  }
}
