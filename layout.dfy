/**
 * The layout arithmetic of `drawStack` (experiments/snapBlocks/index.js:550-580) on values:
 * members are drawn one under the other in their stack's group, each at horizontal
 * position 0 and at the running height, which grows by the member's height plus the
 * workspace's (negative) spacing; the stack's cached box is the combine of the
 * members' connector zones, in chain order.
 */
module Layout {
  import opened Wrappers
  import opened Geometry

  /** The running height at which member i is drawn: the sum over j < i of hs[j] + spacing. */
  function Offset(hs: seq<real>, spacing: real, i: nat): real
    requires i <= |hs|
  {
    if i == 0 then 0.0 else Offset(hs, spacing, i - 1) + hs[i - 1] + spacing
  }

  /** The running heights of the first n members, in chain order. */
  function Offsets(hs: seq<real>, spacing: real, n: nat): (ys: seq<real>)
    requires n <= |hs|
    ensures |ys| == n
  {
    if n == 0 then [] else Offsets(hs, spacing, n - 1) + [Offset(hs, spacing, n - 1)]
  }

  /** Each entry of `Offsets` is the running height at which that member is drawn. */
  lemma {:induction false} OffsetsAt(hs: seq<real>, spacing: real, n: nat)
    requires n <= |hs|
    ensures forall j :: 0 <= j < n ==> Offsets(hs, spacing, n)[j] == Offset(hs, spacing, j)
  {
    if n > 0 {
      OffsetsAt(hs, spacing, n - 1);
    }
  }

  /** The box after the first n members are drawn: `undefined` for none, else the combine of their zones. */
  function BoxUpTo(hs: seq<real>, spacing: real, n: nat): (r: Option<Box>)
    requires n <= |hs|
    ensures r.None? <==> n == 0
  {
    if n == 0 then None
    else
      var z := Zone(0.0, Offset(hs, spacing, n - 1), hs[n - 1]);
      match BoxUpTo(hs, spacing, n - 1)
      case None => Some(z)
      case Some(b) => Some(Combine(b, z))
  }

  /** The box `drawStack` caches for a whole stack with member heights hs. */
  function StackBox(hs: seq<real>, spacing: real): Option<Box> {
    BoxUpTo(hs, spacing, |hs|)
  }

  /** If no member is shorter than the overlap spacing takes back, the offsets never decrease. */
  lemma {:induction false} OffsetMonotone(hs: seq<real>, spacing: real, i: nat, j: nat)
    requires j <= i <= |hs|
    requires forall k :: 0 <= k < |hs| ==> hs[k] + spacing >= 0.0
    ensures Offset(hs, spacing, j) <= Offset(hs, spacing, i)
  {
    if j < i {
      OffsetMonotone(hs, spacing, i - 1, j);
    }
  }

  /**
   * The cached box covers the connector zone of every member drawn so far, whatever
   * the heights: this is what makes the cheap rejection in `findTouchingBlock` safe.
   */
  lemma {:induction false} BoxCoversMembers(hs: seq<real>, spacing: real, n: nat, i: nat)
    requires i < n <= |hs|
    ensures Contains(BoxUpTo(hs, spacing, n).value, Zone(0.0, Offset(hs, spacing, i), hs[i]))
  {
    if i < n - 1 {
      BoxCoversMembers(hs, spacing, n - 1, i);
    }
  }

  /**
   * With non-negative heights that each make up for the spacing, the cached box of a
   * non-empty stack runs from 10 above its first member to 10 below its last one, 80 wide.
   */
  lemma {:induction false} StackBoxSpan(hs: seq<real>, spacing: real, n: nat)
    requires 0 < n <= |hs|
    requires forall k :: 0 <= k < |hs| ==> hs[k] >= 0.0 && hs[k] + spacing >= 0.0
    ensures BoxUpTo(hs, spacing, n)
         == Some(Box(-10.0, -10.0, 70.0, Offset(hs, spacing, n - 1) + hs[n - 1] + 10.0))
  {
    OffsetMonotone(hs, spacing, n - 1, 0);
    ZoneSpan(0.0, Offset(hs, spacing, n - 1), hs[n - 1]);
    if n > 1 {
      StackBoxSpan(hs, spacing, n - 1);
    }
  }

  /** Under the same conditions, the lower edges of the members never move up along the stack. */
  lemma {:induction false} LowerEdgeMonotone(hs: seq<real>, spacing: real, i: nat)
    requires i < |hs|
    requires forall k :: 0 <= k < |hs| ==> hs[k] + spacing >= 0.0
    ensures Offset(hs, spacing, i) + hs[i] >= hs[0]
  {
    if i > 0 {
      LowerEdgeMonotone(hs, spacing, i - 1);
    }
  }

  /**
   * The zone a dragged stack offers (the top zone of its first member combined with the
   * bottom zone of its last member, as the `f` wrapper computes it) is exactly the box
   * `drawStack` caches for that stack.
   */
  lemma WholeStackZone(hs: seq<real>, spacing: real)
    requires 0 < |hs|
    requires forall k :: 0 <= k < |hs| ==> hs[k] >= 0.0 && hs[k] + spacing >= 0.0
    ensures Some(Combine(ZoneTop(0.0, Offset(hs, spacing, 0), hs[0]),
                         ZoneBottom(0.0, Offset(hs, spacing, |hs| - 1), hs[|hs| - 1])))
         == StackBox(hs, spacing)
  {
    var n := |hs|;
    StackBoxSpan(hs, spacing, n);
    LowerEdgeMonotone(hs, spacing, n - 1);
    OffsetMonotone(hs, spacing, n - 1, 0);
  }

  /**
   * The height `startDrag` gives the div that carries a dragged stack: the running height
   * after the last member, less one spacing.
   */
  function CanvasHeight(hs: seq<real>, spacing: real): real {
    Offset(hs, spacing, |hs|) - spacing
  }

  /** The width of that div: the largest member width, and 0 for no members. */
  function Widest(ws: seq<real>): real {
    if ws == [] then 0.0
    else if Widest(ws[..|ws| - 1]) >= ws[|ws| - 1] then Widest(ws[..|ws| - 1])
    else ws[|ws| - 1]
  }

  /** The widest width bounds every member's width from above and is one of them, or 0. */
  lemma {:induction false} WidestBounds(ws: seq<real>)
    ensures Widest(ws) >= 0.0
    ensures forall i :: 0 <= i < |ws| ==> ws[i] <= Widest(ws)
    ensures Widest(ws) == 0.0 || exists i :: 0 <= i < |ws| && ws[i] == Widest(ws)
  {
    if ws != [] {
      var p := ws[..|ws| - 1];
      WidestBounds(p);
      assert forall i :: 0 <= i < |p| ==> ws[i] == p[i];
      if Widest(p) != 0.0 && Widest(p) >= ws[|ws| - 1] {
        var j :| 0 <= j < |p| && p[j] == Widest(p);
        assert ws[j] == Widest(ws);
      }
    }
  }

  /**
   * When every member is at least as tall as the spacing overlaps them, the div is tall
   * enough for every member: each one is drawn from a running height of at least 0 and
   * ends at most at the div's height, and the last one ends exactly there.
   */
  lemma CanvasHoldsMembers(hs: seq<real>, spacing: real)
    requires forall k :: 0 <= k < |hs| ==> hs[k] + spacing >= 0.0
    ensures forall i :: 0 <= i < |hs| ==>
              0.0 <= Offset(hs, spacing, i) && Offset(hs, spacing, i) + hs[i] <= CanvasHeight(hs, spacing)
    ensures 0 < |hs| ==> Offset(hs, spacing, |hs| - 1) + hs[|hs| - 1] == CanvasHeight(hs, spacing)
  {
    forall i | 0 <= i < |hs|
      ensures 0.0 <= Offset(hs, spacing, i) && Offset(hs, spacing, i) + hs[i] <= CanvasHeight(hs, spacing)
    {
      OffsetMonotone(hs, spacing, i, 0);
      OffsetMonotone(hs, spacing, |hs|, i + 1);
    }
  }
}
