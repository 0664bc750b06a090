/**
 * Where `addBlock` and `addBlocks` put what is dropped on the canvas, decided from the
 * hit-test result and the drop point, and the arithmetic of the origin updates they make.
 */
module Placing {
  import opened Wrappers
  import opened Matching
  import Layout

  /**
   * The outcome of a drop: a splice into the stack at index `stack` of the forest, before
   * chain position `at`; a discard; or a new stack with its origin at (x, y).
   */
  datatype Drop = Splice(stack: nat, at: nat) | Discard | NewStack(x: real, y: real)

  /**
   * The chain position the dropped blocks take: after the hit member when its bottom
   * connector was touched, and after its `previous` (so before it) when its top one was.
   */
  function InsertAt(member: nat, pos: Position): nat {
    if pos == Bottom then member + 1 else member
  }

  /** `Math.max(v, 0)`. */
  function Clamp(v: real): real {
    if v >= 0.0 then v else 0.0
  }

  /** The discard test: the centre of what is dropped, w wide and h tall at (px, py), lies left of or above the canvas. */
  predicate OffCanvas(px: real, py: real, w: real, h: real) {
    px + w / 2.0 < 0.0 || py + h / 2.0 < 0.0
  }

  /**
   * The branch `addBlock` and `addBlocks` take: a splice when the hit test found a member,
   * otherwise a discard when the drop is off the canvas, otherwise a new stack at the drop
   * point pulled onto the canvas.
   */
  function DropOf(hit: Option<Hit>, px: real, py: real, w: real, h: real): Drop {
    if hit.Some? then Splice(hit.value.stack, InsertAt(hit.value.member, hit.value.pos))
    else if OffCanvas(px, py, w, h) then Discard
    else NewStack(Clamp(px), Clamp(py))
  }

  /**
   * A drop is discarded exactly when nothing was hit and its centre is off the canvas; it
   * is spliced exactly when something was hit, next to the hit member; and a new stack
   * starts on the canvas, at the drop point when that is on the canvas, and never more
   * than half the dropped size away from it.
   */
  lemma DropMeaning(hit: Option<Hit>, px: real, py: real, w: real, h: real)
    requires w >= 0.0 && h >= 0.0
    ensures var d := DropOf(hit, px, py, w, h);
      (d.Discard? <==> hit.None? && OffCanvas(px, py, w, h))
      && (d.Splice? <==> hit.Some?)
      && (d.Splice? ==> d.stack == hit.value.stack && hit.value.member <= d.at <= hit.value.member + 1)
      && (d.NewStack? ==>
            0.0 <= d.x && 0.0 <= d.y && px <= d.x && py <= d.y
            && d.x - px <= w / 2.0 && d.y - py <= h / 2.0
            && (px >= 0.0 ==> d.x == px) && (py >= 0.0 ==> d.y == py))
  {
  }

  /**
   * The origin of a stack that receives blocks of total height h above its first member:
   * moved up by h plus the spacing, but never above the canvas.
   */
  function Raise(y: real, h: real, spacing: real): real {
    Clamp(y - (h + spacing))
  }

  /** The running heights up to i depend only on the first i heights. */
  lemma {:induction false} OffsetPrefix(ds: seq<real>, hs: seq<real>, spacing: real, i: nat)
    requires i <= |ds|
    ensures Layout.Offset(ds + hs, spacing, i) == Layout.Offset(ds, spacing, i)
  {
    if i > 0 {
      OffsetPrefix(ds, hs, spacing, i - 1);
      assert (ds + hs)[i - 1] == ds[i - 1];
    }
  }

  /**
   * The running heights of a stack with the entries ds in front: shifted down by the
   * running height after all of ds.
   */
  lemma {:induction false} ShiftedOffset(ds: seq<real>, hs: seq<real>, spacing: real, j: nat)
    requires j <= |hs|
    ensures Layout.Offset(ds + hs, spacing, |ds| + j)
            == Layout.Offset(ds, spacing, |ds|) + Layout.Offset(hs, spacing, j)
  {
    if j == 0 {
      OffsetPrefix(ds, hs, spacing, |ds|);
    } else {
      ShiftedOffset(ds, hs, spacing, j - 1);
      assert (ds + hs)[|ds| + j - 1] == hs[j - 1];
    }
  }

  /**
   * `addBlocks`: after a stack receives the dragged members of heights ds above its first
   * member and its origin is raised by the height of their canvas plus the spacing, its
   * earlier members never end up higher on the canvas than they were, and stay exactly
   * where they were when the raise was not cut short by the top of the canvas; the raised
   * origin is on the canvas.
   */
  lemma RaiseKeepsStack(y: real, ds: seq<real>, hs: seq<real>, spacing: real)
    ensures Raise(y, Layout.CanvasHeight(ds, spacing), spacing) >= 0.0
    ensures forall j :: 0 <= j <= |hs| ==>
              Raise(y, Layout.CanvasHeight(ds, spacing), spacing) + Layout.Offset(ds + hs, spacing, |ds| + j)
              >= y + Layout.Offset(hs, spacing, j)
    ensures forall j :: 0 <= j <= |hs| ==>
              (Raise(y, Layout.CanvasHeight(ds, spacing), spacing) + Layout.Offset(ds + hs, spacing, |ds| + j)
               == y + Layout.Offset(hs, spacing, j)
               <==> y >= Layout.CanvasHeight(ds, spacing) + spacing)
  {
    forall j | 0 <= j <= |hs|
      ensures Layout.Offset(ds + hs, spacing, |ds| + j)
              == Layout.CanvasHeight(ds, spacing) + spacing + Layout.Offset(hs, spacing, j)
    {
      ShiftedOffset(ds, hs, spacing, j);
    }
  }

  /**
   * `addBlock`: the same for one inserted block of height h. The raised origin is on the
   * canvas, and it moves up (or stays) exactly when the block's height plus the spacing is
   * not negative; for a block less tall than the overlap it moves down.
   */
  lemma RaiseKeepsMembers(y: real, h: real, hs: seq<real>, spacing: real)
    ensures Raise(y, h, spacing) >= 0.0
    ensures forall j :: 0 <= j <= |hs| ==>
              Raise(y, h, spacing) + Layout.Offset([h] + hs, spacing, j + 1) >= y + Layout.Offset(hs, spacing, j)
    ensures forall j :: 0 <= j <= |hs| ==>
              (Raise(y, h, spacing) + Layout.Offset([h] + hs, spacing, j + 1) == y + Layout.Offset(hs, spacing, j)
               <==> y >= h + spacing)
    ensures y >= 0.0 ==> (Raise(y, h, spacing) <= y <==> h + spacing >= 0.0)
  {
    RaiseKeepsStack(y, [h], hs, spacing);
    assert Layout.CanvasHeight([h], spacing) == h by {
      assert Layout.Offset([h], spacing, 1) == h + spacing;
    }
  }
}
