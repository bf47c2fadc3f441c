/**
 * The marginal profile view: the similarity of every item to the selected
 * column, and the per-segment stagger delay of the transition that moves the
 * profile's line segments to their new heights.
 */
module Marginal {
  import opened Codec

  /** The profile of column `col`, one similarity per item, in item order. */
  function Profile(d: seq<Byte>, max: nat, col: int): (p: seq<int>)
    requires |d| == PackedSize(max) && 0 <= col <= max
    ensures |p| == max + 1
    ensures p[col] == 100
    ensures forall k :: 0 <= k <= max ==> 0 <= p[k] <= 100
    ensures forall k :: 0 <= k <= max ==> p[k] <= p[col]
  {
    seq(max + 1, k requires 0 <= k <= max => Similarity(d, max, k, col))
  }

  /** Entry b of a's profile is entry a of b's profile. */
  lemma ProfileTranspose(d: seq<Byte>, max: nat, a: int, b: int)
    requires |d| == PackedSize(max) && 0 <= a <= max && 0 <= b <= max
    ensures Profile(d, max, a)[b] == Profile(d, max, b)[a]
  {
    SimilaritySymmetric(d, max, a, b);
  }

  /** In the four-item example cell (0, 1) is stored first. */
  lemma FourItemFirstCell()
    ensures Similarity([10, 20, 30, 40, 50, 60], 3, 0, 1) == Quantize(10)
  {
    assert PackedIndex(3, 0, 1) == 0;
  }

  /**
   * The four-item example (largest index 3, packed bytes 10, 20, 30, 40, 50,
   * 60): cell (0, 1) reads byte 10 as 0.04 from either side, and the
   * diagonal is 1.
   */
  lemma FourItemCells()
    ensures Similarity([10, 20, 30, 40, 50, 60], 3, 0, 1) == 4
    ensures Similarity([10, 20, 30, 40, 50, 60], 3, 1, 0) == 4
    ensures Similarity([10, 20, 30, 40, 50, 60], 3, 0, 0) == 100
  {
    FourItemFirstCell();
    assert Quantize(10) == 4;
  }

  /** In the four-item example the profile of column 2 is 0.08, 0.16, 1, 0.24. */
  lemma FourItemProfile()
    ensures Profile([10, 20, 30, 40, 50, 60], 3, 2) == [8, 16, 100, 24]
  {
    var d: seq<Byte> := [10, 20, 30, 40, 50, 60];
    var p := Profile(d, 3, 2);
    assert p[0] == 8 by {
      assert p[0] == Similarity(d, 3, 0, 2);
      assert PackedIndex(3, 0, 2) == 1;
    }
    assert p[1] == 16 by {
      assert p[1] == Similarity(d, 3, 1, 2);
      assert RowOffset(3, 1) == 3;
      assert PackedIndex(3, 1, 2) == 3;
    }
    assert p[3] == 24 by {
      assert p[3] == Similarity(d, 3, 3, 2) == Similarity(d, 3, 2, 3);
      assert RowOffset(3, 2) == 5;
      assert PackedIndex(3, 2, 3) == 5;
    }
  }

  function Abs(x: int): nat
  {
    if x < 0 then -x else x
  }

  /** Whether segment `i` lies in the visible window widened by one on each side. */
  predicate OnScreen(i: int, leftEdge: real, rightEdge: real)
  {
    !((i as real) < leftEdge - 1.0 || (i as real) > rightEdge + 1.0)
  }

  /** 0 on the first selection, 250 afterwards. */
  function BaseDelay(initialClick: bool): real
  {
    if initialClick then 0.0 else 250.0
  }

  /**
   * The delay before segment `i` starts moving after column `dataCol` is
   * selected: none off screen, otherwise the base delay plus a third of the
   * zoom factor per index of distance from the selected column.
   */
  function StaggerDelay(i: int, dataCol: int, initialClick: bool,
                        leftEdge: real, rightEdge: real, zoomSlow: real): real
  {
    if !OnScreen(i, leftEdge, rightEdge) then 0.0
    else BaseDelay(initialClick) + (Abs(dataCol - i) as real) * (zoomSlow / 3.0)
  }

  /** Off-screen segments move at once; on-screen ones wait at least the base delay. */
  lemma StaggerDelayBounds(i: int, dataCol: int, initialClick: bool,
                           leftEdge: real, rightEdge: real, zoomSlow: real)
    requires zoomSlow >= 0.0
    ensures !OnScreen(i, leftEdge, rightEdge) ==>
              StaggerDelay(i, dataCol, initialClick, leftEdge, rightEdge, zoomSlow) == 0.0
    ensures OnScreen(i, leftEdge, rightEdge) ==>
              StaggerDelay(i, dataCol, initialClick, leftEdge, rightEdge, zoomSlow) >= BaseDelay(initialClick)
  {
  }

  /**
   * The sweep: among on-screen segments the delay grows with the distance
   * from the selected column, so it is smallest at the column itself.
   */
  lemma StaggerDelaySweeps(i: int, j: int, dataCol: int, initialClick: bool,
                           leftEdge: real, rightEdge: real, zoomSlow: real)
    requires zoomSlow >= 0.0
    requires OnScreen(i, leftEdge, rightEdge) && OnScreen(j, leftEdge, rightEdge)
    requires Abs(dataCol - i) <= Abs(dataCol - j)
    ensures StaggerDelay(i, dataCol, initialClick, leftEdge, rightEdge, zoomSlow)
         <= StaggerDelay(j, dataCol, initialClick, leftEdge, rightEdge, zoomSlow)
  {
    var di, dj := Abs(dataCol - i) as real, Abs(dataCol - j) as real;
    assert di * (zoomSlow / 3.0) <= dj * (zoomSlow / 3.0) by {
      assert (dj - di) * (zoomSlow / 3.0) >= 0.0;
    }
  }

  /** Segments at equal distance on either side of the selected column wait equally long. */
  lemma StaggerDelaySymmetric(k: int, dataCol: int, initialClick: bool,
                              leftEdge: real, rightEdge: real, zoomSlow: real)
    requires OnScreen(dataCol - k, leftEdge, rightEdge) && OnScreen(dataCol + k, leftEdge, rightEdge)
    ensures StaggerDelay(dataCol - k, dataCol, initialClick, leftEdge, rightEdge, zoomSlow)
         == StaggerDelay(dataCol + k, dataCol, initialClick, leftEdge, rightEdge, zoomSlow)
  {
  }

  /** One line segment's transition: its new height and its start delay. */
  datatype Segment = Segment(target: int, delay: real)
}
