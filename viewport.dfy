/**
 * The viewport controller's derived window: from a zoom transform (scale k,
 * translation x, y in canvas pixels) and the canvas size, the visible range
 * of data indices on each axis.
 */
module Viewport {

  /** A d3 zoom transform: scale k, then translation (x, y). */
  datatype Transform = Transform(k: real, x: real, y: real)

  /** The visible data-index window. */
  datatype Window = Window(left: real, right: real, top: real, bottom: real)

  /**
   * The edges in data space for `n` items drawn on an `imgSize`-pixel
   * square canvas.
   */
  function Edges(t: Transform, imgSize: real, n: nat): Window
    requires t.k > 0.0 && imgSize > 0.0
  {
    var s := t.k * imgSize;
    Window(Scaled(-t.x, n, s), Scaled(-t.x + imgSize, n, s),
           Scaled(-t.y, n, s), Scaled(-t.y + imgSize, n, s))
  }

  /** A canvas offset `a` mapped to data space: a * n / s. */
  function Scaled(a: real, n: nat, s: real): real
    requires s > 0.0
  {
    a * (n as real) / s
  }

  /**
   * The zoom limits the viewer installs: scale in [1, 300], and translations
   * that keep the scaled canvas covering the viewport.
   */
  predicate InExtent(t: Transform, imgSize: real)
  {
    && 1.0 <= t.k <= 300.0
    && imgSize > 0.0
    && t.x <= 0.0 && t.x + t.k * imgSize >= imgSize
    && t.y <= 0.0 && t.y + t.k * imgSize >= imgSize
  }

  /** The window is n / k items wide on both axes. */
  lemma EdgesWidth(t: Transform, imgSize: real, n: nat)
    requires t.k > 0.0 && imgSize > 0.0
    ensures Edges(t, imgSize, n).right - Edges(t, imgSize, n).left == (n as real) / t.k
    ensures Edges(t, imgSize, n).bottom - Edges(t, imgSize, n).top == (n as real) / t.k
  {
    var s := t.k * imgSize;
    var w := Edges(t, imgSize, n);
    assert w.right - w.left == imgSize * (n as real) / s;
    assert w.bottom - w.top == imgSize * (n as real) / s;
    assert imgSize * (n as real) / s == (n as real) / t.k by {
      assert imgSize * (n as real) == ((n as real) / t.k) * s;
    }
  }

  /** Within the zoom limits the window never leaves [0, n]. */
  lemma EdgesInRange(t: Transform, imgSize: real, n: nat)
    requires InExtent(t, imgSize)
    ensures 0.0 <= Edges(t, imgSize, n).left <= Edges(t, imgSize, n).right <= n as real
    ensures 0.0 <= Edges(t, imgSize, n).top <= Edges(t, imgSize, n).bottom <= n as real
  {
    var s := t.k * imgSize;
    ScaledCanvas(t.k, imgSize);
    assert Edges(t, imgSize, n) == Window(Scaled(-t.x, n, s), Scaled(-t.x + imgSize, n, s),
                                          Scaled(-t.y, n, s), Scaled(-t.y + imgSize, n, s));
    EdgeBounds(-t.x, imgSize, s, n);
    EdgeBounds(-t.y, imgSize, s, n);
  }

  lemma ScaledCanvas(k: real, imgSize: real)
    requires k >= 1.0 && imgSize > 0.0
    ensures k * imgSize >= imgSize
  {
    assert k * imgSize - imgSize == (k - 1.0) * imgSize;
  }

  /** 0 <= a and a + w <= s give 0 <= a*n/s <= (a+w)*n/s <= n. */
  lemma EdgeBounds(a: real, w: real, s: real, n: nat)
    requires s > 0.0 && w > 0.0
    requires 0.0 <= a && a + w <= s
    ensures 0.0 <= Scaled(a, n, s) <= Scaled(a + w, n, s) <= n as real
  {
    var nr := n as real;
    assert a * nr >= 0.0;
    assert (a + w) * nr - a * nr == w * nr >= 0.0;
    assert (a + w) * nr <= s * nr by {
      assert s * nr - (a + w) * nr == (s - (a + w)) * nr;
    }
    assert s * nr / s == nr;
  }

  /** The identity transform shows the whole matrix, 0 .. n on both axes. */
  lemma IdentityWindow(imgSize: real, n: nat)
    requires imgSize > 0.0
    ensures Edges(Transform(1.0, 0.0, 0.0), imgSize, n) == Window(0.0, n as real, 0.0, n as real)
  {
  }

  /**
   * The window before the first zoom event: the right and bottom edges start
   * at the largest index, one less than the identity transform gives.
   */
  function InitialWindow(max: nat): Window
  {
    Window(0.0, max as real, 0.0, max as real)
  }

  lemma InitialWindowDiffers(imgSize: real, max: nat)
    requires imgSize > 0.0
    ensures Edges(Transform(1.0, 0.0, 0.0), imgSize, max + 1).right == InitialWindow(max).right + 1.0
  {
    IdentityWindow(imgSize, max + 1);
  }
}
