/**
 * The interactive state of the viewer and the handlers that change it: the
 * marginal profile buffer and the selected column (click), the zoom factor and
 * visible window (zoom), and which marginal segment carries the hover
 * highlight (mouse move and mouse out).
 */
module Explorer {
  import opened Codec
  import opened Marginal
  import opened Viewport

  datatype Option<T> = None | Some(value: T)

  /**
   * Whether a zoom moves the click line: the source tests `clickCol` for
   * truthiness, so column 0 counts as no selection.
   */
  predicate ClickLineFollows(clickCol: Option<int>)
  {
    clickCol.Some? && clickCol.value != 0
  }

  lemma ColumnZeroIsNotFollowed()
    ensures !ClickLineFollows(Some(0)) && !ClickLineFollows(None)
    ensures forall c :: c != 0 ==> ClickLineFollows(Some(c))
  {
  }

  class Viewer {
    /** Largest item index; the matrix has max + 1 rows. */
    const max: nat
    /** The packed upper triangle. */
    const encoded: seq<Byte>
    /** The profile shown in the top margin, one value per item, in hundredths. */
    const marginValues: array<int>
    var clickCol: Option<int>
    var zoomSlow: real
    var leftEdge: real
    var rightEdge: real
    var topEdge: real
    var bottomEdge: real
    /** The marginal segment last highlighted by the hover handler. */
    var hoverMarginal: Option<int>
    /** The marginal segments whose class list holds "hover". */
    var hovered: set<int>

    ghost predicate Valid()
      reads this
    {
      && |encoded| == PackedSize(max)
      && marginValues.Length == max + 1
      && 1.0 <= zoomSlow <= 300.0
      && 0.0 <= leftEdge <= rightEdge <= (max + 1) as real
      && 0.0 <= topEdge <= bottomEdge <= (max + 1) as real
      && (clickCol.Some? ==> 0 <= clickCol.value <= max)
      && (hoverMarginal.Some? ==> 0 <= hoverMarginal.value <= max)
      && hovered == (if hoverMarginal.Some? then {hoverMarginal.value} else {})
    }

    /** The visible window as last computed. */
    function CurrentWindow(): Window
      reads this
    {
      Window(leftEdge, rightEdge, topEdge, bottomEdge)
    }

    /** The state once the data has loaded, before any click, zoom or hover. */
    constructor (max: nat, encoded: seq<Byte>)
      requires |encoded| == PackedSize(max)
      ensures Valid() && fresh(marginValues)
      ensures this.max == max && this.encoded == encoded
      ensures clickCol == None && zoomSlow == 1.0
      ensures CurrentWindow() == InitialWindow(max)
      ensures hoverMarginal == None && hovered == {}
    {
      this.max := max;
      this.encoded := encoded;
      marginValues := new int[max + 1];
      clickCol := None;
      zoomSlow := 1.0;
      leftEdge, rightEdge := 0.0, max as real;
      topEdge, bottomEdge := 0.0, max as real;
      hoverMarginal := None;
      hovered := {};
    }

    /** marginValues[i] = similarity(encodedData, i, dataCol) for every item i. */
    method FillMarginal(dataCol: int)
      requires Valid() && 0 <= dataCol <= max
      modifies marginValues
      ensures marginValues[..] == Profile(encoded, max, dataCol)
    {
      for i := 0 to max + 1
        invariant forall k :: 0 <= k < i ==> marginValues[k] == Similarity(encoded, max, k, dataCol)
      {
        marginValues[i] := Similarity(encoded, max, i, dataCol);
      }
    }

    /**
     * Selects column `dataCol`: records it, recomputes the whole profile and
     * returns the transition of every segment, its new height and its delay.
     * Selecting the column already selected runs the same steps again.
     */
    method UpdateMarginal(dataCol: int) returns (initialClick: bool, segments: seq<Segment>)
      requires Valid() && 0 <= dataCol <= max
      modifies this, marginValues
      ensures Valid()
      ensures initialClick == old(clickCol).None? && clickCol == Some(dataCol)
      ensures marginValues[..] == Profile(encoded, max, dataCol)
      ensures |segments| == max + 1
      ensures forall i :: 0 <= i <= max ==>
                segments[i] == Segment(Profile(encoded, max, dataCol)[i],
                                       StaggerDelay(i, dataCol, initialClick, leftEdge, rightEdge, zoomSlow))
      ensures zoomSlow == old(zoomSlow) && CurrentWindow() == old(CurrentWindow())
      ensures hoverMarginal == old(hoverMarginal) && hovered == old(hovered)
    {
      initialClick := clickCol.None?;
      clickCol := Some(dataCol);
      FillMarginal(dataCol);
      FillMarginal(dataCol);
      var values, left, right, zoom := marginValues[..], leftEdge, rightEdge, zoomSlow;
      segments := seq(max + 1, i requires 0 <= i <= max =>
                        Segment(values[i], StaggerDelay(i, dataCol, initialClick, left, right, zoom)));
    }

    /**
     * Applies a zoom transform on an `imgSize`-pixel canvas: records the zoom
     * factor and recomputes the visible window; reports whether the click
     * line is moved.
     */
    method OnZoom(t: Transform, imgSize: real) returns (moveClickLine: bool)
      requires Valid() && InExtent(t, imgSize)
      modifies this
      ensures Valid()
      ensures zoomSlow == t.k
      ensures CurrentWindow() == Edges(t, imgSize, max + 1)
      ensures moveClickLine == ClickLineFollows(clickCol)
      ensures clickCol == old(clickCol)
      ensures hoverMarginal == old(hoverMarginal) && hovered == old(hovered)
    {
      zoomSlow := t.k;
      var w := Edges(t, imgSize, max + 1);
      EdgesInRange(t, imgSize, max + 1);
      leftEdge, rightEdge, topEdge, bottomEdge := w.left, w.right, w.top, w.bottom;
      moveClickLine := ClickLineFollows(clickCol);
    }

    /**
     * Mouse move over cell (dataRow, dataCol): returns the tooltip value and
     * moves the hover highlight to marginal segment `dataCol`.
     */
    method OnCanvasHover(dataRow: int, dataCol: int) returns (tooltip: int)
      requires Valid() && 0 <= dataRow <= max && 0 <= dataCol <= max
      modifies this
      ensures Valid()
      ensures tooltip == Similarity(encoded, max, dataRow, dataCol)
      ensures hoverMarginal == Some(dataCol) && hovered == {dataCol}
      ensures clickCol == old(clickCol) && zoomSlow == old(zoomSlow)
      ensures CurrentWindow() == old(CurrentWindow())
    {
      tooltip := Similarity(encoded, max, dataRow, dataCol);
      if hoverMarginal.Some? {
        hovered := hovered - {hoverMarginal.value};
      }
      hoverMarginal := Some(dataCol);
      hovered := hovered + {dataCol};
    }

    /** Mouse out: no marginal segment keeps the highlight. */
    method ResetCanvasHover()
      requires Valid()
      modifies this
      ensures Valid()
      ensures hoverMarginal == None && hovered == {}
      ensures clickCol == old(clickCol) && zoomSlow == old(zoomSlow)
      ensures CurrentWindow() == old(CurrentWindow())
    {
      if hoverMarginal.Some? {
        hovered := hovered - {hoverMarginal.value};
        hoverMarginal := None;
      }
    }
  }
}
