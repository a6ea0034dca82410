/**
 * Control points of the mesh editor and the edits the editor applies to its
 * ordered point list: recolouring, dragging, adding (button or canvas click)
 * and removing, together with the selected-point index the editor keeps.
 */
module ColorPoints {
  import opened Wrappers
  import opened Colour

  /** A control point: position normalised to the canvas, colour string, opacity. */
  datatype ColorPoint = ColorPoint(x: real, y: real, color: string, opacity: real)

  /** The colour every newly added point gets. */
  const NewPointColor: string := "#ffffff"

  /** The point list and the selection (`null` when nothing is selected). */
  datatype Editor = Editor(points: seq<ColorPoint>, selected: Option<int>)

  /** `Math.max(0, Math.min(1, v))`. */
  function Clamp01(v: real): (r: real)
    ensures 0.0 <= r <= 1.0
    ensures 0.0 <= v <= 1.0 ==> r == v
    ensures v < 0.0 ==> r == 0.0
    ensures v > 1.0 ==> r == 1.0
  {
    if v > 1.0 then 1.0 else if v < 0.0 then 0.0 else v
  }

  /** A point the editor can produce: inside the canvas, opacity a fraction, colour parsable. */
  predicate ValidPoint(p: ColorPoint) {
    && 0.0 <= p.x <= 1.0 && 0.0 <= p.y <= 1.0
    && 0.0 <= p.opacity <= 1.0
    && IsHexColor(p.color)
  }

  /** The editor state the UI maintains: at least one valid point and a selection in range. */
  predicate ValidEditor(e: Editor) {
    && |e.points| >= 1
    && (forall i :: 0 <= i < |e.points| ==> ValidPoint(e.points[i]))
    && (e.selected.Some? ==> 0 <= e.selected.value < |e.points|)
  }

  /** The four points the editor starts with, nothing selected. */
  const InitialEditor: Editor := Editor([
    ColorPoint(0.2, 0.2, "#ff6b6b", 1.0),
    ColorPoint(0.8, 0.3, "#4ecdc4", 1.0),
    ColorPoint(0.3, 0.8, "#ffe66d", 1.0),
    ColorPoint(0.7, 0.7, "#a8e6cf", 1.0)
  ], None)

  /**
   * The initial editor holds four fully opaque points inside the canvas with
   * parsable colours and selects nothing; it is valid, so every edit
   * sequence from it stays valid.
   */
  lemma InitialEditorValid()
    ensures |InitialEditor.points| == 4 && InitialEditor.selected.None?
    ensures forall i :: 0 <= i < 4 ==> InitialEditor.points[i].opacity == 1.0
    ensures ValidEditor(InitialEditor)
  {
  }

  /** `handleColorChange`: point `index` takes the new colour and opacity. */
  function ChangeColor(ps: seq<ColorPoint>, index: int, color: string, opacity: real): (r: seq<ColorPoint>)
    requires 0 <= index < |ps|
    ensures |r| == |ps|
    ensures r[index].color == color && r[index].opacity == opacity
    ensures forall i :: 0 <= i < |ps| ==> r[i].x == ps[i].x && r[i].y == ps[i].y
    ensures forall i :: 0 <= i < |ps| && i != index ==> r[i] == ps[i]
  {
    ps[index := ps[index].(color := color, opacity := opacity)]
  }

  /** Changing a point's colour and then changing it back restores the list. */
  lemma ChangeColorUndo(ps: seq<ColorPoint>, index: int, color: string, opacity: real)
    requires 0 <= index < |ps|
    ensures ChangeColor(ChangeColor(ps, index, color, opacity), index, ps[index].color, ps[index].opacity) == ps
  {
  }

  /** The drag update: point `index` moves to the cursor fraction, clamped into the canvas. */
  function MovePoint(ps: seq<ColorPoint>, index: int, fx: real, fy: real): (r: seq<ColorPoint>)
    requires 0 <= index < |ps|
    ensures |r| == |ps|
    ensures 0.0 <= r[index].x <= 1.0 && 0.0 <= r[index].y <= 1.0
    ensures 0.0 <= fx <= 1.0 && 0.0 <= fy <= 1.0 ==> r[index].x == fx && r[index].y == fy
    ensures forall i :: 0 <= i < |ps| ==> r[i].color == ps[i].color && r[i].opacity == ps[i].opacity
    ensures forall i :: 0 <= i < |ps| && i != index ==> r[i] == ps[i]
  {
    ps[index := ps[index].(x := Clamp01(fx), y := Clamp01(fy))]
  }

  /** Dragging keeps every point of a valid list valid. */
  lemma MovePreservesValidity(ps: seq<ColorPoint>, index: int, fx: real, fy: real)
    requires 0 <= index < |ps|
    requires forall i :: 0 <= i < |ps| ==> ValidPoint(ps[i])
    ensures forall i :: 0 <= i < |ps| ==> ValidPoint(MovePoint(ps, index, fx, fy)[i])
  {
  }

  /**
   * `colorPoints.filter((_, i) => i !== index)`, written as the filter walks:
   * `offset` is the original index of `ps[0]`.
   */
  function FilterIndex(ps: seq<ColorPoint>, index: int, offset: int): (r: seq<ColorPoint>)
    ensures |r| <= |ps|
    decreases |ps|
  {
    if ps == [] then []
    else if offset == index then FilterIndex(ps[1..], index, offset + 1)
    else [ps[0]] + FilterIndex(ps[1..], index, offset + 1)
  }

  /** The filter drops exactly the element at `index` when it exists and nothing otherwise. */
  lemma {:induction false} FilterIndexIsDeletion(ps: seq<ColorPoint>, index: int, offset: int)
    ensures 0 <= index - offset < |ps| ==>
      FilterIndex(ps, index, offset) == ps[..index - offset] + ps[index - offset + 1..]
    ensures !(0 <= index - offset < |ps|) ==> FilterIndex(ps, index, offset) == ps
    decreases |ps|
  {
    if ps != [] {
      var rest, j := ps[1..], index - offset;
      FilterIndexIsDeletion(rest, index, offset + 1);
      if j == 0 {
        assert ps[..0] + ps[1..] == rest;
      } else if 0 < j < |ps| {
        assert rest[..j - 1] == ps[1..j];
        assert rest[j..] == ps[j + 1..];
        assert [ps[0]] + ps[1..j] == ps[..j];
      } else {
        assert [ps[0]] + rest == ps;
      }
    }
  }

  /** The selection after removing `index`, as `removeColorPoint` adjusts it. */
  function SelectionAfterRemove(selected: Option<int>, index: int): Option<int> {
    if selected == Some(index) then Some(0)
    else if selected.Some? && selected.value > index then Some(selected.value - 1)
    else selected
  }

  /**
   * `removeColorPoint`: with more than one point, drop point `index` and
   * adjust the selection; with one point or none, change nothing.
   */
  function RemovePoint(e: Editor, index: int): (r: Editor)
    ensures |e.points| <= 1 ==> r == e
    ensures |e.points| > 1 && 0 <= index < |e.points| ==>
      && |r.points| == |e.points| - 1
      && (forall i :: 0 <= i < index ==> r.points[i] == e.points[i])
      && (forall i :: index <= i < |r.points| ==> r.points[i] == e.points[i + 1])
    ensures |e.points| > 1 && !(0 <= index < |e.points|) ==> r.points == e.points
    ensures |e.points| > 1 ==>
      && (e.selected == Some(index) ==> r.selected == Some(0))
      && (e.selected.Some? && e.selected.value > index ==> r.selected == Some(e.selected.value - 1))
      && (e.selected.None? || e.selected.value < index ==> r.selected == e.selected)
  {
    if |e.points| > 1 then
      FilterIndexIsDeletion(e.points, index, 0);
      Editor(FilterIndex(e.points, index, 0), SelectionAfterRemove(e.selected, index))
    else e
  }

  /** Removing a point keeps a valid editor valid: the list stays non-empty and the selection in range. */
  lemma RemovePreservesValidity(e: Editor, index: int)
    requires ValidEditor(e)
    requires 0 <= index < |e.points|
    ensures ValidEditor(RemovePoint(e, index))
  {
    var r := RemovePoint(e, index);
    if |e.points| > 1 {
      forall i | 0 <= i < |r.points| ensures ValidPoint(r.points[i]) {
        if i >= index {
          assert r.points[i] == e.points[i + 1];
        }
      }
    }
  }

  /** The point `addColorPoint` appends: white, opaque, at the canvas centre. */
  const CentrePoint: ColorPoint := ColorPoint(0.5, 0.5, NewPointColor, 1.0)

  /** `addColorPoint`: append the centre point and select it. */
  function AddPoint(e: Editor): (r: Editor)
    ensures |r.points| == |e.points| + 1
    ensures r.points[..|e.points|] == e.points
    ensures r.points[|e.points|] == ColorPoint(0.5, 0.5, "#ffffff", 1.0)
    ensures r.selected == Some(|e.points|)
  {
    Editor(e.points + [CentrePoint], Some(|e.points|))
  }

  /**
   * `handleCanvasClick`: unless a drag is in progress, append a white opaque
   * point at the clicked fraction, clamped into the canvas, and select it.
   */
  function ClickAddPoint(e: Editor, dragging: bool, fx: real, fy: real): (r: Editor)
    ensures dragging ==> r == e
    ensures !dragging ==>
      && |r.points| == |e.points| + 1
      && r.points[..|e.points|] == e.points
      && r.points[|e.points|].color == "#ffffff" && r.points[|e.points|].opacity == 1.0
      && 0.0 <= r.points[|e.points|].x <= 1.0 && 0.0 <= r.points[|e.points|].y <= 1.0
      && (0.0 <= fx <= 1.0 && 0.0 <= fy <= 1.0 ==> r.points[|e.points|].x == fx && r.points[|e.points|].y == fy)
      && r.selected == Some(|e.points|)
  {
    if dragging then e
    else Editor(e.points + [ColorPoint(Clamp01(fx), Clamp01(fy), NewPointColor, 1.0)], Some(|e.points|))
  }

  /** Adding a point (button or click) keeps a valid editor valid. */
  lemma AddPreservesValidity(e: Editor, dragging: bool, fx: real, fy: real)
    requires ValidEditor(e)
    ensures ValidEditor(AddPoint(e))
    ensures ValidEditor(ClickAddPoint(e, dragging, fx, fy))
  {
    var a := AddPoint(e);
    forall i | 0 <= i < |a.points| ensures ValidPoint(a.points[i]) {
      if i < |e.points| {
        assert a.points[i] == a.points[..|e.points|][i];
      }
    }
    var c := ClickAddPoint(e, dragging, fx, fy);
    forall i | 0 <= i < |c.points| ensures ValidPoint(c.points[i]) {
      if i < |e.points| {
        assert c.points[i] == c.points[..|e.points|][i];
      }
    }
  }

  /** Removing the point just added restores the list; the selection falls back to the first point. */
  lemma AddThenRemove(e: Editor)
    requires |e.points| >= 1
    ensures RemovePoint(AddPoint(e), |e.points|) == Editor(e.points, Some(0))
  {
    var a := AddPoint(e);
    FilterIndexIsDeletion(a.points, |e.points|, 0);
    assert a.points[..|e.points|] + a.points[|e.points| + 1..] == e.points;
  }

  /** Recolouring with a colour string and opacity the editor can produce keeps a valid editor valid. */
  lemma ChangeColorPreservesValidity(e: Editor, index: int, color: string, opacity: real)
    requires ValidEditor(e)
    requires 0 <= index < |e.points|
    requires IsHexColor(color) && 0.0 <= opacity <= 1.0
    ensures ValidEditor(e.(points := ChangeColor(e.points, index, color, opacity)))
  {
  }
}
