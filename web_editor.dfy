/** The web renderer's single-layer editor (docs/app.js): module-level state
    updated in place by pointer events, symmetry toggles, undo/redo, resize and
    project import. Rendering to the canvas is not modelled; the history is. */
module WebEditor {
  import opened Wrappers
  import opened Actions
  import opened Symmetry
  import opened Colors
  import opened Project

  /** What a paint or erase event reads but never changes. */
  datatype Settings = Settings(pixelWidth: int, pixelHeight: int, currentColor: string, alphaValue: real,
                               axes: Axes, isDraggingSymmetry: bool)

  /** The actions one paint event records at `cells`, in order. */
  function Stamp(cells: seq<Cell>, color: string, alpha: real): seq<Action>
  {
    seq(|cells|, i requires 0 <= i < |cells| => Action(cells[i].0, cells[i].1, color, Some(alpha)))
  }

  class Editor {
    var pixelWidth: int
    var pixelHeight: int
    var currentColor: string
    var alphaValue: real
    var colorHistory: seq<string>
    var history: seq<Action>
    var redoStack: seq<Action>
    var isDrawing: bool
    var isErasing: bool
    var lastDrawnPos: Option<Cell>
    var isDraggingSymmetry: bool
    var horizontalSymmetryActive: bool
    var verticalSymmetryActive: bool
    var horizontalAxis: int
    var verticalAxis: int

    /** The colour history is a non-empty duplicate-free list of at most eight
        colours, and no symmetry drag is ever in progress (nothing sets one). */
    ghost predicate Valid()
      reads this
    {
      0 < |colorHistory| <= MaxColorHistory && NoDuplicates(colorHistory) && !isDraggingSymmetry
    }

    function AxesState(): Axes
      reads this
    {
      Axes(horizontalSymmetryActive, verticalSymmetryActive, horizontalAxis, verticalAxis)
    }

    function Config(): Settings
      reads this
    {
      Settings(pixelWidth, pixelHeight, currentColor, alphaValue, AxesState(), isDraggingSymmetry)
    }

    /** A paint event at (x, y) took place: the target cells were appended in
        order, one oldest entry was dropped if the history passed the cap, the
        redo stack was emptied and the current colour moved to the front of the
        colour history. */
    twostate predicate Painted(x: int, y: int)
      reads this
    {
      history == CapOnce(old(history) + Stamp(Targets(x, y, old(AxesState()), old(pixelWidth), old(pixelHeight)),
                                                 old(currentColor), old(alphaValue)))
      && redoStack == []
      && colorHistory == Recent(old(colorHistory), old(currentColor))
      && lastDrawnPos == Some((x, y))
      && Config() == old(Config())
    }

    /** An erase event at (x, y) took place: the most recent entry at each target
        cell was removed, in order; the redo stack was left alone. */
    twostate predicate Erased(x: int, y: int)
      reads this
    {
      history == EraseAll(old(history), Targets(x, y, old(AxesState()), old(pixelWidth), old(pixelHeight)))
      && redoStack == old(redoStack)
      && colorHistory == old(colorHistory)
      && lastDrawnPos == Some((x, y))
      && Config() == old(Config())
    }

    /** Page load with the initial 16 by 16 grid (axes at row and column 8), the
        alpha slider read at `alphaPercent`, then `resizeCanvas()` with the size
        fields' values. */
    constructor (width: int, height: int, alphaPercent: int)
      ensures Valid()
      ensures pixelWidth == width && pixelHeight == height
      ensures history == [] && redoStack == []
      ensures currentColor == "#000000" && colorHistory == ["#000000"]
      ensures alphaValue == alphaPercent as real / 100.0
      ensures AxesState() == Axes(false, false, 8, 8)
      ensures !isDrawing && !isErasing && lastDrawnPos == None
    {
      var initialWidth, initialHeight, initialColor := 16, 16, "#000000";
      currentColor := initialColor;
      colorHistory := [initialColor];
      history, redoStack := [], [];
      isDrawing, isErasing, lastDrawnPos, isDraggingSymmetry := false, false, None, false;
      horizontalSymmetryActive, verticalSymmetryActive := false, false;
      horizontalAxis, verticalAxis := initialHeight / 2, initialWidth / 2;
      alphaValue := alphaPercent as real / 100.0;
      pixelWidth, pixelHeight := width, height;
    }

    /** The resize button: a destructive change of grid size. The axes are kept
        as they are, even when they now lie outside the grid. */
    method ResizeCanvas(width: int, height: int)
      modifies this`pixelWidth, this`pixelHeight, this`history, this`redoStack
      ensures pixelWidth == width && pixelHeight == height
      ensures history == [] && redoStack == []
    {
      pixelWidth := width;
      pixelHeight := height;
      history := [];
      redoStack := [];
    }

    method UpdateColorHistory(newColor: string)
      requires Valid()
      modifies this`colorHistory
      ensures Valid()
      ensures colorHistory == Recent(old(colorHistory), newColor)
    {
      if colorHistory[|colorHistory| - 1] != newColor {
        PushedFacts(colorHistory, newColor);
        colorHistory := Without(colorHistory, newColor);
        colorHistory := colorHistory + [newColor];
        if |colorHistory| > MaxColorHistory {
          colorHistory := colorHistory[1..];
        }
      }
    }

    /** One backward scan of erase: splice out the most recent entry at (x, y). */
    method RemoveMostRecentAt(x: int, y: int)
      modifies this`history
      ensures history == RemoveLastAt(old(history), x, y)
    {
      var found := FindMostRecent(history, x, y);
      if found.Some? {
        var i := found.value;
        history := history[..i] + history[i + 1..];
      }
    }

    method DrawPixel(x: int, y: int, forceDraw: bool)
      requires Valid()
      modifies this`history, this`redoStack, this`colorHistory, this`lastDrawnPos
      ensures Valid()
      ensures if !forceDraw && old(lastDrawnPos) == Some((x, y)) then unchanged(this) else Painted(x, y)
    {
      if !forceDraw && lastDrawnPos == Some((x, y)) {
        return;
      }
      PushTargets(x, y);
      if |history| > Cap {
        history := history[1..];
      }
      redoStack := [];
      UpdateColorHistory(currentColor);
      lastDrawnPos := Some((x, y));
    }

    /** The pushes of one paint event: the primary cell, then each active
        in-range mirror, in order. */
    method PushTargets(x: int, y: int)
      modifies this`history
      ensures history == old(history) + Stamp(Targets(x, y, AxesState(), pixelWidth, pixelHeight), currentColor, alphaValue)
    {
      ghost var cells: seq<Cell> := [(x, y)];
      history := history + [Action(x, y, currentColor, Some(alphaValue))];
      assert Stamp(cells, currentColor, alphaValue) == [Action(x, y, currentColor, Some(alphaValue))];
      if horizontalSymmetryActive {
        var sy := horizontalAxis * 2 - y;
        if sy >= 0 && sy < pixelHeight {
          history := history + [Action(x, sy, currentColor, Some(alphaValue))];
          StampOneMore(cells, (x, sy), currentColor, alphaValue);
          cells := cells + [(x, sy)];
        }
      }
      if verticalSymmetryActive {
        var sx := verticalAxis * 2 - x;
        if sx >= 0 && sx < pixelWidth {
          history := history + [Action(sx, y, currentColor, Some(alphaValue))];
          StampOneMore(cells, (sx, y), currentColor, alphaValue);
          cells := cells + [(sx, y)];
        }
      }
      if horizontalSymmetryActive && verticalSymmetryActive {
        var sx := verticalAxis * 2 - x;
        var sy := horizontalAxis * 2 - y;
        if sx >= 0 && sx < pixelWidth && sy >= 0 && sy < pixelHeight {
          history := history + [Action(sx, sy, currentColor, Some(alphaValue))];
          StampOneMore(cells, (sx, sy), currentColor, alphaValue);
          cells := cells + [(sx, sy)];
        }
      }
      assert cells == Targets(x, y, AxesState(), pixelWidth, pixelHeight);
    }

    /** The backward scans of one erase event, over the primary cell and then
        each active in-range mirror, in order. */
    method EraseTargets(x: int, y: int)
      modifies this`history
      ensures history == EraseAll(old(history), Targets(x, y, AxesState(), pixelWidth, pixelHeight))
    {
      var targets := Targets(x, y, AxesState(), pixelWidth, pixelHeight);
      var k := 0;
      while k < |targets|
        invariant 0 <= k <= |targets|
        invariant history == EraseAll(old(history), targets[..k])
      {
        RemoveMostRecentAt(targets[k].0, targets[k].1);
        EraseOneMore(old(history), targets[..k], targets[k]);
        assert targets[..k + 1] == targets[..k] + [targets[k]];
        k := k + 1;
      }
      assert targets[..k] == targets;
    }

    method ErasePixel(x: int, y: int)
      requires Valid()
      modifies this`history, this`lastDrawnPos
      ensures Valid()
      ensures if old(lastDrawnPos) == Some((x, y)) then unchanged(this) else Erased(x, y)
    {
      if lastDrawnPos == Some((x, y)) {
        return;
      }
      EraseTargets(x, y);
      lastDrawnPos := Some((x, y));
    }

    /** `mousedown`: the right button starts erasing, shift-click moves the
        active axes to the clicked row and column, any other press starts a
        forced paint. */
    method MouseDown(button: int, shiftKey: bool, x: int, y: int)
      requires Valid()
      modifies this
      ensures Valid()
      ensures button == 2 ==> isErasing && isDrawing == old(isDrawing) && Erased(x, y)
      ensures button != 2 && shiftKey ==>
                history == old(history) && redoStack == old(redoStack) &&
                colorHistory == old(colorHistory) && lastDrawnPos == old(lastDrawnPos) &&
                isDrawing == old(isDrawing) && isErasing == old(isErasing) &&
                horizontalAxis == (if horizontalSymmetryActive then y else old(horizontalAxis)) &&
                verticalAxis == (if verticalSymmetryActive then x else old(verticalAxis)) &&
                horizontalSymmetryActive == old(horizontalSymmetryActive) &&
                verticalSymmetryActive == old(verticalSymmetryActive) &&
                pixelWidth == old(pixelWidth) && pixelHeight == old(pixelHeight) &&
                currentColor == old(currentColor) && alphaValue == old(alphaValue)
      ensures button != 2 && !shiftKey ==> isDrawing && isErasing == old(isErasing) && Painted(x, y)
    {
      if button == 2 {
        isErasing := true;
        lastDrawnPos := None;
        ErasePixel(x, y);
        return;
      }
      if shiftKey {
        if horizontalSymmetryActive {
          horizontalAxis := y;
        }
        if verticalSymmetryActive {
          verticalAxis := x;
        }
        return;
      }
      isDrawing := true;
      lastDrawnPos := None;
      DrawPixel(x, y, true);
    }

    /** `mousemove`: a drag paints (skipping the cell painted last), otherwise a
        right-button drag erases (likewise skipping the cell erased last). */
    method MouseMove(x: int, y: int)
      requires Valid()
      modifies this
      ensures Valid()
      ensures isDrawing == old(isDrawing) && isErasing == old(isErasing)
      ensures old(isDrawing) ==>
                if old(lastDrawnPos) == Some((x, y)) then unchanged(this) else Painted(x, y)
      ensures !old(isDrawing) && old(isErasing) ==>
                if old(lastDrawnPos) == Some((x, y)) then unchanged(this) else Erased(x, y)
      ensures !old(isDrawing) && !old(isErasing) ==> unchanged(this)
    {
      if isDrawing && !isDraggingSymmetry {
        DrawPixel(x, y, false);
      } else if isErasing {
        ErasePixel(x, y);
      }
    }

    /** `mouseup` anywhere on the page ends any stroke. */
    method MouseUp()
      modifies this`isDrawing, this`isErasing, this`lastDrawnPos
      ensures !isDrawing && !isErasing && lastDrawnPos == None
    {
      isDrawing := false;
      isErasing := false;
      lastDrawnPos := None;
    }

    method ToggleHorizontalSymmetry()
      modifies this`horizontalSymmetryActive
      ensures horizontalSymmetryActive == !old(horizontalSymmetryActive)
    {
      horizontalSymmetryActive := !horizontalSymmetryActive;
    }

    method ToggleVerticalSymmetry()
      modifies this`verticalSymmetryActive
      ensures verticalSymmetryActive == !old(verticalSymmetryActive)
    {
      verticalSymmetryActive := !verticalSymmetryActive;
    }

    /** The colour picker's `input` event and a swatch click both only select
        the colour; the colour history changes on the next paint. */
    method SelectColor(color: string)
      modifies this`currentColor
      ensures currentColor == color
    {
      currentColor := color;
    }

    /** The alpha slider's `input` event: a percentage becomes an opacity. */
    method SetAlpha(percent: int)
      modifies this`alphaValue
      ensures alphaValue == percent as real / 100.0
    {
      alphaValue := percent as real / 100.0;
    }

    method Undo()
      modifies this`history, this`redoStack
      ensures old(history) == [] ==> history == [] && redoStack == old(redoStack)
      ensures old(history) != [] ==>
                history == old(history)[..|old(history)| - 1] &&
                redoStack == old(redoStack) + [old(history)[|old(history)| - 1]]
    {
      if |history| > 0 {
        var last := history[|history| - 1];
        history := history[..|history| - 1];
        redoStack := redoStack + [last];
      }
    }

    method Redo()
      modifies this`history, this`redoStack
      ensures old(redoStack) == [] ==> history == old(history) && redoStack == []
      ensures old(redoStack) != [] ==>
                redoStack == old(redoStack)[..|old(redoStack)| - 1] &&
                history == old(history) + [old(redoStack)[|old(redoStack)| - 1]]
    {
      if |redoStack| > 0 {
        var last := redoStack[|redoStack| - 1];
        redoStack := redoStack[..|redoStack| - 1];
        history := history + [last];
      }
    }

    /** The `.pp` export object. */
    method ExportProject() returns (project: Value)
      ensures project == ExportPP(history)
      ensures WebImport(Some(project)) == Accepted(history)
    {
      project := ExportPP(history);
      ExportImportRoundTrip(history);
    }

    /** The import file chooser: an accepted object replaces the history (the
        redo stack is kept); a refused one leaves the editor unchanged. */
    method ImportProject(parsed: Option<Value>) returns (verdict: Verdict)
      modifies this`history
      ensures verdict == WebImport(parsed)
      ensures history == if verdict.Accepted? then verdict.pixels else old(history)
    {
      verdict := WebImport(parsed);
      if verdict.Accepted? {
        history := verdict.pixels;
      }
    }
  }

  lemma StampOneMore(cells: seq<Cell>, c: Cell, color: string, alpha: real)
    ensures Stamp(cells + [c], color, alpha) == Stamp(cells, color, alpha) + [Action(c.0, c.1, color, Some(alpha))]
  {
  }

  lemma {:induction false} EraseOneMore(h: seq<Action>, cells: seq<Cell>, c: Cell)
    ensures EraseAll(h, cells + [c]) == RemoveLastAt(EraseAll(h, cells), c.0, c.1)
  {
    assert (cells + [c])[..|cells|] == cells;
  }

  /** Undo then redo restores the history and the redo stack exactly. */
  method UndoThenRedo(e: Editor)
    requires e.history != []
    modifies e
    ensures e.history == old(e.history) && e.redoStack == old(e.redoStack)
  {
    e.Undo();
    e.Redo();
  }

  /** Redo then undo restores both stacks exactly when something was undone. */
  method RedoThenUndo(e: Editor)
    requires e.redoStack != []
    modifies e
    ensures e.history == old(e.history) && e.redoStack == old(e.redoStack)
  {
    e.Redo();
    e.Undo();
  }

  /** Four-way symmetric painting on a fresh 16 by 16 editor: toggling both
      mirrors and pressing on (2, 3) records the primary cell and its three
      mirrors about row and column 8, then undo takes back only the last mirror. */
  method FourWayStrokeThenUndo(alphaPercent: int) returns (history: seq<Action>, redoStack: seq<Action>)
    ensures var alpha := Some(alphaPercent as real / 100.0);
      history == [Action(2, 3, "#000000", alpha), Action(2, 13, "#000000", alpha), Action(14, 3, "#000000", alpha)] &&
      redoStack == [Action(14, 13, "#000000", alpha)]
  {
    var e := new Editor(16, 16, alphaPercent);
    e.ToggleHorizontalSymmetry();
    e.ToggleVerticalSymmetry();
    e.MouseDown(0, false, 2, 3);
    FourWayExample();
    e.MouseUp();
    e.Undo();
    history, redoStack := e.history, e.redoStack;
  }
}
