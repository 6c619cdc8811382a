/** The desktop (Electron) renderer's editor (app.js): one paint history without
    symmetry or opacity, undo/redo on Ctrl+Z / Ctrl+Y, and the `.pp` project
    commands the main process sends. Rendering to the canvas is not modelled. */
module DesktopEditor {
  import opened Wrappers
  import opened Actions
  import opened Colors
  import opened Project
  import opened Export

  class Editor {
    var pixelWidth: int
    var pixelHeight: int
    var currentColor: string
    var colorHistory: seq<string>
    var history: seq<Action>
    var redoStack: seq<Action>
    var isDrawing: bool

    /** The colour history is a non-empty duplicate-free list of at most eight colours. */
    ghost predicate Valid()
      reads this
    {
      0 < |colorHistory| <= MaxColorHistory && NoDuplicates(colorHistory)
    }

    /** Window load with the initial colour, then `resizeCanvas()` with the size
        fields' values. */
    constructor (width: int, height: int)
      ensures Valid()
      ensures pixelWidth == width && pixelHeight == height
      ensures history == [] && redoStack == []
      ensures currentColor == "#000000" && colorHistory == ["#000000"]
      ensures !isDrawing
    {
      var initialColor := "#000000";
      currentColor := initialColor;
      colorHistory := [initialColor];
      history, redoStack := [], [];
      isDrawing := false;
      pixelWidth, pixelHeight := width, height;
    }

    /** The resize button: the grid takes the new size and both stacks are emptied. */
    method ResizeCanvas(width: int, height: int)
      modifies this`pixelWidth, this`pixelHeight, this`history, this`redoStack
      ensures pixelWidth == width && pixelHeight == height
      ensures history == [] && redoStack == []
    {
      pixelWidth := width;
      pixelHeight := height;
      history := [];
      redoStack := [];
    }

    method UpdateColorHistory(newColor: string)
      requires Valid()
      modifies this`colorHistory
      ensures Valid()
      ensures colorHistory == Recent(old(colorHistory), newColor)
    {
      if colorHistory[|colorHistory| - 1] != newColor {
        PushedFacts(colorHistory, newColor);
        colorHistory := Without(colorHistory, newColor);
        colorHistory := colorHistory + [newColor];
        if |colorHistory| > MaxColorHistory {
          colorHistory := colorHistory[1..];
        }
      }
    }

    /** One paint at (x, y): exactly one action is pushed, the oldest is shifted
        out past the cap, redo is invalidated and the colour becomes most recent. */
    method DrawPixel(x: int, y: int)
      requires Valid()
      modifies this`history, this`redoStack, this`colorHistory
      ensures Valid()
      ensures history == CapOnce(old(history) + [Action(x, y, currentColor, None)])
      ensures |old(history)| <= Cap ==> |history| <= Cap && history[|history| - 1] == Action(x, y, currentColor, None)
      ensures redoStack == []
      ensures colorHistory == Recent(old(colorHistory), currentColor)
    {
      history := history + [Action(x, y, currentColor, None)];
      if |history| > Cap {
        history := history[1..];
      }
      redoStack := [];
      UpdateColorHistory(currentColor);
      if |old(history)| <= Cap {
        PaintKeepsNewest(old(history), Action(x, y, currentColor, None));
      }
    }

    /** `mousedown` starts a stroke with a paint. */
    method MouseDown(x: int, y: int)
      requires Valid()
      modifies this`isDrawing, this`history, this`redoStack, this`colorHistory
      ensures Valid() && isDrawing
      ensures history == CapOnce(old(history) + [Action(x, y, currentColor, None)])
      ensures redoStack == [] && colorHistory == Recent(old(colorHistory), currentColor)
    {
      isDrawing := true;
      DrawPixel(x, y);
    }

    /** `mousemove` paints on every move while a stroke is on, even over the same cell. */
    method MouseMove(x: int, y: int)
      requires Valid()
      modifies this`history, this`redoStack, this`colorHistory
      ensures Valid()
      ensures old(isDrawing) ==> history == CapOnce(old(history) + [Action(x, y, currentColor, None)]) &&
                                  redoStack == [] && colorHistory == Recent(old(colorHistory), currentColor)
      ensures !old(isDrawing) ==> unchanged(this)
    {
      if isDrawing {
        DrawPixel(x, y);
      }
    }

    /** `mouseup` and `mouseleave` end the stroke. */
    method MouseUp()
      modifies this`isDrawing
      ensures !isDrawing
    {
      if isDrawing {
        isDrawing := false;
      }
    }

    /** The colour picker's `input` event selects a colour without recording it. */
    method SelectColor(color: string)
      modifies this`currentColor
      ensures currentColor == color
    {
      currentColor := color;
    }

    /** A swatch click selects its colour and moves it to the end of the history. */
    method SelectSwatch(color: string)
      requires Valid()
      modifies this`currentColor, this`colorHistory
      ensures Valid()
      ensures currentColor == color && colorHistory == Recent(old(colorHistory), color)
    {
      currentColor := color;
      UpdateColorHistory(color);
    }

    method Undo()
      modifies this`history, this`redoStack
      ensures old(history) == [] ==> history == [] && redoStack == old(redoStack)
      ensures old(history) != [] ==>
                history == old(history)[..|old(history)| - 1] &&
                redoStack == old(redoStack) + [old(history)[|old(history)| - 1]]
    {
      if |history| > 0 {
        var last := history[|history| - 1];
        history := history[..|history| - 1];
        redoStack := redoStack + [last];
      }
    }

    method Redo()
      modifies this`history, this`redoStack
      ensures old(redoStack) == [] ==> history == old(history) && redoStack == []
      ensures old(redoStack) != [] ==>
                redoStack == old(redoStack)[..|old(redoStack)| - 1] &&
                history == old(history) + [old(redoStack)[|old(redoStack)| - 1]]
    {
      if |redoStack| > 0 {
        var last := redoStack[|redoStack| - 1];
        redoStack := redoStack[..|redoStack| - 1];
        history := history + [last];
      }
    }

    /** The `keydown` handler: Ctrl+z undoes, Ctrl+y redoes; Ctrl+c (the
        clipboard copy) and every other key leave both stacks alone. */
    method KeyDown(ctrlKey: bool, key: string)
      modifies this`history, this`redoStack
      ensures ctrlKey && key == "z" ==>
                (if old(history) == [] then history == [] && redoStack == old(redoStack)
                 else history == old(history)[..|old(history)| - 1] &&
                      redoStack == old(redoStack) + [old(history)[|old(history)| - 1]])
      ensures ctrlKey && key == "y" ==>
                (if old(redoStack) == [] then history == old(history) && redoStack == []
                 else redoStack == old(redoStack)[..|old(redoStack)| - 1] &&
                      history == old(history) + [old(redoStack)[|old(redoStack)| - 1]])
      ensures !(ctrlKey && (key == "z" || key == "y")) ==> history == old(history) && redoStack == old(redoStack)
    {
      if ctrlKey && key == "z" {
        Undo();
      }
      if ctrlKey && key == "y" {
        Redo();
      }
    }

    /** The `export-image` command: the image format the chosen path asks for. */
    method ExportImageFormat(filePath: string) returns (format: ImageFormat)
      ensures format == FormatFromPath(filePath)
    {
      format := FormatFromPath(filePath);
    }

    /** The `export-pp` command: the project object handed to `JSON.stringify`. */
    method ExportProject() returns (project: Value)
      ensures project == ExportPP(history)
      ensures DesktopImport(Some(project)) == Accepted(history)
    {
      project := ExportPP(history);
      ExportImportRoundTrip(history);
    }

    /** The `import-pp-data` command: an accepted object replaces the history and
        empties the redo stack; a refused one changes nothing. */
    method ImportProject(parsed: Option<Value>) returns (verdict: Verdict)
      modifies this`history, this`redoStack
      ensures verdict == DesktopImport(parsed)
      ensures verdict.Accepted? ==> history == verdict.pixels && redoStack == []
      ensures !verdict.Accepted? ==> history == old(history) && redoStack == old(redoStack)
    {
      verdict := DesktopImport(parsed);
      if verdict.Accepted? {
        history := verdict.pixels;
        redoStack := [];
      }
    }
  }

  /** Undo then redo restores the history and the redo stack exactly. */
  method UndoThenRedo(e: Editor)
    requires e.history != []
    modifies e
    ensures e.history == old(e.history) && e.redoStack == old(e.redoStack)
  {
    e.Undo();
    e.Redo();
  }

  /** Paint, undo, paint, redo: the second paint empties the redo stack, so the
      redo does nothing and exactly one action (the second paint) remains. */
  method PaintUndoPaintRedo(width: int, height: int, x1: int, y1: int, x2: int, y2: int)
    returns (history: seq<Action>, redoStack: seq<Action>)
    ensures history == [Action(x2, y2, "#000000", None)] && redoStack == []
  {
    var e := new Editor(width, height);
    e.DrawPixel(x1, y1);
    e.Undo();
    e.DrawPixel(x2, y2);
    e.Redo();
    history, redoStack := e.history, e.redoStack;
  }

  /** Exporting a project and importing it again restores the history and
      leaves nothing to redo. */
  method ExportThenImport(e: Editor)
    modifies e
    ensures e.history == old(e.history) && e.redoStack == []
  {
    var project := e.ExportProject();
    var verdict := e.ImportProject(Some(project));
  }

  /** Painting at the cap evicts exactly the oldest action: after 1001 paints
      from a fresh editor the first is gone and the last is kept. */
  method ThousandAndOnePaints(width: int, height: int, cells: seq<(int, int)>)
    returns (history: seq<Action>)
    requires |cells| == Cap + 1
    ensures |history| == Cap
    ensures forall k :: 0 <= k < Cap ==> history[k] == Action(cells[k + 1].0, cells[k + 1].1, "#000000", None)
  {
    var e := new Editor(width, height);
    var k := 0;
    while k < |cells|
      invariant 0 <= k <= |cells|
      invariant e.Valid() && e.currentColor == "#000000"
      invariant e.history == Window(Recorded(cells[..k]))
      modifies e
    {
      PaintStep(e, cells, k);
      k := k + 1;
    }
    assert cells[..k] == cells;
    history := e.history;
    WindowOfOverflow(cells);
  }

  /** One iteration of the scenario: paint the k-th cell in the initial colour. */
  method PaintStep(e: Editor, cells: seq<(int, int)>, k: nat)
    requires k < |cells|
    requires e.Valid() && e.currentColor == "#000000"
    requires e.history == Window(Recorded(cells[..k]))
    modifies e
    ensures e.Valid() && e.currentColor == "#000000"
    ensures e.history == Window(Recorded(cells[..k + 1]))
  {
    e.DrawPixel(cells[k].0, cells[k].1);
    RecordedStep(cells, k);
  }

  lemma RecordedStep(cells: seq<(int, int)>, k: nat)
    requires k < |cells|
    ensures CapOnce(Window(Recorded(cells[..k])) + [Action(cells[k].0, cells[k].1, "#000000", None)])
            == Window(Recorded(cells[..k + 1]))
  {
    var a := Action(cells[k].0, cells[k].1, "#000000", None);
    assert Recorded(cells[..k + 1]) == Recorded(cells[..k]) + [a];
    WindowOfPaint(Recorded(cells[..k]), a);
  }

  lemma WindowOfOverflow(cells: seq<(int, int)>)
    requires |cells| == Cap + 1
    ensures |Window(Recorded(cells))| == Cap
    ensures forall k :: 0 <= k < Cap ==>
      Window(Recorded(cells))[k] == Action(cells[k + 1].0, cells[k + 1].1, "#000000", None)
  {
  }

  /** The actions the desktop renderer records for `cells` in the initial colour. */
  function Recorded(cells: seq<(int, int)>): (r: seq<Action>)
    ensures |r| == |cells|
    ensures forall k :: 0 <= k < |cells| ==> r[k] == Action(cells[k].0, cells[k].1, "#000000", None)
  {
    seq(|cells|, k requires 0 <= k < |cells| => Action(cells[k].0, cells[k].1, "#000000", None))
  }

  lemma WindowOfPaint(s: seq<Action>, a: Action)
    ensures CapOnce(Window(s) + [a]) == Window(s + [a])
  {
    CapOnceIsWindow(Window(s), a);
    WindowAppend(s, a);
  }
}
