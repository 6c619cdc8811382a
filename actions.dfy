/** The paint history shared by both renderers: an ordered list of paint actions,
    the 1000-entry cap applied after a paint event, the "most recent action at a
    cell" view that erase and rendering rely on, and the removal erase performs. */
module Actions {
  import opened Wrappers

  /** One recorded paint event: cell (x, y) was set to `color`. The web renderer
      records its opacity; the desktop renderer records none (`alpha` absent). */
  datatype Action = Action(x: int, y: int, color: string, alpha: Option<real>)

  /** The history length above which one oldest entry is dropped. */
  const Cap: nat := 1000

  predicate At(a: Action, x: int, y: int)
  {
    a.x == x && a.y == y
  }

  /** `if (history.length > 1000) history.shift()`: run once after each paint event. */
  function CapOnce(h: seq<Action>): seq<Action>
  {
    if |h| > Cap then h[1..] else h
  }

  /** A single-cell paint (the desktop renderer) keeps the newest action, never
      leaves more than Cap entries, and evicts the oldest entry only on overflow. */
  lemma PaintKeepsNewest(h: seq<Action>, a: Action)
    requires |h| <= Cap
    ensures var r := CapOnce(h + [a]);
      |r| <= Cap && r[|r| - 1] == a &&
      (if |h| < Cap then r == h + [a] else r == h[1..] + [a])
  {
    if |h| == Cap {
      assert (h + [a])[1..] == h[1..] + [a];
    }
  }

  /** The web renderer may push up to four entries and then drops only one, so
      once the history is at the cap every k-cell event grows it by k - 1. */
  lemma CapDropsOnlyOne(h: seq<Action>, pushed: seq<Action>)
    requires |h| >= Cap && |pushed| >= 1
    ensures |CapOnce(h + pushed)| == |h| + |pushed| - 1
    ensures CapOnce(h + pushed) == h[1..] + pushed
  {
    assert (h + pushed)[1..] == h[1..] + pushed;
  }

  /** The last Cap entries of `s`. */
  function Window(s: seq<Action>): (r: seq<Action>)
    ensures |r| == if |s| <= Cap then |s| else Cap
    ensures forall i :: 0 <= i < |r| ==> r[i] == s[|s| - |r| + i]
  {
    if |s| <= Cap then s else s[|s| - Cap..]
  }

  /** Single-cell paints, one after another, each followed by the cap. */
  function PaintAll(h: seq<Action>, painted: seq<Action>): seq<Action>
    decreases |painted|
  {
    if painted == [] then h else PaintAll(CapOnce(h + [painted[0]]), painted[1..])
  }

  lemma {:induction false} WindowAppend(s: seq<Action>, a: Action)
    ensures Window(Window(s) + [a]) == Window(s + [a])
  {
    if |s| > Cap {
      var w := s[|s| - Cap..];
      assert (w + [a])[1..] == (s + [a])[|s| + 1 - Cap..];
    }
  }

  /** Any run of single-cell paints from a history within the cap leaves exactly
      the newest Cap actions of the whole run, in order. */
  lemma {:induction false} PaintAllIsWindow(h: seq<Action>, painted: seq<Action>)
    requires |h| <= Cap
    ensures PaintAll(h, painted) == Window(h + painted)
    decreases |painted|
  {
    if painted == [] {
      assert h + painted == h;
    } else {
      var a, rest := painted[0], painted[1..];
      var h' := CapOnce(h + [a]);
      CapOnceIsWindow(h, a);
      calc {
        PaintAll(h, painted);
        PaintAll(h', rest);
        { PaintAllIsWindow(h', rest); }
        Window(h' + rest);
        { WindowAppendAll(h + [a], rest); }
        Window(h + [a] + rest);
        { assert h + [a] + rest == h + painted; }
        Window(h + painted);
      }
    }
  }

  lemma CapOnceIsWindow(h: seq<Action>, a: Action)
    requires |h| <= Cap
    ensures CapOnce(h + [a]) == Window(h + [a]) && |CapOnce(h + [a])| <= Cap
  {
    PaintKeepsNewest(h, a);
  }

  lemma {:induction false} WindowAppendAll(s: seq<Action>, t: seq<Action>)
    ensures Window(Window(s) + t) == Window(s + t)
    decreases |t|
  {
    if t == [] {
      assert Window(s) + t == Window(s);
      assert s + t == s;
      if |s| > Cap {
        assert |Window(s)| == Cap;
      }
    } else {
      var last := t[|t| - 1];
      var init := t[..|t| - 1];
      assert t == init + [last];
      WindowAppendAll(s, init);
      assert Window(s) + t == (Window(s) + init) + [last];
      assert s + t == (s + init) + [last];
      WindowAppend(Window(s) + init, last);
      WindowAppend(s + init, last);
    }
  }

  /** Painting 1001 actions one by one onto an empty history keeps the last 1000:
      the very first action is the one evicted and the last one is present. */
  lemma FirstEvictedOnOverflow(painted: seq<Action>)
    requires |painted| == Cap + 1
    ensures PaintAll([], painted) == painted[1..]
    ensures painted[Cap] == PaintAll([], painted)[Cap - 1]
  {
    PaintAllIsWindow([], painted);
    assert [] + painted == painted;
  }

  /** Index of the most recent action at (x, y), as the backward scan of erase finds it. */
  function LastIndexAt(h: seq<Action>, x: int, y: int): (r: Option<nat>)
    ensures r.Some? ==> r.value < |h| && At(h[r.value], x, y)
    ensures r.Some? ==> forall j :: r.value < j < |h| ==> !At(h[j], x, y)
    ensures r.None? <==> forall j :: 0 <= j < |h| ==> !At(h[j], x, y)
  {
    if h == [] then None
    else if At(h[|h| - 1], x, y) then Some(|h| - 1)
    else LastIndexAt(h[..|h| - 1], x, y)
  }

  /** The action that wins at cell (x, y) when the history is drawn oldest first. */
  function TopAt(h: seq<Action>, x: int, y: int): (r: Option<Action>)
    ensures r.Some? ==> r.value in h && At(r.value, x, y)
    ensures r.None? <==> forall a :: a in h ==> !At(a, x, y)
  {
    match LastIndexAt(h, x, y)
    case None => None
    case Some(i) => Some(h[i])
  }

  /** The history after erase at one cell: only the most recent entry there goes. */
  function RemoveLastAt(h: seq<Action>, x: int, y: int): seq<Action>
  {
    match LastIndexAt(h, x, y)
    case None => h
    case Some(i) => h[..i] + h[i + 1..]
  }

  /** Erase at a cell removes exactly one entry, the most recent one there, and
      keeps every other entry in its relative order; with no entry there it is a
      no-op. */
  lemma RemoveLastAtSplices(h: seq<Action>, x: int, y: int)
    ensures (forall a :: a in h ==> !At(a, x, y)) ==> RemoveLastAt(h, x, y) == h
    ensures (exists a :: a in h && At(a, x, y)) ==>
      exists i :: 0 <= i < |h| && At(h[i], x, y) &&
        (forall j :: i < j < |h| ==> !At(h[j], x, y)) &&
        RemoveLastAt(h, x, y) == h[..i] + h[i + 1..]
    ensures |RemoveLastAt(h, x, y)| == if TopAt(h, x, y).Some? then |h| - 1 else |h|
    ensures TopAt(h, x, y).Some? ==>
      multiset(RemoveLastAt(h, x, y)) + multiset{TopAt(h, x, y).value} == multiset(h)
  {
    match LastIndexAt(h, x, y)
    case None =>
    case Some(i) =>
      assert h == h[..i] + [h[i]] + h[i + 1..];
      assert multiset(h) == multiset(h[..i]) + multiset{h[i]} + multiset(h[i + 1..]);
  }

  /** Last write wins across a concatenation: the newer part decides a cell it touches. */
  lemma {:induction false} TopAtAppend(a: seq<Action>, b: seq<Action>, x: int, y: int)
    ensures TopAt(a + b, x, y) == if TopAt(b, x, y).Some? then TopAt(b, x, y) else TopAt(a, x, y)
    decreases |b|
  {
    if b == [] {
      assert a + b == a;
    } else {
      var last := b[|b| - 1];
      var init := b[..|b| - 1];
      assert (a + b)[..|a + b| - 1] == a + init;
      if !At(last, x, y) {
        TopAtAppend(a, init, x, y);
      }
    }
  }

  /** Erasing at (x, y) leaves the winning action of every other cell as it was, and
      at (x, y) exposes the action that was underneath the erased one. */
  lemma RemoveLastAtExposes(h: seq<Action>, x: int, y: int, cx: int, cy: int)
    requires LastIndexAt(h, x, y).Some?
    ensures var i := LastIndexAt(h, x, y).value;
      TopAt(RemoveLastAt(h, x, y), cx, cy) ==
        if cx == x && cy == y then TopAt(h[..i], x, y) else TopAt(h, cx, cy)
  {
    var i := LastIndexAt(h, x, y).value;
    assert h == h[..i] + ([h[i]] + h[i + 1..]);
    TopAtAppend(h[..i], h[i + 1..], cx, cy);
    TopAtAppend(h[..i], [h[i]] + h[i + 1..], cx, cy);
    TopAtAppend([h[i]], h[i + 1..], cx, cy);
    assert [h[i]][..0] == [];
    if cx == x && cy == y {
      assert TopAt(h[i + 1..], x, y).None?;
    }
  }

  /** Erase at each cell of `cells`, in order (the primary cell, then its mirrors). */
  function EraseAll(h: seq<Action>, cells: seq<(int, int)>): seq<Action>
  {
    if cells == [] then h
    else RemoveLastAt(EraseAll(h, cells[..|cells| - 1]), cells[|cells| - 1].0, cells[|cells| - 1].1)
  }

  /** An erase gesture removes at most one entry per target cell and never adds one;
      where no target cell has an entry it is a no-op. */
  lemma {:induction false} EraseAllShrinks(h: seq<Action>, cells: seq<(int, int)>)
    ensures |h| - |cells| <= |EraseAll(h, cells)| <= |h|
    ensures multiset(EraseAll(h, cells)) <= multiset(h)
    ensures (forall a, c :: a in h && c in cells ==> !At(a, c.0, c.1)) ==> EraseAll(h, cells) == h
  {
    if cells != [] {
      var init := cells[..|cells| - 1];
      var c := cells[|cells| - 1];
      EraseAllShrinks(h, init);
      var e := EraseAll(h, init);
      RemoveLastAtSplices(e, c.0, c.1);
      if forall a, c :: a in h && c in cells ==> !At(a, c.0, c.1) {
        assert forall a, c :: a in h && c in init ==> !At(a, c.0, c.1);
      }
    }
  }

  /** The raster a full redraw produces: each action, oldest first, overwrites its cell. */
  function Replay(h: seq<Action>): map<(int, int), Action>
  {
    if h == [] then map[]
    else Replay(h[..|h| - 1])[(h[|h| - 1].x, h[|h| - 1].y) := h[|h| - 1]]
  }

  /** Redrawing from history agrees with the most-recent-action view at every cell. */
  lemma {:induction false} ReplayIsTopAt(h: seq<Action>, x: int, y: int)
    ensures TopAt(h, x, y) == if (x, y) in Replay(h) then Some(Replay(h)[(x, y)]) else None
  {
    if h != [] {
      var init := h[..|h| - 1];
      ReplayIsTopAt(init, x, y);
      TopAtAppend(init, [h[|h| - 1]], x, y);
      assert init + [h[|h| - 1]] == h;
    }
  }

  /** The backward `for` scan of erase: the index of the most recent action at (x, y). */
  method FindMostRecent(h: seq<Action>, x: int, y: int) returns (r: Option<nat>)
    ensures r == LastIndexAt(h, x, y)
    ensures r.Some? ==> r.value < |h| && At(h[r.value], x, y)
  {
    var i := |h|;
    while i > 0
      invariant 0 <= i <= |h|
      invariant forall j :: i <= j < |h| ==> !At(h[j], x, y)
    {
      i := i - 1;
      if At(h[i], x, y) {
        return Some(i);
      }
    }
    return None;
  }
}
