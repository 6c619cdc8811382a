/** Export geometry and format choice: where each action's rectangle lands in an
    export of arbitrary size, the fills the web export issues, and the image
    format the desktop renderer picks from the chosen file name. */
module Export {
  import opened Wrappers
  import opened Actions

  /** `Math.round(n / d)`: the nearest integer, halves rounded up. */
  function RoundDiv(n: int, d: int): (r: int)
    requires d > 0
    ensures 2 * (r * d) - d <= 2 * n < 2 * (r * d) + d
  {
    var q := (2 * n + d) / (2 * d);
    DivBounds(2 * n + d, 2 * d);
    q
  }

  /** `Math.ceil(n / d)`: the least integer not below n / d. */
  function CeilDiv(n: int, d: int): (r: int)
    requires d > 0
    ensures (r - 1) * d < n <= r * d
  {
    var q := (-n) / d;
    DivBounds(-n, d);
    -q
  }

  lemma DivBounds(n: int, d: int)
    requires d > 0
    ensures (n / d) * d <= n < (n / d) * d + d
  {
  }

  datatype Rect = Rect(left: int, top: int, width: int, height: int)

  /** The rectangle one action fills in an export of `exportWidth` by
      `exportHeight` pixels of a `pixelWidth` by `pixelHeight` grid. */
  function CellRect(x: int, y: int, exportWidth: int, exportHeight: int, pixelWidth: int, pixelHeight: int): Rect
    requires pixelWidth > 0 && pixelHeight > 0
  {
    Rect(RoundDiv(x * exportWidth, pixelWidth), RoundDiv(y * exportHeight, pixelHeight),
         CeilDiv(exportWidth, pixelWidth), CeilDiv(exportHeight, pixelHeight))
  }

  /** When the export size is a whole multiple of the grid, every cell maps to an
      exact k-by-k block with no rounding. */
  lemma {:induction false} ExactScaling(x: int, y: int, kx: int, ky: int, pixelWidth: int, pixelHeight: int)
    requires pixelWidth > 0 && pixelHeight > 0
    ensures CellRect(x, y, kx * pixelWidth, ky * pixelHeight, pixelWidth, pixelHeight) == Rect(x * kx, y * ky, kx, ky)
  {
    RoundExact(x * kx, pixelWidth);
    RoundExact(y * ky, pixelHeight);
    assert x * (kx * pixelWidth) == (x * kx) * pixelWidth;
    assert y * (ky * pixelHeight) == (y * ky) * pixelHeight;
    CeilExact(kx, pixelWidth);
    CeilExact(ky, pixelHeight);
  }

  /** A positive multiple of a positive step is at least one step. */
  lemma {:induction false} MulAtLeast(k: int, d: int)
    requires k >= 1 && d > 0
    ensures k * d >= d
    decreases k
  {
    if k > 1 {
      MulAtLeast(k - 1, d);
      assert k * d == (k - 1) * d + d;
    }
  }

  /** Two multiples of a positive step closer than the step are equal. */
  lemma SameMultiple(a: int, b: int, d: int)
    requires d > 0 && -d < a * d - b * d < d
    ensures a == b
  {
    assert a * d - b * d == (a - b) * d;
    if a > b {
      MulAtLeast(a - b, d);
    } else if a < b {
      MulAtLeast(b - a, d);
    }
  }

  lemma RoundExact(m: int, d: int)
    requires d > 0
    ensures RoundDiv(m * d, d) == m
  {
    var r := RoundDiv(m * d, d);
    SameMultiple(r, m, d);
  }

  lemma CeilExact(m: int, d: int)
    requires d > 0
    ensures CeilDiv(m * d, d) == m
  {
    var r := CeilDiv(m * d, d);
    assert (r - 1) * d == r * d - d;
    SameMultiple(r, m, d);
  }

  /** Neighbouring columns leave no gap: the next cell starts no further right
      than where this cell's rectangle ends, and cells are laid out in order. */
  lemma NoGapBetweenColumns(x: int, exportWidth: int, pixelWidth: int)
    requires pixelWidth > 0 && exportWidth >= 0
    ensures var here := RoundDiv(x * exportWidth, pixelWidth);
      var next := RoundDiv((x + 1) * exportWidth, pixelWidth);
      here <= next <= here + CeilDiv(exportWidth, pixelWidth)
  {
    var p := pixelWidth;
    var here := RoundDiv(x * exportWidth, p);
    var next := RoundDiv((x + 1) * exportWidth, p);
    var w := CeilDiv(exportWidth, p);
    assert (x + 1) * exportWidth == x * exportWidth + exportWidth;
    assert (w - 1) * p == w * p - p;
    if next < here {
      MulAtLeast(here - next, p);
    }
    if next > here + w {
      MulAtLeast(next - here - w, p);
    }
  }

  /** One `fillRect` of the export canvas: the action's own colour string, before
      `hexToRgba` turns it into an `rgba` style, and its opacity. */
  datatype Fill = Fill(rect: Rect, color: string, alpha: real)

  /** `action.alpha !== undefined ? action.alpha : 1.0` */
  function OpacityOf(a: Action): real
  {
    match a.alpha
    case Some(v) => v
    case None => 1.0
  }

  /** The web export's drawing: a white background covering the whole export,
      then one rectangle per action in history order (later fills paint over
      earlier ones). */
  method ExportFills(history: seq<Action>, exportWidth: int, exportHeight: int, pixelWidth: int, pixelHeight: int)
    returns (fills: seq<Fill>)
    requires pixelWidth > 0 && pixelHeight > 0
    ensures |fills| == |history| + 1
    ensures fills[0] == Fill(Rect(0, 0, exportWidth, exportHeight), "#fff", 1.0)
    ensures forall i :: 0 <= i < |history| ==>
      fills[i + 1] == Fill(CellRect(history[i].x, history[i].y, exportWidth, exportHeight, pixelWidth, pixelHeight),
                           history[i].color, OpacityOf(history[i]))
  {
    fills := [Fill(Rect(0, 0, exportWidth, exportHeight), "#fff", 1.0)];
    var i := 0;
    while i < |history|
      invariant 0 <= i <= |history| && |fills| == i + 1
      invariant fills[0] == Fill(Rect(0, 0, exportWidth, exportHeight), "#fff", 1.0)
      invariant forall k :: 0 <= k < i ==>
        fills[k + 1] == Fill(CellRect(history[k].x, history[k].y, exportWidth, exportHeight, pixelWidth, pixelHeight),
                             history[k].color, OpacityOf(history[k]))
    {
      var a := history[i];
      var x := RoundDiv(a.x * exportWidth, pixelWidth);
      var y := RoundDiv(a.y * exportHeight, pixelHeight);
      var w := CeilDiv(exportWidth, pixelWidth);
      var h := CeilDiv(exportHeight, pixelHeight);
      fills := fills + [Fill(Rect(x, y, w, h), a.color, OpacityOf(a))];
      i := i + 1;
    }
  }

  /** `parseInt(input.value) || canvas.width`: an unparsable (NaN) or zero entry
      falls back to the on-screen canvas size. */
  function ExportDimension(parsed: Option<int>, canvasSize: int): (r: int)
    ensures r != 0 || canvasSize == 0
    ensures parsed.Some? && parsed.value != 0 ==> r == parsed.value
    ensures parsed.None? || parsed.value == 0 ==> r == canvasSize
  {
    match parsed
    case Some(v) => if v != 0 then v else canvasSize
    case None => canvasSize
  }

  datatype ImageFormat = Png | Jpg

  /** `filePath.split('.').pop()`: the text after the last dot, or the whole path. */
  function AfterLastDot(s: string): (r: string)
    ensures '.' !in r && |r| <= |s| && r == s[|s| - |r|..]
    ensures '.' in s ==> s[|s| - |r| - 1] == '.'
    ensures '.' !in s ==> r == s
  {
    if s == [] then []
    else if s[|s| - 1] == '.' then []
    else
      var init := s[..|s| - 1];
      assert s == init + [s[|s| - 1]];
      assert '.' in s ==> '.' in init;
      AfterLastDot(init) + [s[|s| - 1]]
  }

  function LowerChar(c: char): char
  {
    if 'A' <= c <= 'Z' then (c as int - 'A' as int + 'a' as int) as char else c
  }

  /** `toLowerCase()` on ASCII letters. */
  function Lower(s: string): (r: string)
    ensures |r| == |s|
  {
    seq(|s|, i requires 0 <= i < |s| => LowerChar(s[i]))
  }

  /** The desktop export picks JPEG for a `.jpg` or `.jpeg` extension in any
      letter case, PNG for anything else. */
  function FormatFromPath(path: string): ImageFormat
  {
    var ext := Lower(AfterLastDot(path));
    if ext == "jpg" || ext == "jpeg" then Jpg else Png
  }

  /** Whatever the directory or stem, only the extension decides the format. */
  lemma FormatOfExtension(stem: string, ext: string)
    requires '.' !in ext
    ensures FormatFromPath(stem + "." + ext) == if Lower(ext) in {"jpg", "jpeg"} then Jpg else Png
  {
    LastDotOfJoin(stem, ext);
  }

  lemma {:induction false} LastDotOfJoin(stem: string, ext: string)
    requires '.' !in ext
    ensures AfterLastDot(stem + "." + ext) == ext
    decreases |ext|
  {
    var s := stem + "." + ext;
    if ext == [] {
      assert s[|s| - 1] == '.';
    } else {
      var last := ext[|ext| - 1];
      assert s[..|s| - 1] == stem + "." + ext[..|ext| - 1];
      assert last in ext;
      LastDotOfJoin(stem, ext[..|ext| - 1]);
      assert ext == ext[..|ext| - 1] + [last];
    }
  }

  /** Upper-case `.JPEG` picks JPEG, and a name without a dot is read as its own
      extension. */
  lemma UpperCaseJpegExample()
    ensures FormatFromPath("art.JPEG") == Jpg
  {
    FormatOfExtension("art", "JPEG");
    assert "art" + "." + "JPEG" == "art.JPEG";
    assert Lower("JPEG") == "jpeg" by {
      var l := Lower("JPEG");
      assert l[0] == 'j' && l[1] == 'p' && l[2] == 'e' && l[3] == 'g';
    }
  }

  lemma BareNameExample()
    ensures FormatFromPath("jpg") == Jpg
    ensures FormatFromPath("photo") == Png
  {
    assert AfterLastDot("jpg") == "jpg";
    assert Lower("jpg") == "jpg" by {
      var l := Lower("jpg");
      assert l[0] == 'j' && l[1] == 'p' && l[2] == 'g';
    }
    assert AfterLastDot("photo") == "photo";
    assert |Lower("photo")| == 5;
  }
}
