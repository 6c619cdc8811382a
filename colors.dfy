/** Colour handling: `hexToRgba` parsing of `#rgb` / `#rrggbb` strings and the
    bounded most-recently-used colour history both renderers keep. */
module Colors {

  /** An `rgba(r,g,b,alpha)` fill style. */
  datatype Rgba = Rgba(r: int, g: int, b: int, alpha: real)

  predicate IsHexDigit(c: char)
  {
    '0' <= c <= '9' || 'a' <= c <= 'f' || 'A' <= c <= 'F'
  }

  /** The value `parseInt(_, 16)` gives a single hex digit (either case). */
  function DigitValue(c: char): (v: nat)
    requires IsHexDigit(c)
    ensures v < 16
  {
    if '0' <= c <= '9' then c as int - '0' as int
    else if 'a' <= c <= 'f' then c as int - 'a' as int + 10
    else c as int - 'A' as int + 10
  }

  /** The lower-case digit a colour picker writes for `d`. */
  function DigitChar(d: nat): (c: char)
    requires d < 16
    ensures IsHexDigit(c) && DigitValue(c) == d
  {
    if d < 10 then ('0' as int + d) as char else ('a' as int + d - 10) as char
  }

  /** `parseInt(hi + lo, 16)` for two hex digits. */
  function PairValue(hi: char, lo: char): (v: nat)
    requires IsHexDigit(hi) && IsHexDigit(lo)
    ensures v <= 255
  {
    16 * DigitValue(hi) + DigitValue(lo)
  }

  /** The position of the first `#` in `s`. */
  function FirstHash(s: string): (i: nat)
    requires '#' in s
    ensures i < |s| && s[i] == '#' && '#' !in s[..i]
  {
    if s[0] == '#' then 0
    else
      assert s == [s[0]] + s[1..];
      var j := FirstHash(s[1..]);
      assert s[..j + 1] == [s[0]] + s[1..][..j];
      j + 1
  }

  /** `hex.replace('#', '')` with a string pattern: only the first `#` goes. */
  function StripHash(s: string): (r: string)
    ensures '#' !in s ==> r == s
    ensures '#' in s ==> |r| == |s| - 1 && multiset(r) + multiset{'#'} == multiset(s)
  {
    if s == [] then []
    else
      assert s == [s[0]] + s[1..];
      if s[0] == '#' then s[1..] else [s[0]] + StripHash(s[1..])
  }

  /** The characters around the first `#` are kept in their order: the result
      is the input with exactly that one position cut out. */
  lemma {:induction false} StripHashSplices(s: string)
    requires '#' in s
    ensures StripHash(s) == s[..FirstHash(s)] + s[FirstHash(s) + 1..]
  {
    if s[0] != '#' {
      var t := s[1..];
      FirstHashStep(s);
      StripHashSplices(t);
      assert [s[0]] + StripHash(t) == ([s[0]] + t[..FirstHash(t)]) + t[FirstHash(t) + 1..];
    }
  }

  /** Past a leading non-`#` character, the first `#` is one further on. */
  lemma FirstHashStep(s: string)
    requires '#' in s && s[0] != '#'
    ensures var t := s[1..];
      ('#' in t && FirstHash(s) == FirstHash(t) + 1 &&
       s[..FirstHash(s)] == [s[0]] + t[..FirstHash(t)] && s[FirstHash(s) + 1..] == t[FirstHash(t) + 1..])
  {
    assert s == [s[0]] + s[1..];
  }

  /** Inputs whose digits `parseInt` reads in full: after stripping, a 3- or
      6-character body holds hex digits only. Other lengths are not parsed. */
  predicate Parsable(hex: string)
  {
    var s := StripHash(hex);
    (|s| == 3 || |s| == 6) ==> forall i :: 0 <= i < |s| ==> IsHexDigit(s[i])
  }

  function HexToRgba(hex: string, alpha: real): (c: Rgba)
    requires Parsable(hex)
    ensures 0 <= c.r <= 255 && 0 <= c.g <= 255 && 0 <= c.b <= 255 && c.alpha == alpha
    ensures var s := StripHash(hex); |s| != 3 && |s| != 6 ==> c == Rgba(0, 0, 0, alpha)
  {
    var s := StripHash(hex);
    if |s| == 3 then Rgba(PairValue(s[0], s[0]), PairValue(s[1], s[1]), PairValue(s[2], s[2]), alpha)
    else if |s| == 6 then Rgba(PairValue(s[0], s[1]), PairValue(s[2], s[3]), PairValue(s[4], s[5]), alpha)
    else Rgba(0, 0, 0, alpha)
  }

  /** The shorthand form doubles each digit: `#f80` reads as 0xff, 0x88, 0x00,
      so each channel is 17 times its digit and equals the six-digit spelling. */
  lemma ShortFormDoublesDigits(hex: string, alpha: real)
    requires Parsable(hex) && |StripHash(hex)| == 3
    ensures var s := StripHash(hex); var c := HexToRgba(hex, alpha);
      c.r == 17 * DigitValue(s[0]) && c.g == 17 * DigitValue(s[1]) && c.b == 17 * DigitValue(s[2]) &&
      c == HexToRgba([s[0], s[0], s[1], s[1], s[2], s[2]], alpha)
  {
    var s := StripHash(hex);
    var six := [s[0], s[0], s[1], s[1], s[2], s[2]];
    assert IsHexDigit(s[0]) && IsHexDigit(s[1]) && IsHexDigit(s[2]);
    assert '#' !in six;
    assert StripHash(six) == six;
  }

  /** The two lower-case digits of a channel value, as `#rrggbb` carries them. */
  function Hex2(v: nat): (s: string)
    requires v <= 255
    ensures |s| == 2 && IsHexDigit(s[0]) && IsHexDigit(s[1]) && PairValue(s[0], s[1]) == v
  {
    [DigitChar(v / 16), DigitChar(v % 16)]
  }

  /** Every `#rrggbb` colour parses back to its channel values. */
  lemma SixDigitRoundTrip(r: nat, g: nat, b: nat, alpha: real)
    requires r <= 255 && g <= 255 && b <= 255
    ensures Parsable("#" + Hex2(r) + Hex2(g) + Hex2(b))
    ensures HexToRgba("#" + Hex2(r) + Hex2(g) + Hex2(b), alpha) == Rgba(r, g, b, alpha)
  {
    var rs, gs, bs := Hex2(r), Hex2(g), Hex2(b);
    var body := [rs[0], rs[1], gs[0], gs[1], bs[0], bs[1]];
    assert "#" + rs + gs + bs == "#" + body;
    SixDigitBody(body, alpha);
  }

  lemma SixDigitBody(body: string, alpha: real)
    requires |body| == 6 && forall i :: 0 <= i < 6 ==> IsHexDigit(body[i])
    ensures Parsable("#" + body)
    ensures HexToRgba("#" + body, alpha) ==
      Rgba(PairValue(body[0], body[1]), PairValue(body[2], body[3]), PairValue(body[4], body[5]), alpha)
  {
    StripLeadingHash(body);
  }

  lemma StripLeadingHash(body: string)
    ensures StripHash("#" + body) == body
  {
    assert ("#" + body)[1..] == body;
  }

  /** Malformed lengths fall back to black, never an error. */
  lemma MalformedIsBlack(alpha: real)
    ensures HexToRgba("#12345", alpha) == Rgba(0, 0, 0, alpha)
    ensures HexToRgba("", alpha) == Rgba(0, 0, 0, alpha)
  {
    assert StripHash("#12345") == "12345";
  }

  const MaxColorHistory: nat := 8

  predicate NoDuplicates(s: seq<string>)
  {
    forall i, j :: 0 <= i < j < |s| ==> s[i] != s[j]
  }

  /** `colorHistory.filter(c => c !== newColor)`. */
  function Without(s: seq<string>, c: string): (r: seq<string>)
    ensures c !in r && |r| <= |s|
  {
    if s == [] then []
    else if s[0] == c then Without(s[1..], c) else [s[0]] + Without(s[1..], c)
  }

  /** The filter keeps every other colour, in order, and nothing else: it is
      the identity when `c` is absent, strictly shorter when present, and it
      keeps a duplicate-free list duplicate-free. */
  lemma {:induction false} WithoutFacts(s: seq<string>, c: string)
    ensures var r := Without(s, c);
      (forall d :: d != c ==> (d in r <==> d in s)) &&
      (c !in s ==> r == s) &&
      (c in s ==> |r| < |s|) &&
      (NoDuplicates(s) ==> NoDuplicates(r))
  {
    if s != [] {
      WithoutFacts(s[1..], c);
      assert s == [s[0]] + s[1..];
      assert NoDuplicates(s) ==> NoDuplicates(s[1..]) && s[0] !in s[1..];
    }
  }

  /** Filtering keeps the order of what it keeps: it distributes over concatenation. */
  lemma {:induction false} WithoutAppend(a: seq<string>, b: seq<string>, c: string)
    ensures Without(a + b, c) == Without(a, c) + Without(b, c)
  {
    if a == [] {
      assert a + b == b;
    } else {
      WithoutAppend(a[1..], b, c);
      WithoutAppendStep(a, b, c);
    }
  }

  /** The inductive step: peel the first element of `a` off both sides. */
  lemma WithoutAppendStep(a: seq<string>, b: seq<string>, c: string)
    requires a != [] && Without(a[1..] + b, c) == Without(a[1..], c) + Without(b, c)
    ensures Without(a + b, c) == Without(a, c) + Without(b, c)
  {
    var x, rest := a[0], a[1..];
    var h: seq<string> := if x == c then [] else [x];
    assert a == [x] + rest;
    assert a + b == [x] + (rest + b);
    WithoutCons(x, rest + b, c);
    WithoutCons(x, rest, c);
    assert h + (Without(rest, c) + Without(b, c)) == (h + Without(rest, c)) + Without(b, c);
  }

  lemma WithoutCons(x: string, t: seq<string>, c: string)
    ensures Without([x] + t, c) == (if x == c then [] else [x]) + Without(t, c)
  {
    assert ([x] + t)[0] == x && ([x] + t)[1..] == t;
  }

  /** `updateColorHistory(newColor)`: unchanged when `newColor` is already last;
      otherwise every copy is removed, `newColor` is appended, and the front is
      dropped when the list exceeds eight entries. */
  function Recent(hist: seq<string>, newColor: string): (r: seq<string>)
    ensures |r| > 0 && r[|r| - 1] == newColor
    ensures |hist| <= MaxColorHistory ==> |r| <= MaxColorHistory
    ensures NoDuplicates(hist) ==> NoDuplicates(r)
    ensures forall d :: d in r ==> d == newColor || d in hist
    ensures (hist == [] || hist[|hist| - 1] != newColor) ==> newColor !in r[..|r| - 1]
    ensures |hist| > 0 && hist[|hist| - 1] == newColor ==> r == hist
  {
    if |hist| > 0 && hist[|hist| - 1] == newColor then hist
    else
      var pushed := Without(hist, newColor) + [newColor];
      PushedFacts(hist, newColor);
      if |pushed| > MaxColorHistory then pushed[1..] else pushed
  }

  /** The filtered list with the new colour appended, and its tail. */
  lemma PushedFacts(hist: seq<string>, c: string)
    ensures var kept := Without(hist, c); var pushed := kept + [c];
      pushed[..|pushed| - 1] == kept && pushed[|pushed| - 1] == c &&
      (NoDuplicates(hist) ==> NoDuplicates(pushed) && NoDuplicates(pushed[1..])) &&
      (|pushed| > 1 ==> pushed[1..][..|pushed| - 2] == kept[1..] && pushed[1..][|pushed| - 2] == c) &&
      (forall d :: d in pushed[1..] ==> d in pushed) &&
      (|kept| > 0 ==> forall d :: d in kept[1..] ==> d in kept) &&
      (forall d :: d != c ==> (d in kept <==> d in hist)) &&
      (c in hist ==> |kept| < |hist|)
  {
    var kept := Without(hist, c);
    var pushed := kept + [c];
    WithoutFacts(hist, c);
    if NoDuplicates(hist) {
      assert NoDuplicates(pushed);
    }
  }

  /** A fresh pick keeps the survivors of the filter in their old order: all
      but the last entry are the newest entries of `Without(hist, c)`. */
  lemma RecentKeepsFilterOrder(hist: seq<string>, c: string)
    requires hist == [] || hist[|hist| - 1] != c
    ensures var r := Recent(hist, c); var kept := Without(hist, c);
      |r| - 1 <= |kept| && r[..|r| - 1] == kept[|kept| - (|r| - 1)..]
  {
    PushedFacts(hist, c);
  }

  /** Picking the same colour twice changes nothing the second time. */
  lemma RecentIdempotent(hist: seq<string>, c: string)
    ensures Recent(Recent(hist, c), c) == Recent(hist, c)
  {
  }

  /** Nothing is forgotten while the list has room: below eight entries, or when
      the colour was already present, every earlier colour survives. */
  lemma RecentKeepsWhileRoom(hist: seq<string>, c: string)
    requires |hist| < MaxColorHistory || (c in hist && |hist| <= MaxColorHistory)
    ensures forall d :: d in hist ==> d in Recent(hist, c)
  {
    if !(|hist| > 0 && hist[|hist| - 1] == c) {
      var kept := Without(hist, c);
      PushedFacts(hist, c);
      assert |kept + [c]| <= MaxColorHistory;
    }
  }

  /** A full list without the new colour evicts exactly its oldest entry. */
  lemma RecentEvictsOldest(hist: seq<string>, c: string)
    requires |hist| == MaxColorHistory && c !in hist
    ensures Recent(hist, c) == hist[1..] + [c]
  {
    assert hist[|hist| - 1] in hist;
    WithoutFacts(hist, c);
  }
}
