/**
  Gwen's base renderer (Gwen::Renderer::BaseRender): the render offset, the
  clip region and the draw colour, and the composite primitives that the
  base class builds from the single backend call DrawFilledRect.

  The backend is represented by `trace`: every DrawFilledRect call appends the
  rectangle it was given, together with the draw colour current at that
  moment. The render scale is fixed at its constructor value 1.0.
 */
module Renderer {
  import opened Geometry

  type Byte = x: int | 0 <= x < 256

  datatype Color = Color(r: Byte, g: Byte, b: Byte, a: Byte)

  /** Gwen::Colors::Red, the colour of a missing image. */
  const Red := Color(255, 0, 0, 255)

  /** The colour a default-constructed Gwen::Color holds. */
  const White := Color(255, 255, 255, 255)

  /** A texture handed to PixelColour; the base renderer never looks inside it. */
  type Texture = nat

  /** One DrawFilledRect call: the rectangle and the colour it was filled with. */
  datatype Fill = Fill(rect: Rect, color: Color)

  /** The fills that drawing rs one after another in colour c produces. */
  function Filled(rs: seq<Rect>, c: Color): (fs: seq<Fill>)
    ensures |fs| == |rs|
    ensures forall i :: 0 <= i < |rs| ==> fs[i] == Fill(rs[i], c)
  {
    seq(|rs|, i requires 0 <= i < |rs| => Fill(rs[i], c))
  }

  lemma FilledAppend(a: seq<Rect>, b: seq<Rect>, c: Color)
    ensures Filled(a + b, c) == Filled(a, c) + Filled(b, c)
  {
  }

  // ---------------------------------------------------------------------------
  // Pixels covered by a sequence of filled rectangles

  /** Some rectangle of rs covers the pixel (px, py). */
  ghost predicate Covered(rs: seq<Rect>, px: int, py: int) {
    exists i :: 0 <= i < |rs| && Contains(rs[i], px, py)
  }

  /** (px, py) is a pixel of r's one-pixel-wide outline. */
  predicate OnBorder(r: Rect, px: int, py: int) {
    Contains(r, px, py) &&
    (px == r.x || px == Right(r) - 1 || py == r.y || py == Bottom(r) - 1)
  }

  /** (px, py) is one of the four corner pixels of r. */
  predicate IsCorner(r: Rect, px: int, py: int) {
    (px == r.x || px == Right(r) - 1) && (py == r.y || py == Bottom(r) - 1)
  }

  /** (px, py) lies in a two-by-two block at one of r's corners. */
  predicate NearCorner(r: Rect, px: int, py: int) {
    (px - r.x < 2 || Right(r) - 1 - px < 2) && (py - r.y < 2 || Bottom(r) - 1 - py < 2)
  }

  /** (px, py) is one of the four pixels one step diagonally in from r's
      corners; they lie inside r only when w and h are at least 2. */
  predicate InnerCorner(r: Rect, px: int, py: int) {
    (px == r.x + 1 || px == Right(r) - 2) && (py == r.y + 1 || py == Bottom(r) - 2)
  }

  // ---------------------------------------------------------------------------
  // The rectangles each composite primitive hands to DrawFilledRect, in order

  /** DrawLinedRect: top, bottom, left and right strips, one pixel thick. */
  function LinedRect(r: Rect): seq<Rect> {
    [Rect(r.x, r.y, r.w, 1),
     Rect(r.x, r.y + r.h - 1, r.w, 1),
     Rect(r.x, r.y, 1, r.h),
     Rect(r.x + r.w - 1, r.y, 1, r.h)]
  }

  /** DrawShavedCornerRect, after shrinking w and h by one: with `slight`
      the four edges; otherwise four corner pixels followed by four shorter edges. */
  function ShavedCornerRect(r: Rect, slight: bool): seq<Rect> {
    var x, y, w, h := r.x, r.y, r.w - 1, r.h - 1;
    if slight then
      [Rect(x + 1, y, w - 1, 1),
       Rect(x + 1, y + h, w - 1, 1),
       Rect(x, y + 1, 1, h - 1),
       Rect(x + w, y + 1, 1, h - 1)]
    else
      [Rect(x + 1, y + 1, 1, 1),
       Rect(x + w - 1, y + 1, 1, 1),
       Rect(x + 1, y + h - 1, 1, 1),
       Rect(x + w - 1, y + h - 1, 1, 1),
       Rect(x + 2, y, w - 3, 1),
       Rect(x + 2, y + h, w - 3, 1),
       Rect(x, y + 2, 1, h - 3),
       Rect(x + w, y + 2, 1, h - 3)]
  }

  /** The glyphs the fallback text renderer outlines instead of filling. */
  predicate IsOutlinedGlyph(chr: char) {
    chr == 'o' || chr == 'O' || chr == '0'
  }

  /** The rectangles the fallback text renderer draws for character chr at
      index i; box gives the glyph's rectangle (its float geometry is not modelled). */
  function GlyphRects(i: nat, chr: char, box: (nat, char) -> Rect): seq<Rect> {
    if chr == ' ' then []
    else if IsOutlinedGlyph(chr) then LinedRect(box(i, chr))
    else [box(i, chr)]
  }

  /** The rectangles the fallback text renderer draws for a whole text. */
  function TextRects(text: string, box: (nat, char) -> Rect): seq<Rect>
    decreases |text|
  {
    if text == [] then []
    else TextRects(text[..|text| - 1], box) + GlyphRects(|text| - 1, text[|text| - 1], box)
  }

  /** The number of rectangles a character costs: none for a space, an
      outline of four for o, O and 0, one for anything else. */
  function GlyphFillCount(chr: char): nat {
    if chr == ' ' then 0 else if IsOutlinedGlyph(chr) then 4 else 1
  }

  function FillCount(text: string): nat {
    if text == [] then 0 else GlyphFillCount(text[0]) + FillCount(text[1..])
  }

  /** Drawing one more character appends that character's rectangles. */
  lemma TextRectsStep(text: string, i: nat, box: (nat, char) -> Rect)
    requires i < |text|
    ensures TextRects(text[..i + 1], box) == TextRects(text[..i], box) + GlyphRects(i, text[i], box)
  {
    assert text[..i + 1][..i] == text[..i];
  }

  /** The trace after one more character of the fallback text renderer. */
  lemma TextTraceStep(start: seq<Fill>, now: seq<Fill>, text: string, i: nat, box: (nat, char) -> Rect, c: Color)
    requires i < |text|
    requires now == start + Filled(TextRects(text[..i], box), c)
    ensures now + Filled(GlyphRects(i, text[i], box), c) == start + Filled(TextRects(text[..i + 1], box), c)
  {
    TextRectsStep(text, i, box);
    FilledAppend(TextRects(text[..i], box), GlyphRects(i, text[i], box), c);
  }

  // ---------------------------------------------------------------------------
  // What the composite primitives draw

  /** The lined rect of a non-empty rectangle paints exactly its outline. */
  lemma LinedRectIsOutline(r: Rect, px: int, py: int)
    requires r.w >= 1 && r.h >= 1
    ensures Covered(LinedRect(r), px, py) <==> OnBorder(r, px, py)
  {
    var rs := LinedRect(r);
    if OnBorder(r, px, py) {
      if py == r.y {
        assert Contains(rs[0], px, py);
      } else if py == Bottom(r) - 1 {
        assert Contains(rs[1], px, py);
      } else if px == r.x {
        assert Contains(rs[2], px, py);
      } else {
        assert Contains(rs[3], px, py);
      }
    }
  }

  /** Every strip of a lined rect lies inside the rectangle. */
  lemma LinedRectWithin(r: Rect)
    requires r.w >= 1 && r.h >= 1
    ensures forall i :: 0 <= i < |LinedRect(r)| ==> Within(LinedRect(r)[i], r)
  {
  }

  /** With `slight`, a shaved-corner rect paints the outline minus its four corner pixels. */
  lemma ShavedSlightIsOutlineWithoutCorners(r: Rect, px: int, py: int)
    requires r.w >= 1 && r.h >= 1
    ensures Covered(ShavedCornerRect(r, true), px, py) <==> OnBorder(r, px, py) && !IsCorner(r, px, py)
  {
    var rs := ShavedCornerRect(r, true);
    if OnBorder(r, px, py) && !IsCorner(r, px, py) {
      if py == r.y {
        assert Contains(rs[0], px, py);
      } else if py == Bottom(r) - 1 {
        assert Contains(rs[1], px, py);
      } else if px == r.x {
        assert Contains(rs[2], px, py);
      } else {
        assert Contains(rs[3], px, py);
      }
    }
  }

  /** Without `slight`, a shaved-corner rect paints the outline minus a
      two-by-two block at each corner, plus the four InnerCorner pixels. */
  lemma ShavedFullIsOutlineWithInnerCorners(r: Rect, px: int, py: int)
    requires r.w >= 1 && r.h >= 1
    ensures Covered(ShavedCornerRect(r, false), px, py) <==>
            (OnBorder(r, px, py) && !NearCorner(r, px, py)) || InnerCorner(r, px, py)
  {
    var rs := ShavedCornerRect(r, false);
    if InnerCorner(r, px, py) {
      if px == r.x + 1 && py == r.y + 1 {
        assert Contains(rs[0], px, py);
      } else if px == Right(r) - 2 && py == r.y + 1 {
        assert Contains(rs[1], px, py);
      } else if px == r.x + 1 {
        assert Contains(rs[2], px, py);
      } else {
        assert Contains(rs[3], px, py);
      }
    } else if OnBorder(r, px, py) && !NearCorner(r, px, py) {
      if py == r.y {
        assert Contains(rs[4], px, py);
      } else if py == Bottom(r) - 1 {
        assert Contains(rs[5], px, py);
      } else if px == r.x {
        assert Contains(rs[6], px, py);
      } else {
        assert Contains(rs[7], px, py);
      }
    }
  }

  /** With w and h at least 2, everything the full variant paints lies inside r. */
  lemma ShavedFullWithin(r: Rect, px: int, py: int)
    requires r.w >= 2 && r.h >= 2
    requires Covered(ShavedCornerRect(r, false), px, py)
    ensures Contains(r, px, py)
  {
    ShavedFullIsOutlineWithInnerCorners(r, px, py);
  }

  /** A one-pixel-wide rectangle shrinks to width 0, so the full variant's
      second corner pixel lands at (x - 1, y + 1), outside the rectangle. */
  lemma ShavedFullThinPaintsOutside(r: Rect)
    requires r.w == 1 && r.h >= 3
    ensures Covered(ShavedCornerRect(r, false), r.x - 1, r.y + 1)
    ensures !Contains(r, r.x - 1, r.y + 1)
  {
    assert Contains(ShavedCornerRect(r, false)[1], r.x - 1, r.y + 1);
  }

  /** Counting the fills of the fallback text renderer. */
  lemma {:induction false} FillCountAppend(text: string, chr: char)
    ensures FillCount(text + [chr]) == FillCount(text) + GlyphFillCount(chr)
    decreases |text|
  {
    if text != [] {
      assert (text + [chr])[1..] == text[1..] + [chr];
      FillCountAppend(text[1..], chr);
    }
  }

  /** The fallback text renderer draws nothing for a space, four rectangles
      for o, O and 0 and one for any other character, and nothing else. */
  lemma {:induction false} TextRectsCount(text: string, box: (nat, char) -> Rect)
    ensures |TextRects(text, box)| == FillCount(text)
    decreases |text|
  {
    if text != [] {
      var init := text[..|text| - 1];
      var last := text[|text| - 1];
      TextRectsCount(init, box);
      assert text == init + [last];
      FillCountAppend(init, last);
    }
  }

  /** A text without spaces and outlined glyphs gets exactly one rectangle per
      character, the glyph box of that character, in order. */
  lemma {:induction false} PlainTextOneRectPerChar(text: string, box: (nat, char) -> Rect)
    requires forall i :: 0 <= i < |text| ==> text[i] != ' ' && !IsOutlinedGlyph(text[i])
    ensures TextRects(text, box) == seq(|text|, i requires 0 <= i < |text| => box(i, text[i]))
    decreases |text|
  {
    if text != [] {
      PlainTextOneRectPerChar(text[..|text| - 1], box);
    }
  }

  /** Nothing at all is drawn for a text made of spaces. */
  lemma {:induction false} SpacesDrawNothing(text: string, box: (nat, char) -> Rect)
    requires forall i :: 0 <= i < |text| ==> text[i] == ' '
    ensures TextRects(text, box) == []
    decreases |text|
  {
    if text != [] {
      SpacesDrawNothing(text[..|text| - 1], box);
    }
  }

  // ---------------------------------------------------------------------------
  // Clipping

  /** The argument of AddClipRegion as it is used: its own position is replaced
      by the render offset; only its width and height are kept. */
  function Anchored(r: Rect, offset: Point): (a: Rect)
    ensures a.x == offset.x && a.y == offset.y && a.w == r.w && a.h == r.h
  {
    r.(x := offset.x, y := offset.y)
  }

  /** The clip region after AddClipRegion(r) with render offset `offset`. */
  function AddClip(clip: Rect, offset: Point, r: Rect): Rect {
    Intersect(Anchored(r, offset), clip)
  }

  /** AddClipRegion never enlarges the clip region: no edge moves outwards
      and neither side grows. */
  lemma AddClipNeverGrows(clip: Rect, offset: Point, r: Rect)
    ensures Within(AddClip(clip, offset, r), clip)
    ensures AddClip(clip, offset, r).w <= clip.w && AddClip(clip, offset, r).h <= clip.h
  {
  }

  /** The position of AddClipRegion's argument is ignored. */
  lemma AddClipIgnoresPosition(clip: Rect, offset: Point, r1: Rect, r2: Rect)
    requires r1.w == r2.w && r1.h == r2.h
    ensures AddClip(clip, offset, r1) == AddClip(clip, offset, r2)
  {
  }

  /** When the anchored rectangle already lies inside the clip, it becomes the clip. */
  lemma AddClipInsideIsExact(clip: Rect, offset: Point, r: Rect)
    requires Within(Anchored(r, offset), clip)
    ensures AddClip(clip, offset, r) == Anchored(r, offset)
  {
    IntersectWithin(Anchored(r, offset), clip);
  }

  /** The clip after a series of AddClipRegion calls, each made with the
      render offset current at that call. */
  function AddClips(clip: Rect, calls: seq<(Point, Rect)>): Rect
    decreases |calls|
  {
    if calls == [] then clip
    else AddClips(AddClip(clip, calls[0].0, calls[0].1), calls[1..])
  }

  /** However many AddClipRegion calls are made, whatever the render offset at
      each of them, the clip region only shrinks. */
  lemma {:induction false} AddClipsNeverGrow(clip: Rect, calls: seq<(Point, Rect)>)
    ensures Within(AddClips(clip, calls), clip)
    ensures AddClips(clip, calls).w <= clip.w && AddClips(clip, calls).h <= clip.h
    decreases |calls|
  {
    if calls != [] {
      var next := AddClip(clip, calls[0].0, calls[0].1);
      AddClipNeverGrows(clip, calls[0].0, calls[0].1);
      AddClipsNeverGrow(next, calls[1..]);
      WithinTransitive(AddClips(next, calls[1..]), next, clip);
    }
  }

  /** The base renderer never samples a texture: it answers the default colour. */
  function PixelColour(texture: Texture, x: nat, y: nat, colDefault: Color): (c: Color)
    ensures c == colDefault
  {
    colDefault
  }

  class BaseRender {
    var offset: Point
    var clip: Rect
    var color: Color
    /** Every DrawFilledRect call so far, in order. */
    var trace: seq<Fill>

    /** A fresh renderer: offset at the origin, default clip and colour, nothing drawn. */
    constructor ()
      ensures offset == Point(0, 0)
      ensures clip == Rect(0, 0, 0, 0) && color == White && trace == []
    {
      offset := Point(0, 0);
      clip := Rect(0, 0, 0, 0);
      color := White;
      trace := [];
    }

    /** The backend primitive: fill r in the current draw colour. */
    method DrawFilledRect(r: Rect)
      modifies this`trace
      ensures trace == old(trace) + [Fill(r, color)]
    {
      trace := trace + [Fill(r, color)];
    }

    method SetDrawColor(c: Color)
      modifies this`color
      ensures color == c
    {
      color := c;
    }

    method DrawLinedRect(r: Rect)
      modifies this`trace
      ensures trace == old(trace) + Filled(LinedRect(r), color)
    {
      DrawFilledRect(Rect(r.x, r.y, r.w, 1));
      DrawFilledRect(Rect(r.x, r.y + r.h - 1, r.w, 1));
      DrawFilledRect(Rect(r.x, r.y, 1, r.h));
      DrawFilledRect(Rect(r.x + r.w - 1, r.y, 1, r.h));
    }

    method DrawPixel(x: int, y: int)
      modifies this`trace
      ensures trace == old(trace) + [Fill(Rect(x, y, 1, 1), color)]
    {
      DrawFilledRect(Rect(x, y, 1, 1));
    }

    method DrawShavedCornerRect(rect: Rect, slight: bool)
      modifies this`trace
      ensures trace == old(trace) + Filled(ShavedCornerRect(rect, slight), color)
    {
      // Draw inside the width and height.
      var r := rect;
      r := r.(w := r.w - 1);
      r := r.(h := r.h - 1);

      if slight {
        DrawFilledRect(Rect(r.x + 1, r.y, r.w - 1, 1));
        DrawFilledRect(Rect(r.x + 1, r.y + r.h, r.w - 1, 1));
        DrawFilledRect(Rect(r.x, r.y + 1, 1, r.h - 1));
        DrawFilledRect(Rect(r.x + r.w, r.y + 1, 1, r.h - 1));
        return;
      }

      DrawPixel(r.x + 1, r.y + 1);
      DrawPixel(r.x + r.w - 1, r.y + 1);
      DrawPixel(r.x + 1, r.y + r.h - 1);
      DrawPixel(r.x + r.w - 1, r.y + r.h - 1);
      DrawFilledRect(Rect(r.x + 2, r.y, r.w - 3, 1));
      DrawFilledRect(Rect(r.x + 2, r.y + r.h, r.w - 3, 1));
      DrawFilledRect(Rect(r.x, r.y + 2, 1, r.h - 3));
      DrawFilledRect(Rect(r.x + r.w, r.y + 2, 1, r.h - 3));
    }

    /** Logical to device coordinates at scale 1: add the render offset. */
    method TranslatePoint(x: int, y: int) returns (tx: int, ty: int)
      ensures tx - x == offset.x && ty - y == offset.y
    {
      tx := x + offset.x;
      ty := y + offset.y;
    }

    /** A rectangle moves by the render offset and keeps its size. */
    method TranslateRect(r: Rect) returns (t: Rect)
      ensures t == Shift(r, offset)
    {
      var x, y := TranslatePoint(r.x, r.y);
      t := Rect(x, y, r.w, r.h);
    }

    method SetClipRegion(r: Rect)
      modifies this`clip
      ensures ClipRegion() == r
    {
      clip := r;
    }

    /** Intersects the clip with a rectangle of the argument's size placed at
        the render offset, one edge at a time. */
    method AddClipRegion(rect: Rect)
      modifies this`clip
      ensures clip == AddClip(old(clip), offset, rect)
    {
      var r := rect.(x := offset.x, y := offset.y);
      var out := r;

      if r.x < clip.x {
        out := out.(w := out.w - (clip.x - out.x));
        out := out.(x := clip.x);
      }

      if r.y < clip.y {
        out := out.(h := out.h - (clip.y - out.y));
        out := out.(y := clip.y);
      }

      if r.x + r.w > clip.x + clip.w {
        out := out.(w := (clip.x + clip.w) - out.x);
      }

      if r.y + r.h > clip.y + clip.h {
        out := out.(h := (clip.y + clip.h) - out.y);
      }

      clip := out;
    }

    /** The current clip region, as SetClipRegion and AddClipRegion leave it. */
    function ClipRegion(): (r: Rect)
      reads this
      ensures r == clip
    {
      clip
    }

    /** The clip region is visible exactly when it covers at least one pixel. */
    function ClipRegionVisible(): (visible: bool)
      reads this
      ensures visible <==> HasPixel(clip)
    {
      HasPixelIffPositive(clip);
      if clip.w <= 0 || clip.h <= 0 then false else true
    }

    method DrawMissingImage(target: Rect)
      modifies this`color, this`trace
      ensures color == Red
      ensures trace == old(trace) + [Fill(target, Red)]
    {
      SetDrawColor(Red);
      DrawFilledRect(target);
    }

    /** The fallback text renderer: one glyph per character, spaces skipped. */
    method RenderText(text: string, box: (nat, char) -> Rect)
      modifies this`trace
      ensures trace == old(trace) + Filled(TextRects(text, box), color)
    {
      for i := 0 to |text|
        invariant trace == old(trace) + Filled(TextRects(text[..i], box), color)
      {
        var chr := text[i];
        TextTraceStep(old(trace), trace, text, i, box, color);

        if chr == ' ' {
          continue;
        }

        var r := box(i, chr);

        if chr == 'o' || chr == 'O' || chr == '0' {
          DrawLinedRect(r);
        } else {
          DrawFilledRect(r);
        }
      }
      assert text[..|text|] == text;
    }
  }
}
