/** What a text console shows: text cells, glyphs and the pixels of a full render
    (kernel/src/framebuffer.rs). */
module Screens {
  import opened MachineInts

  /** The font of the console, with its padding, and the number of parts of a text line. */
  const GLYPH_WIDTH: nat := 13
  const GLYPH_HEIGHT: nat := 24
  const Y_PADDING: nat := 2
  const CELL_WIDTH: nat := 13
  const CELL_HEIGHT: nat := 28
  const PART_COUNT: nat := 32

  /** `convert_color(0)`. */
  const BACKGROUND: u32 := 0

  const SPACE: byte := 32

  // ---------------------------------------------------------------------------------------
  // Rows of cells and rows of pixels
  // ---------------------------------------------------------------------------------------

  /** Where column `x` of row `y` is stored. */
  function At(stride: nat, x: nat, y: nat): nat {
    stride * y + x
  }

  lemma AtInRange(stride: nat, rows: nat, x: nat, y: nat, n: nat)
    requires x + n <= stride && y < rows
    ensures At(stride, x, y) + n <= stride * rows
    ensures At(stride, x, y) + n <= At(stride, 0, y + 1) && At(stride, 0, y) <= At(stride, x, y)
  {
    assert stride * (y + 1) == stride * y + stride;
    assert stride * (y + 1) <= stride * rows;
  }

  lemma RowsApart(stride: nat, y: nat, z: nat)
    requires y < z
    ensures At(stride, 0, y) + stride <= At(stride, 0, z)
  {
    assert stride * (y + 1) <= stride * z;
  }

  /** Which cells of a line another cell is not. */
  lemma AtIsUnique(stride: nat, x: nat, y: nat, u: nat, v: nat)
    requires x < stride && u < stride && At(stride, x, y) == At(stride, u, v)
    ensures x == u && y == v
  {
    if y < v { RowsApart(stride, y, v); } else if v < y { RowsApart(stride, v, y); }
  }

  function Spliced(s: seq<u32>, i: nat, c: seq<u32>): (r: seq<u32>)
    requires i + |c| <= |s|
    ensures |r| == |s|
  {
    s[..i] + c + s[i + |c|..]
  }

  /** Writing within a row changes that part of the row and nothing else. */
  lemma SplicedAt(s: seq<u32>, stride: nat, rows: nat, x0: nat, y0: nat, c: seq<u32>, x: nat, y: nat)
    requires stride * rows <= |s| && x0 + |c| <= stride && y0 < rows && x < stride && y < rows
    ensures At(stride, x0, y0) + |c| <= |s| && At(stride, x, y) < |s|
    ensures Spliced(s, At(stride, x0, y0), c)[At(stride, x, y)] ==
            if y == y0 && x0 <= x < x0 + |c| then c[x - x0] else s[At(stride, x, y)]
  {
    AtInRange(stride, rows, x0, y0, |c|);
    AtInRange(stride, rows, x, y, 1);
    if y < y0 { RowsApart(stride, y, y0); } else if y0 < y { RowsApart(stride, y0, y); }
  }

  // ---------------------------------------------------------------------------------------
  // Colors, cells and glyphs
  // ---------------------------------------------------------------------------------------

  datatype ColorMode = RGB | BGR | Custom

  predicate IsColor(color: u32) { color < 0x100_0000 }

  /** `convert_color`. A reserved bit or an unknown format is a panic. */
  function ConvertColor(mode: ColorMode, color: u32): (r: Attempt<u32>)
    ensures r.Done? ==> IsColor(r.value) && (color == BACKGROUND <==> r.value == BACKGROUND)
    ensures !r.Refused? && (r.Panicked? <==> color >= 0x100_0000 || mode.Custom?)
  {
    if !IsColor(color) || mode.Custom? then Panicked
    else if mode.RGB? then Done(color)
    else Done(color / 0x1_0000 + (color / 0x100 % 0x100) * 0x100 + (color % 0x100) * 0x1_0000)
  }

  /** In RGB mode red is in the highest of the three bytes, as in the argument, and in BGR mode in the lowest. */
  lemma ConvertedChannels(color: u32)
    requires IsColor(color)
    ensures var rgb := ConvertColor(RGB, color).value;
      rgb / 0x1_0000 == color / 0x1_0000 && rgb / 0x100 % 0x100 == color / 0x100 % 0x100 && rgb % 0x100 == color % 0x100
    ensures var bgr := ConvertColor(BGR, color).value;
      bgr % 0x100 == color / 0x1_0000 && bgr / 0x100 % 0x100 == color / 0x100 % 0x100 && bgr / 0x1_0000 == color % 0x100
    ensures ConvertColor(BGR, ConvertColor(BGR, color).value) == Done(color)
  {
    var r, g, b := color / 0x1_0000, color / 0x100 % 0x100, color % 0x100;
    assert color == r * 0x1_0000 + g * 0x100 + b;
  }

  /** `encode_colored_character`: the color of an empty character is dropped. */
  function Encode(ch: byte, color: u32): u32
    requires IsColor(color)
  {
    (if ch == 0 || ch == SPACE then 0 else color) + ch * 0x100_0000
  }

  /** The code holds the character and its color. The two empty characters have no color. */
  lemma EncodeMeaning(ch: byte, color: u32)
    requires IsColor(color)
    ensures Encode(ch, color) / 0x100_0000 == ch
    ensures Encode(ch, color) % 0x100_0000 == if ch == 0 || ch == 0x20 then 0 else color
  {
  }

  function CharOf(code: u32): byte { code / 0x100_0000 }
  function ColorOf(code: u32): u32 { code % 0x100_0000 }

  /** The empty cell. */
  function Empty(): u32 { Encode(SPACE, BACKGROUND) }

  /** For every character the rows of its glyph, if it has one. */
  type Font = seq<Option<seq<seq<bool>>>>

  predicate GlyphOk(g: Option<seq<seq<bool>>>) {
    g.Some? ==> |g.value| == GLYPH_HEIGHT && forall i :: 0 <= i < GLYPH_HEIGHT ==> |g.value[i]| == GLYPH_WIDTH
  }

  predicate BlankGlyph(g: Option<seq<seq<bool>>>)
    requires GlyphOk(g)
  {
    g.Some? ==> forall i, j :: 0 <= i < GLYPH_HEIGHT && 0 <= j < GLYPH_WIDTH ==> !g.value[i][j]
  }

  /** Glyphs have the size of the font, and the empty characters are blank. */
  predicate FontOk(font: Font) {
    && (forall ch :: 0 <= ch < |font| ==> GlyphOk(font[ch]))
    && (0 < |font| ==> BlankGlyph(font[0])) && (SPACE < |font| ==> BlankGlyph(font[SPACE]))
  }

  /** The color at column `ox` and row `oy` of a cell. */
  function CellColor(font: Font, code: u32, ox: nat, oy: nat): u32
    requires FontOk(font) && ox < CELL_WIDTH && oy < CELL_HEIGHT
  {
    var ch := CharOf(code);
    if oy < Y_PADDING || oy >= Y_PADDING + GLYPH_HEIGHT || ch >= |font| || font[ch].None? then BACKGROUND
    else if font[ch].value[oy - Y_PADDING][ox] then ColorOf(code) else BACKGROUND
  }

  lemma EmptyCellIsBlank(font: Font, ox: nat, oy: nat)
    requires FontOk(font) && ox < CELL_WIDTH && oy < CELL_HEIGHT
    ensures CellColor(font, Empty(), ox, oy) == BACKGROUND
  {
  }

  /** What drawing a character with a color shows is what its code says. */
  lemma CodeShowsColor(font: Font, ch: byte, color: u32, ox: nat, oy: nat)
    requires FontOk(font) && ox < CELL_WIDTH && oy < CELL_HEIGHT && IsColor(color)
    ensures CellColor(font, Encode(ch, color), ox, oy) ==
      if Y_PADDING <= oy < Y_PADDING + GLYPH_HEIGHT && ch < |font| && font[ch].Some? && font[ch].value[oy - Y_PADDING][ox]
      then color else BACKGROUND
  {
    var code := Encode(ch, color);
    assert CharOf(code) == ch;
  }

  // ---------------------------------------------------------------------------------------
  // Full renders
  // ---------------------------------------------------------------------------------------

  /** The sizes of a console: `stride` pixels per scanline, `rows` lines of pixels, and `width` times
      `height` cells. */
  datatype Shape = Shape(stride: nat, rows: nat, width: nat, height: nat) {
    predicate Ok() {
      width > 1 && height > 1 && width * CELL_WIDTH <= stride && height * CELL_HEIGHT <= rows
    }

    /** The text and the pixels have these sizes. */
    predicate Fits(text: seq<u32>, pixels: seq<u32>) {
      Ok() && |text| == width * height && stride * rows <= |pixels|
    }

    function Cell(cx: nat, cy: nat): nat { At(width, cx, cy) }

    lemma CellInRange(cx: nat, cy: nat)
      requires cx < width && cy < height
      ensures Cell(cx, cy) < width * height
    {
      AtInRange(width, height, cx, cy, 1);
    }
  }

  function CellAt(sh: Shape, text: seq<u32>, cx: nat, cy: nat): u32
    requires cx < sh.width && cy < sh.height && |text| == sh.width * sh.height
  {
    sh.CellInRange(cx, cy);
    text[sh.Cell(cx, cy)]
  }

  function PixelAt(sh: Shape, pixels: seq<u32>, x: nat, y: nat): u32
    requires x < sh.stride && y < sh.rows && sh.stride * sh.rows <= |pixels|
  {
    AtInRange(sh.stride, sh.rows, x, y, 1);
    pixels[At(sh.stride, x, y)]
  }

  /** The pixel at `x` and `y` of a full render of the text. */
  function RenderAt(sh: Shape, font: Font, text: seq<u32>, x: nat, y: nat): u32
    requires FontOk(font) && |text| == sh.width * sh.height
  {
    if x / CELL_WIDTH < sh.width && y / CELL_HEIGHT < sh.height then
      CellColor(font, CellAt(sh, text, x / CELL_WIDTH, y / CELL_HEIGHT), x % CELL_WIDTH, y % CELL_HEIGHT)
    else BACKGROUND
  }

  /** The pixels are a full render of the text. */
  ghost predicate Painted(sh: Shape, font: Font, text: seq<u32>, pixels: seq<u32>)
    requires FontOk(font) && sh.Fits(text, pixels)
  {
    forall x: nat, y: nat :: x < sh.stride && y < sh.rows ==>
      PixelAt(sh, pixels, x, y) == RenderAt(sh, font, text, x, y)
  }

  ghost predicate AllAre(s: seq<u32>, v: u32) {
    forall i :: 0 <= i < |s| ==> s[i] == v
  }

  lemma CellOfUniform(sh: Shape, text: seq<u32>, v: u32, cx: nat, cy: nat)
    requires |text| == sh.width * sh.height && AllAre(text, v) && cx < sh.width && cy < sh.height
    ensures CellAt(sh, text, cx, cy) == v
  {
    hide At;
    sh.CellInRange(cx, cy);
  }

  lemma PixelOfUniform(sh: Shape, pixels: seq<u32>, v: u32, x: nat, y: nat)
    requires sh.stride * sh.rows <= |pixels| && AllAre(pixels, v) && x < sh.stride && y < sh.rows
    ensures PixelAt(sh, pixels, x, y) == v
  {
    hide At;
    AtInRange(sh.stride, sh.rows, x, y, 1);
  }

  /** An empty console. */
  lemma NothingIsPainted(sh: Shape, font: Font, text: seq<u32>, pixels: seq<u32>)
    requires FontOk(font) && sh.Fits(text, pixels) && AllAre(text, Empty()) && AllAre(pixels, BACKGROUND)
    ensures Painted(sh, font, text, pixels)
  {
    hide FontOk, At, AllAre, CellColor, CellAt, PixelAt;
    forall x: nat, y: nat | x < sh.stride && y < sh.rows
      ensures PixelAt(sh, pixels, x, y) == RenderAt(sh, font, text, x, y)
    {
      PixelOfUniform(sh, pixels, BACKGROUND, x, y);
      if x / CELL_WIDTH < sh.width && y / CELL_HEIGHT < sh.height {
        CellOfUniform(sh, text, Empty(), x / CELL_WIDTH, y / CELL_HEIGHT);
        EmptyCellIsBlank(font, x % CELL_WIDTH, y % CELL_HEIGHT);
      }
    }
  }

  /** The rows above `gy` show `after` and the others still show `before`. */
  ghost predicate Between(sh: Shape, font: Font, before: seq<u32>, after: seq<u32>, pixels: seq<u32>, gy: nat)
    requires FontOk(font) && sh.Fits(before, pixels) && sh.Fits(after, pixels)
  {
    forall x: nat, y: nat :: x < sh.stride && y < sh.rows ==>
      PixelAt(sh, pixels, x, y) == RenderAt(sh, font, if y < gy then after else before, x, y)
  }

  /** The texts differ at most in `n` cells from column `tx` of line `cy` on. */
  ghost predicate SameElsewhere(sh: Shape, before: seq<u32>, after: seq<u32>, tx: nat, cy: nat, n: nat)
    requires |before| == |after| == sh.width * sh.height
  {
    forall cx: nat, dy: nat :: cx < sh.width && dy < sh.height && !(dy == cy && tx <= cx < tx + n) ==>
      CellAt(sh, before, cx, dy) == CellAt(sh, after, cx, dy)
  }

  lemma LineStarts(sh: Shape, font: Font, before: seq<u32>, after: seq<u32>, pixels: seq<u32>, tx: nat, cy: nat, n: nat)
    requires FontOk(font) && sh.Fits(before, pixels) && |after| == |before| && SameElsewhere(sh, before, after, tx, cy, n)
    requires Painted(sh, font, before, pixels)
    ensures Between(sh, font, before, after, pixels, cy * CELL_HEIGHT)
  {
    hide CellColor;
  }

  lemma LineEnds(sh: Shape, font: Font, before: seq<u32>, after: seq<u32>, pixels: seq<u32>, tx: nat, cy: nat, n: nat)
    requires FontOk(font) && sh.Fits(before, pixels) && |after| == |before| && SameElsewhere(sh, before, after, tx, cy, n)
    requires Between(sh, font, before, after, pixels, (cy + 1) * CELL_HEIGHT)
    ensures Painted(sh, font, after, pixels)
  {
    hide CellColor;
  }

  /** The colors are those of a full render, from column `tx` of the cells on. */
  ghost predicate RowShows(sh: Shape, font: Font, text: seq<u32>, tx: nat, gy: nat, c: seq<u32>)
    requires FontOk(font) && |text| == sh.width * sh.height
  {
    forall i :: 0 <= i < |c| ==> c[i] == RenderAt(sh, font, text, tx * CELL_WIDTH + i, gy)
  }

  /** One more row of the changed cells is painted. */
  lemma RowPainted(sh: Shape, font: Font, before: seq<u32>, after: seq<u32>, pixels: seq<u32>,
                   tx: nat, cy: nat, n: nat, gy: nat, c: seq<u32>)
    requires FontOk(font) && sh.Fits(before, pixels) && |after| == |before| && SameElsewhere(sh, before, after, tx, cy, n)
    requires cy < sh.height && tx + n <= sh.width && cy * CELL_HEIGHT <= gy < (cy + 1) * CELL_HEIGHT
    requires Between(sh, font, before, after, pixels, gy)
    requires |c| == n * CELL_WIDTH && RowShows(sh, font, after, tx, gy, c)
    ensures At(sh.stride, tx * CELL_WIDTH, gy) + |c| <= |pixels|
    ensures Between(sh, font, before, after, Spliced(pixels, At(sh.stride, tx * CELL_WIDTH, gy), c), gy + 1)
  {
    hide CellColor, At, Spliced;
    SplicedAt(pixels, sh.stride, sh.rows, tx * CELL_WIDTH, gy, c, 0, 0);
    var painted := Spliced(pixels, At(sh.stride, tx * CELL_WIDTH, gy), c);
    forall x: nat, y: nat | x < sh.stride && y < sh.rows
      ensures PixelAt(sh, painted, x, y) == RenderAt(sh, font, if y < gy + 1 then after else before, x, y)
    {
      SplicedAt(pixels, sh.stride, sh.rows, tx * CELL_WIDTH, gy, c, x, y);
      assert PixelAt(sh, pixels, x, y) == RenderAt(sh, font, if y < gy then after else before, x, y);
    }
  }

  /** Overwriting cells of one line is local to them. */
  lemma SpliceIsLocal(sh: Shape, text: seq<u32>, tx: nat, cy: nat, c: seq<u32>)
    requires |text| == sh.width * sh.height && tx + |c| <= sh.width && cy < sh.height
    ensures sh.Cell(tx, cy) + |c| <= |text|
    ensures var after := Spliced(text, sh.Cell(tx, cy), c);
      && SameElsewhere(sh, text, after, tx, cy, |c|)
      && forall cx: nat :: tx <= cx < tx + |c| ==> CellAt(sh, after, cx, cy) == c[cx - tx]
  {
    AtInRange(sh.width, sh.height, tx, cy, |c|);
    hide At, Spliced;
    var after := Spliced(text, sh.Cell(tx, cy), c);
    forall cx: nat, dy: nat | cx < sh.width && dy < sh.height
      ensures CellAt(sh, after, cx, dy) == if dy == cy && tx <= cx < tx + |c| then c[cx - tx] else CellAt(sh, text, cx, dy)
    {
      SplicedAt(text, sh.width, sh.height, tx, cy, c, cx, dy);
    }
  }

  lemma SameColorBelow(sh: Shape, font: Font, before: seq<u32>, after: seq<u32>, x: nat, cy: nat, gy: nat)
    requires FontOk(font) && |before| == |after| == sh.width * sh.height
    requires cy + 1 < sh.height && cy * CELL_HEIGHT <= gy < (cy + 1) * CELL_HEIGHT && x / CELL_WIDTH < sh.width
    requires CellAt(sh, after, x / CELL_WIDTH, cy) == CellAt(sh, before, x / CELL_WIDTH, cy + 1)
    ensures RenderAt(sh, font, before, x, gy + CELL_HEIGHT) == RenderAt(sh, font, after, x, gy)
  {
    hide CellColor, CellAt;
    assert gy / CELL_HEIGHT == cy && (gy + CELL_HEIGHT) / CELL_HEIGHT == cy + 1;
    assert (gy + CELL_HEIGHT) % CELL_HEIGHT == gy % CELL_HEIGHT;
  }

  /** The pixels one line of text further down are what the rendered copy of that line shows. */
  lemma CopiedRowIsRender(sh: Shape, font: Font, before: seq<u32>, after: seq<u32>, pixels: seq<u32>,
                          tx: nat, cy: nat, n: nat, gy: nat)
    requires FontOk(font) && sh.Fits(before, pixels) && |after| == |before|
    requires cy + 1 < sh.height && tx + n <= sh.width && cy * CELL_HEIGHT <= gy < (cy + 1) * CELL_HEIGHT
    requires forall cx: nat :: tx <= cx < tx + n ==> CellAt(sh, after, cx, cy) == CellAt(sh, before, cx, cy + 1)
    requires Between(sh, font, before, after, pixels, gy)
    ensures var from := At(sh.stride, tx * CELL_WIDTH, gy + CELL_HEIGHT);
      && from + n * CELL_WIDTH <= |pixels| && At(sh.stride, tx * CELL_WIDTH, gy) + n * CELL_WIDTH <= from
      && RowShows(sh, font, after, tx, gy, pixels[from..from + n * CELL_WIDTH])
  {
    hide CellColor, CellAt, RenderAt, At;
    AtInRange(sh.stride, sh.rows, tx * CELL_WIDTH, gy + CELL_HEIGHT, n * CELL_WIDTH);
    AtInRange(sh.stride, sh.rows, tx * CELL_WIDTH, gy, n * CELL_WIDTH);
    RowsApart(sh.stride, gy + 1, gy + CELL_HEIGHT);
    var from := At(sh.stride, tx * CELL_WIDTH, gy + CELL_HEIGHT);
    var c := pixels[from..from + n * CELL_WIDTH];
    forall i | 0 <= i < |c| ensures c[i] == RenderAt(sh, font, after, tx * CELL_WIDTH + i, gy) {
      var x := tx * CELL_WIDTH + i;
      AtShifts(sh.stride, tx * CELL_WIDTH, i, gy + CELL_HEIGHT);
      assert PixelAt(sh, pixels, x, gy + CELL_HEIGHT) == RenderAt(sh, font, before, x, gy + CELL_HEIGHT);
      SameColorBelow(sh, font, before, after, x, cy, gy);
    }
  }

  lemma AtShifts(stride: nat, x: nat, i: nat, y: nat)
    ensures At(stride, x + i, y) == At(stride, x, y) + i
  {
  }

  /** Empty cells show the background. */
  lemma EmptyRowIsRender(sh: Shape, font: Font, after: seq<u32>, tx: nat, cy: nat, n: nat, gy: nat)
    requires FontOk(font) && |after| == sh.width * sh.height
    requires cy < sh.height && tx + n <= sh.width && cy * CELL_HEIGHT <= gy < (cy + 1) * CELL_HEIGHT
    requires forall cx: nat :: tx <= cx < tx + n ==> CellAt(sh, after, cx, cy) == Empty()
    ensures RowShows(sh, font, after, tx, gy, seq(n * CELL_WIDTH, i => BACKGROUND))
  {
    hide CellColor;
    var c := seq(n * CELL_WIDTH, i => BACKGROUND);
    forall i | 0 <= i < |c| ensures c[i] == RenderAt(sh, font, after, tx * CELL_WIDTH + i, gy) {
      var x := tx * CELL_WIDTH + i;
      assert gy / CELL_HEIGHT == cy;
      EmptyCellIsBlank(font, x % CELL_WIDTH, gy % CELL_HEIGHT);
    }
  }

  lemma NextLineIsAtWidth(width: nat, tx: nat, cy: nat)
    ensures At(width, tx, cy + 1) == At(width, tx, cy) + width
  {
    assert width * (cy + 1) == width * cy + width;
  }

  /** The cells of a part that was copied from the line below. */
  lemma CopiedCells(sh: Shape, before: seq<u32>, after: seq<u32>, tx: nat, cy: nat, n: nat)
    requires |before| == sh.width * sh.height && cy + 1 < sh.height && tx + n <= sh.width
    requires At(sh.width, tx, cy + 1) + n <= |before| && At(sh.width, tx, cy) + n <= |before|
    requires after == Spliced(before, At(sh.width, tx, cy), before[At(sh.width, tx, cy + 1)..At(sh.width, tx, cy + 1) + n])
    ensures forall cx: nat :: tx <= cx < tx + n ==> CellAt(sh, after, cx, cy) == CellAt(sh, before, cx, cy + 1)
  {
    hide Spliced, At;
    var c := before[At(sh.width, tx, cy + 1)..At(sh.width, tx, cy + 1) + n];
    SpliceIsLocal(sh, before, tx, cy, c);
    forall cx: nat | tx <= cx < tx + n ensures CellAt(sh, after, cx, cy) == CellAt(sh, before, cx, cy + 1) {
      AtShifts(sh.width, tx, cx - tx, cy + 1);
      SplicedAt(before, sh.width, sh.height, tx, cy, c, cx, cy);
    }
  }

  /** Writing what is already there. */
  lemma SplicedSame(s: seq<u32>, i: nat, c: seq<u32>)
    requires i + |c| <= |s| && s[i..i + |c|] == c
    ensures Spliced(s, i, c) == s
  {
  }

  // ---------------------------------------------------------------------------------------
  // The parts of a text line
  // ---------------------------------------------------------------------------------------

  /** `LineSplit` */
  datatype LineSplit = LineSplit(partSize: nat, lastAdd: nat) {
    function Start(part: nat): nat { part * partSize }

    function Size(part: nat): nat { (if part + 1 == PART_COUNT then lastAdd else 0) + partSize }
  }

  function Split(width: nat): LineSplit {
    LineSplit(width / PART_COUNT, width - PART_COUNT * (width / PART_COUNT))
  }

  /** The parts lie next to each other and make up the whole line, also when the line is shorter than
      the number of parts. */
  lemma PartsMakeUpLine(width: nat, part: nat)
    requires part < PART_COUNT
    ensures var split := Split(width);
      && split.Start(0) == 0
      && split.Start(part) + split.Size(part) == (if part + 1 == PART_COUNT then width else split.Start(part + 1))
      && split.Start(part) + split.Size(part) <= width
  {
    var k := width / PART_COUNT;
    assert (part + 1) * k == part * k + k;
    assert (part + 1) * k <= PART_COUNT * k;
  }

  // ---------------------------------------------------------------------------------------
  // Scrolling
  // ---------------------------------------------------------------------------------------

  /** The first `m` cells have moved up by one line. */
  function MovedUp(text: seq<u32>, width: nat, m: nat): (r: seq<u32>)
    requires m + width <= |text|
    ensures |r| == |text|
  {
    text[width..width + m] + text[m..]
  }

  lemma NothingMoved(width: nat, text: seq<u32>)
    requires width <= |text|
    ensures MovedUp(text, width, At(width, 0, 0)) == text
  {
  }

  lemma NothingCleared(text: seq<u32>, start: nat)
    requires start <= |text|
    ensures Cleared(text, start, 0) == text
  {
  }

  lemma MoreMovedUp(text: seq<u32>, width: nat, m: nat, n: nat)
    requires m + n + width <= |text| && n <= width
    ensures var now := MovedUp(text, width, m);
      Spliced(now, m, now[m + width..m + width + n]) == MovedUp(text, width, m + n)
  {
    var now := MovedUp(text, width, m);
    var c := now[m + width..m + width + n];
    assert c == text[m + width..m + width + n];
    assert now[m + n..] == text[m + n..] && now[..m] == text[width..width + m];
  }

  /** The first `m` cells of a line are empty. */
  function Cleared(text: seq<u32>, start: nat, m: nat): (r: seq<u32>)
    requires start + m <= |text|
    ensures |r| == |text|
  {
    Spliced(text, start, seq(m, i => Empty()))
  }

  lemma MoreCleared(text: seq<u32>, start: nat, m: nat, n: nat)
    requires start + m + n <= |text|
    ensures Spliced(Cleared(text, start, m), start + m, seq(n, i => Empty())) == Cleared(text, start, m + n)
  {
  }

  /** The text after scrolling: every line moves up by one and the last one is empty. */
  function ScrolledUp(sh: Shape, text: seq<u32>): seq<u32>
    requires |text| == sh.width * sh.height && sh.width <= |text|
  {
    text[sh.width..] + seq(sh.width, i => Empty())
  }

  lemma ScrollThenClear(sh: Shape, text: seq<u32>)
    requires sh.Ok() && |text| == sh.width * sh.height
    ensures sh.Cell(0, sh.height - 1) + sh.width == |text|
    ensures Cleared(MovedUp(text, sh.width, sh.Cell(0, sh.height - 1)), sh.Cell(0, sh.height - 1), sh.width) ==
            ScrolledUp(sh, text)
  {
    assert sh.Cell(0, sh.height - 1) + sh.width == |text| by {
      assert sh.width * (sh.height - 1) + sh.width == sh.width * sh.height;
    }
  }

  // ---------------------------------------------------------------------------------------
  // Drawing a character over a cell
  // ---------------------------------------------------------------------------------------

  /** The row of the cell is not all background. */
  ghost predicate RowInk(font: Font, code: u32, oy: nat)
    requires FontOk(font) && oy < CELL_HEIGHT
  {
    exists ox: nat :: ox < CELL_WIDTH && CellColor(font, code, ox, oy) != BACKGROUND
  }

  /** The pixel lies in one of the first `n` rows of the glyph of a cell. */
  predicate InGlyph(cx: nat, cy: nat, n: nat, x: nat, y: nat) {
    x / CELL_WIDTH == cx && y / CELL_HEIGHT == cy && y % CELL_HEIGHT < Y_PADDING + n
  }

  /** The rows of the glyph that have ink were drawn, up to row `n`, and nothing else. */
  ghost predicate Drawn(sh: Shape, font: Font, was: seq<u32>, pixels: seq<u32>, code: u32, cx: nat, cy: nat, n: nat)
    requires FontOk(font) && sh.stride * sh.rows <= |was| == |pixels|
  {
    forall x: nat, y: nat :: x < sh.stride && y < sh.rows ==>
      PixelAt(sh, pixels, x, y) ==
      if InGlyph(cx, cy, n, x, y) && RowInk(font, code, y % CELL_HEIGHT)
      then CellColor(font, code, x % CELL_WIDTH, y % CELL_HEIGHT) else PixelAt(sh, was, x, y)
  }

  lemma NothingDrawn(sh: Shape, font: Font, was: seq<u32>, code: u32, cx: nat, cy: nat)
    requires FontOk(font) && sh.stride * sh.rows <= |was|
    ensures Drawn(sh, font, was, was, code, cx, cy, 0)
  {
    hide PixelAt;
    forall oy: nat | oy < Y_PADDING ensures !RowInk(font, code, oy) { }
  }

  /** Without a glyph there is nothing to draw. */
  lemma NoGlyphNothingDrawn(sh: Shape, font: Font, was: seq<u32>, ch: byte, color: u32, cx: nat, cy: nat)
    requires FontOk(font) && sh.stride * sh.rows <= |was| && IsColor(color) && (ch >= |font| || font[ch].None?)
    ensures Drawn(sh, font, was, was, Encode(ch, color), cx, cy, GLYPH_HEIGHT)
  {
    hide PixelAt, FontOk;
    forall oy: nat | oy < CELL_HEIGHT ensures !RowInk(font, Encode(ch, color), oy) {
      assert CharOf(Encode(ch, color)) == ch;
    }
  }

  /** The check of the line buffer. */
  lemma LineInk(font: Font, code: u32, oy: nat, line: seq<u32>)
    requires FontOk(font) && oy < CELL_HEIGHT && |line| == GLYPH_WIDTH
    requires forall ox: nat :: ox < GLYPH_WIDTH ==> line[ox] == CellColor(font, code, ox, oy)
    ensures RowInk(font, code, oy) <==> line != seq(GLYPH_WIDTH, k => BACKGROUND)
  {
    hide CellColor;
    var blank := seq(GLYPH_WIDTH, k => BACKGROUND);
    if line != blank {
      var ox: nat :| ox < GLYPH_WIDTH && line[ox] != blank[ox];
      assert CellColor(font, code, ox, oy) != BACKGROUND;
    }
    if RowInk(font, code, oy) {
      var ox: nat :| ox < CELL_WIDTH && CellColor(font, code, ox, oy) != BACKGROUND;
      assert line[ox] != blank[ox];
    }
  }

  /** A row without ink is skipped. */
  lemma RowSkipped(sh: Shape, font: Font, was: seq<u32>, pixels: seq<u32>, code: u32, cx: nat, cy: nat, n: nat)
    requires FontOk(font) && sh.stride * sh.rows <= |was| == |pixels| && n < GLYPH_HEIGHT
    requires Drawn(sh, font, was, pixels, code, cx, cy, n) && !RowInk(font, code, Y_PADDING + n)
    ensures Drawn(sh, font, was, pixels, code, cx, cy, n + 1)
  {
    hide PixelAt, CellColor, RowInk;
  }

  /** A row with ink is drawn. */
  lemma RowDrawn(sh: Shape, font: Font, was: seq<u32>, pixels: seq<u32>, code: u32, cx: nat, cy: nat, n: nat, line: seq<u32>)
    requires FontOk(font) && sh.Ok() && sh.stride * sh.rows <= |was| == |pixels| && n < GLYPH_HEIGHT
    requires cx < sh.width && cy < sh.height
    requires Drawn(sh, font, was, pixels, code, cx, cy, n) && RowInk(font, code, Y_PADDING + n)
    requires |line| == GLYPH_WIDTH && forall ox: nat :: ox < GLYPH_WIDTH ==> line[ox] == CellColor(font, code, ox, Y_PADDING + n)
    ensures var gy := cy * CELL_HEIGHT + Y_PADDING + n;
      && At(sh.stride, cx * CELL_WIDTH, gy) + |line| <= |pixels|
      && Drawn(sh, font, was, Spliced(pixels, At(sh.stride, cx * CELL_WIDTH, gy), line), code, cx, cy, n + 1)
  {
    hide CellColor, RowInk, At, Spliced;
    var gy := cy * CELL_HEIGHT + Y_PADDING + n;
    SplicedAt(pixels, sh.stride, sh.rows, cx * CELL_WIDTH, gy, line, 0, 0);
    var drawn := Spliced(pixels, At(sh.stride, cx * CELL_WIDTH, gy), line);
    forall x: nat, y: nat | x < sh.stride && y < sh.rows
      ensures PixelAt(sh, drawn, x, y) ==
        if InGlyph(cx, cy, n + 1, x, y) && RowInk(font, code, y % CELL_HEIGHT)
        then CellColor(font, code, x % CELL_WIDTH, y % CELL_HEIGHT) else PixelAt(sh, was, x, y)
    {
      SplicedAt(pixels, sh.stride, sh.rows, cx * CELL_WIDTH, gy, line, x, y);
      var ox, oy := x % CELL_WIDTH, y % CELL_HEIGHT;
      assert PixelAt(sh, pixels, x, y) == if InGlyph(cx, cy, n, x, y) && RowInk(font, code, oy) then CellColor(font, code, ox, oy) else PixelAt(sh, was, x, y);
      assert (y == gy && cx * CELL_WIDTH <= x < cx * CELL_WIDTH + GLYPH_WIDTH) <==>
             (x / CELL_WIDTH == cx && y / CELL_HEIGHT == cy && oy == Y_PADDING + n);
      assert x / CELL_WIDTH == cx ==> x - cx * CELL_WIDTH == ox;
    }
  }

  /** Every row of the old character that the new one does not draw over is blank. */
  ghost predicate MayOverwrite(font: Font, old': u32, code: u32)
    requires FontOk(font)
  {
    forall oy: nat :: oy < CELL_HEIGHT && RowInk(font, old', oy) ==> RowInk(font, code, oy)
  }

  lemma EmptyCellsMayBeOverwritten(font: Font, code: u32)
    requires FontOk(font)
    ensures MayOverwrite(font, Empty(), code)
  {
    hide FontOk, CellColor;
    forall oy: nat | oy < CELL_HEIGHT ensures !RowInk(font, Empty(), oy) {
      forall ox: nat | ox < CELL_WIDTH ensures CellColor(font, Empty(), ox, oy) == BACKGROUND {
        EmptyCellIsBlank(font, ox, oy);
      }
    }
  }

  /** After a carriage return a blank does not erase a visible character. */
  lemma SpacesDoNotErase(font: Font, old': u32, color: u32, oy: nat)
    requires FontOk(font) && IsColor(color) && oy < CELL_HEIGHT && RowInk(font, old', oy)
    ensures !MayOverwrite(font, old', Encode(SPACE, color))
  {
    assert Encode(SPACE, color) == Empty();
    forall ox: nat | ox < CELL_WIDTH ensures CellColor(font, Empty(), ox, oy) == BACKGROUND {
      EmptyCellIsBlank(font, ox, oy);
    }
  }

  /** After a character was drawn over a cell, the pixels are a full render of the new text exactly if
      every row of the old character with ink has ink in the new one. */
  lemma DrawnIsPainted(sh: Shape, font: Font, text: seq<u32>, was: seq<u32>, pixels: seq<u32>, code: u32, cx: nat, cy: nat)
    requires FontOk(font) && sh.Fits(text, was) && |pixels| == |was| && cx < sh.width && cy < sh.height
    requires Painted(sh, font, text, was) && Drawn(sh, font, was, pixels, code, cx, cy, GLYPH_HEIGHT)
    ensures sh.Cell(cx, cy) < |text|
    ensures Painted(sh, font, text[sh.Cell(cx, cy) := code], pixels) <==> MayOverwrite(font, CellAt(sh, text, cx, cy), code)
  {
    sh.CellInRange(cx, cy);
    var after, old' := text[sh.Cell(cx, cy) := code], CellAt(sh, text, cx, cy);
    if MayOverwrite(font, old', code) {
      forall x: nat, y: nat | x < sh.stride && y < sh.rows
        ensures PixelAt(sh, pixels, x, y) == RenderAt(sh, font, after, x, y)
      {
        OverwrittenPixel(sh, font, text, was, pixels, code, cx, cy, x, y);
      }
    } else {
      var oy: nat :| oy < CELL_HEIGHT && RowInk(font, old', oy) && !RowInk(font, code, oy);
      var ox: nat :| ox < CELL_WIDTH && CellColor(font, old', ox, oy) != BACKGROUND;
      OldInkRemains(sh, font, text, was, pixels, code, cx, cy, ox, oy);
    }
  }

  lemma CellReplaced(sh: Shape, text: seq<u32>, code: u32, cx: nat, cy: nat, dx: nat, dy: nat)
    requires |text| == sh.width * sh.height && cx < sh.width && cy < sh.height && dx < sh.width && dy < sh.height
    ensures sh.Cell(cx, cy) < |text|
    ensures CellAt(sh, text[sh.Cell(cx, cy) := code], dx, dy) == if dx == cx && dy == cy then code else CellAt(sh, text, dx, dy)
  {
    hide At;
    sh.CellInRange(cx, cy);
    sh.CellInRange(dx, dy);
    if sh.Cell(cx, cy) == sh.Cell(dx, dy) { AtIsUnique(sh.width, cx, cy, dx, dy); }
  }

  lemma OverwrittenPixel(sh: Shape, font: Font, text: seq<u32>, was: seq<u32>, pixels: seq<u32>, code: u32,
                         cx: nat, cy: nat, x: nat, y: nat)
    requires FontOk(font) && sh.Fits(text, was) && |pixels| == |was| && cx < sh.width && cy < sh.height
    requires Painted(sh, font, text, was) && Drawn(sh, font, was, pixels, code, cx, cy, GLYPH_HEIGHT)
    requires MayOverwrite(font, CellAt(sh, text, cx, cy), code) && x < sh.stride && y < sh.rows
    ensures sh.Cell(cx, cy) < |text|
    ensures PixelAt(sh, pixels, x, y) == RenderAt(sh, font, text[sh.Cell(cx, cy) := code], x, y)
  {
    hide PixelAt, CellAt, CellColor, FontOk, At, RowInk;
    CellReplaced(sh, text, code, cx, cy, cx, cy);
    assert PixelAt(sh, was, x, y) == RenderAt(sh, font, text, x, y);
    if x / CELL_WIDTH < sh.width && y / CELL_HEIGHT < sh.height {
      CellReplaced(sh, text, code, cx, cy, x / CELL_WIDTH, y / CELL_HEIGHT);
      NoInkNoColor(font, code, x % CELL_WIDTH, y % CELL_HEIGHT);
      NoInkNoColor(font, CellAt(sh, text, cx, cy), x % CELL_WIDTH, y % CELL_HEIGHT);
    }
  }

  lemma NoInkNoColor(font: Font, code: u32, ox: nat, oy: nat)
    requires FontOk(font) && ox < CELL_WIDTH && oy < CELL_HEIGHT
    ensures !RowInk(font, code, oy) ==> CellColor(font, code, ox, oy) == BACKGROUND
    ensures oy >= Y_PADDING + GLYPH_HEIGHT ==> !RowInk(font, code, oy)
  {
  }

  lemma OldInkRemains(sh: Shape, font: Font, text: seq<u32>, was: seq<u32>, pixels: seq<u32>, code: u32,
                      cx: nat, cy: nat, ox: nat, oy: nat)
    requires FontOk(font) && sh.Fits(text, was) && |pixels| == |was| && cx < sh.width && cy < sh.height
    requires Painted(sh, font, text, was) && Drawn(sh, font, was, pixels, code, cx, cy, GLYPH_HEIGHT)
    requires ox < CELL_WIDTH && oy < CELL_HEIGHT
    requires CellColor(font, CellAt(sh, text, cx, cy), ox, oy) != BACKGROUND && !RowInk(font, code, oy)
    ensures sh.Cell(cx, cy) < |text|
    ensures !Painted(sh, font, text[sh.Cell(cx, cy) := code], pixels)
  {
    hide CellAt, CellColor, FontOk, At, RowInk;
    var x, y := cx * CELL_WIDTH + ox, cy * CELL_HEIGHT + oy;
    CellReplaced(sh, text, code, cx, cy, cx, cy);
    NoInkNoColor(font, code, ox, oy);
    assert x / CELL_WIDTH == cx && x % CELL_WIDTH == ox && y / CELL_HEIGHT == cy && y % CELL_HEIGHT == oy;
    assert PixelAt(sh, was, x, y) == RenderAt(sh, font, text, x, y);
    assert PixelAt(sh, pixels, x, y) == PixelAt(sh, was, x, y);
  }

  // ---------------------------------------------------------------------------------------
  // The text that a run of characters leaves
  // ---------------------------------------------------------------------------------------

  /** The text and the cursor. */
  datatype Page = Page(text: seq<u32>, x: nat, y: nat)

  predicate PageOk(sh: Shape, p: Page) {
    sh.Ok() && |p.text| == sh.width * sh.height && p.x < sh.width && p.y < sh.height
  }

  function NextLine(sh: Shape, p: Page): (q: Page)
    requires PageOk(sh, p.(x := 0))
    ensures PageOk(sh, q)
  {
    if p.y + 1 < sh.height then Page(p.text, 0, p.y + 1)
    else
      ScrollThenClear(sh, p.text);
      Page(ScrolledUp(sh, p.text), 0, sh.height - 1)
  }

  function ToByte(ch: char): byte { if ch as int < 128 then ch as int else '?' as int }

  /** ASCII characters are shown as they are, and question marks stand for all others. */
  lemma ToByteMeaning(ch: char)
    ensures ch as int <= 0x7f ==> ToByte(ch) == ch as int
    ensures ch as int > 0x7f ==> ToByte(ch) == 0x3f
  {
  }

  function Put(sh: Shape, p: Page, ch: char, foreground: u32): (q: Page)
    requires PageOk(sh, p) && IsColor(foreground)
    ensures PageOk(sh, q)
  {
    if ch == '\r' then p.(x := 0)
    else if ch == '\n' then NextLine(sh, p)
    else
      sh.CellInRange(p.x, p.y);
      var q := Page(p.text[sh.Cell(p.x, p.y) := Encode(ToByte(ch), foreground)], p.x + 1, p.y);
      if q.x >= sh.width then NextLine(sh, q) else q
  }

  function PutAll(sh: Shape, p: Page, s: string, foreground: u32): (q: Page)
    requires PageOk(sh, p) && IsColor(foreground)
    ensures PageOk(sh, q)
  {
    if s == [] then p else Put(sh, PutAll(sh, p, s[..|s| - 1], foreground), s[|s| - 1], foreground)
  }

  /** All cells from the cursor on are empty. */
  ghost predicate EmptyAhead(sh: Shape, p: Page)
    requires PageOk(sh, p)
  {
    forall i :: sh.Cell(p.x, p.y) <= i < |p.text| ==> p.text[i] == Empty()
  }

  lemma NextLineKeepsEmptyAhead(sh: Shape, p: Page, done: nat)
    requires PageOk(sh, p.(x := 0)) && forall i :: done <= i < |p.text| ==> p.text[i] == Empty()
    requires done <= sh.Cell(0, p.y) + sh.width
    ensures EmptyAhead(sh, NextLine(sh, p))
  {
    if p.y + 1 < sh.height {
      NextLineIsAtWidth(sh.width, 0, p.y);
    } else {
      ScrollThenClear(sh, p.text);
      var q := NextLine(sh, p);
      assert forall i :: |p.text| - sh.width <= i < |p.text| ==> q.text[i] == Empty();
    }
  }

  /** Without carriage returns the console only ever writes to empty cells. */
  lemma PutKeepsEmptyAhead(sh: Shape, p: Page, ch: char, foreground: u32)
    requires PageOk(sh, p) && IsColor(foreground) && EmptyAhead(sh, p) && ch != '\r'
    ensures EmptyAhead(sh, Put(sh, p, ch, foreground))
    ensures CellAt(sh, p.text, p.x, p.y) == Empty()
  {
    sh.CellInRange(p.x, p.y);
    AtShifts(sh.width, 0, p.x, p.y);
    if ch == '\n' {
      NextLineKeepsEmptyAhead(sh, p, sh.Cell(p.x, p.y));
    } else {
      var q := Page(p.text[sh.Cell(p.x, p.y) := Encode(ToByte(ch), foreground)], p.x + 1, p.y);
      AtShifts(sh.width, p.x, 1, p.y);
      if q.x >= sh.width { NextLineKeepsEmptyAhead(sh, q, sh.Cell(p.x, p.y) + 1); }
    }
  }

  /** A cleared console. */
  function BlankPage(sh: Shape): (p: Page)
    requires sh.Ok()
    ensures PageOk(sh, p) && EmptyAhead(sh, p)
  {
    Page(seq(sh.width * sh.height, i => Empty()), 0, 0)
  }

  // ---------------------------------------------------------------------------------------
  // What a run of calls prints
  // ---------------------------------------------------------------------------------------

  datatype Output = Write(text: string) | Color(color: u32)

  predicate Plain(op: Output) { op.Write? ==> '\r' !in op.text }

  predicate Accepted(mode: ColorMode, op: Output) { op.Color? ==> ConvertColor(mode, op.color).Done? }

  /** The page and the color of the next character. */
  datatype Pen = Pen(page: Page, color: u32)

  function Printed(sh: Shape, mode: ColorMode, pen: Pen, outputs: seq<Output>): (r: Pen)
    requires PageOk(sh, pen.page) && IsColor(pen.color) && forall op <- outputs :: Accepted(mode, op)
    ensures PageOk(sh, r.page) && IsColor(r.color)
  {
    if outputs == [] then pen
    else
      var before, op := Printed(sh, mode, pen, outputs[..|outputs| - 1]), outputs[|outputs| - 1];
      assert Accepted(mode, op);
      match op
      case Write(text) => before.(page := PutAll(sh, before.page, text, before.color))
      case Color(color) => before.(color := ConvertColor(mode, color).value)
  }

  /** Text in lines, without a screen: the finished lines and the one that grows. */
  datatype Layout = Layout(lines: seq<seq<u32>>, last: seq<u32>, color: u32) {
    function Type(width: nat, ch: char): Layout
      requires IsColor(color)
    {
      if ch == '\n' then Layout(lines + [last], [], color)
      else
        var longer := last + [Encode(ToByte(ch), color)];
        if |longer| == width then Layout(lines + [longer], [], color) else Layout(lines, longer, color)
    }

    function TypeAll(width: nat, s: string): (r: Layout)
      requires IsColor(color)
      ensures r.color == color
    {
      if s == [] then this else TypeAll(width, s[..|s| - 1]).Type(width, s[|s| - 1])
    }

    function Print(width: nat, mode: ColorMode, outputs: seq<Output>): (r: Layout)
      requires IsColor(color) && forall op <- outputs :: Accepted(mode, op)
      ensures IsColor(r.color)
    {
      if outputs == [] then this
      else
        var before, op := Print(width, mode, outputs[..|outputs| - 1]), outputs[|outputs| - 1];
        assert Accepted(mode, op);
        match op
        case Write(text) => before.TypeAll(width, text)
        case Color(color) => before.(color := ConvertColor(mode, color).value)
    }

    function CellOf(n: nat, cx: nat): u32 {
      var line := if n < |lines| then lines[n] else if n == |lines| then last else [];
      if cx < |line| then line[cx] else Empty()
    }

    /** The first line on a screen that shows the last lines. */
    function First(height: nat): nat {
      if |lines| < height then 0 else |lines| + 1 - height
    }
  }

  /** The screen shows the last lines of the text, and the cursor is on the line that grows. */
  ghost predicate ShowsEnd(sh: Shape, text: seq<u32>, y: nat, l: Layout)
    requires |text| == sh.width * sh.height
  {
    && l.First(sh.height) + y == |l.lines|
    && forall cx: nat, cy: nat :: cx < sh.width && cy < sh.height ==>
         CellAt(sh, text, cx, cy) == l.CellOf(l.First(sh.height) + cy, cx)
  }

  lemma BlankShowsEnd(sh: Shape, color: u32)
    requires sh.Ok()
    ensures ShowsEnd(sh, BlankPage(sh).text, 0, Layout([], [], color))
  {
    hide At;
    forall cx: nat, cy: nat | cx < sh.width && cy < sh.height
      ensures CellAt(sh, BlankPage(sh).text, cx, cy) == Empty()
    {
      sh.CellInRange(cx, cy);
    }
  }

  lemma ScrolledCell(sh: Shape, text: seq<u32>, cx: nat, cy: nat)
    requires sh.Ok() && |text| == sh.width * sh.height && cx < sh.width && cy < sh.height
    ensures CellAt(sh, ScrolledUp(sh, text), cx, cy) == if cy + 1 < sh.height then CellAt(sh, text, cx, cy + 1) else Empty()
  {
    ScrollThenClear(sh, text);
    sh.CellInRange(cx, cy);
    NextLineIsAtWidth(sh.width, cx, cy);
    if cy + 1 < sh.height {
      sh.CellInRange(cx, cy + 1);
    } else {
      AtShifts(sh.width, 0, cx, cy);
    }
  }

  lemma NextLineShowsEnd(sh: Shape, p: Page, l: Layout)
    requires PageOk(sh, p.(x := 0)) && ShowsEnd(sh, p.text, p.y, l)
    ensures ShowsEnd(sh, NextLine(sh, p).text, NextLine(sh, p).y, Layout(l.lines + [l.last], [], l.color))
  {
    hide At, CellAt, ScrolledUp;
    var q, next := NextLine(sh, p), Layout(l.lines + [l.last], [], l.color);
    forall cx: nat, cy: nat | cx < sh.width && cy < sh.height
      ensures CellAt(sh, q.text, cx, cy) == next.CellOf(next.First(sh.height) + cy, cx)
    {
      ScrolledCell(sh, p.text, cx, cy);
    }
  }

  /** A character on the screen is a character in the text. */
  lemma PutShowsEnd(sh: Shape, p: Page, ch: char, l: Layout)
    requires PageOk(sh, p) && IsColor(l.color) && ch != '\r'
    requires ShowsEnd(sh, p.text, p.y, l) && p.x == |l.last|
    ensures var q, next := Put(sh, p, ch, l.color), l.Type(sh.width, ch);
      ShowsEnd(sh, q.text, q.y, next) && q.x == |next.last|
  {
    hide At, CellAt, ScrolledUp, Encode;
    if ch == '\n' {
      NextLineShowsEnd(sh, p, l);
    } else {
      sh.CellInRange(p.x, p.y);
      var code := Encode(ToByte(ch), l.color);
      var q := Page(p.text[sh.Cell(p.x, p.y) := code], p.x + 1, p.y);
      var longer := Layout(l.lines, l.last + [code], l.color);
      forall cx: nat, cy: nat | cx < sh.width && cy < sh.height
        ensures CellAt(sh, q.text, cx, cy) == longer.CellOf(longer.First(sh.height) + cy, cx)
      {
        CellReplaced(sh, p.text, code, p.x, p.y, cx, cy);
      }
      if q.x >= sh.width { NextLineShowsEnd(sh, q, longer); }
    }
  }

  lemma {:induction false} PutAllShowsEnd(sh: Shape, p: Page, s: string, l: Layout)
    requires PageOk(sh, p) && IsColor(l.color) && '\r' !in s
    requires ShowsEnd(sh, p.text, p.y, l) && p.x == |l.last|
    ensures var q, next := PutAll(sh, p, s, l.color), l.TypeAll(sh.width, s);
      ShowsEnd(sh, q.text, q.y, next) && q.x == |next.last|
  {
    hide ShowsEnd, Put;
    if s != [] {
      var k := |s| - 1;
      PutAllShowsEnd(sh, p, s[..k], l);
      PutShowsEnd(sh, PutAll(sh, p, s[..k], l.color), s[k], l.TypeAll(sh.width, s[..k]));
    }
  }

  lemma SameLinesShowEnd(sh: Shape, text: seq<u32>, y: nat, l: Layout, color: u32)
    requires |text| == sh.width * sh.height && ShowsEnd(sh, text, y, l)
    ensures ShowsEnd(sh, text, y, l.(color := color))
  {
    hide CellAt;
    var same := l.(color := color);
    forall cx: nat, cy: nat | cx < sh.width && cy < sh.height
      ensures CellAt(sh, text, cx, cy) == same.CellOf(same.First(sh.height) + cy, cx) { }
  }

  /** Whatever is printed on a cleared console, the screen shows the last lines of it. */
  lemma {:induction false} PrintedShowsEnd(sh: Shape, mode: ColorMode, color: u32, outputs: seq<Output>)
    requires sh.Ok() && IsColor(color) && forall op <- outputs :: Accepted(mode, op) && Plain(op)
    ensures var pen, l := Printed(sh, mode, Pen(BlankPage(sh), color), outputs), Layout([], [], color).Print(sh.width, mode, outputs);
      ShowsEnd(sh, pen.page.text, pen.page.y, l) && pen.page.x == |l.last| && pen.color == l.color
  {
    hide ShowsEnd, PutAll, ConvertColor;
    if outputs == [] {
      BlankShowsEnd(sh, color);
    } else {
      var k := |outputs| - 1;
      PrintedShowsEnd(sh, mode, color, outputs[..k]);
      var pen := Printed(sh, mode, Pen(BlankPage(sh), color), outputs[..k]);
      var l := Layout([], [], color).Print(sh.width, mode, outputs[..k]);
      var op := outputs[k];
      assert Plain(op) && Accepted(mode, op);
      match op
      case Write(text) =>
        PutAllShowsEnd(sh, pen.page, text, l);
      case Color(c) =>
        assert Printed(sh, mode, Pen(BlankPage(sh), color), outputs) == pen.(color := ConvertColor(mode, c).value);
        SameLinesShowEnd(sh, pen.page.text, pen.page.y, l, ConvertColor(mode, c).value);
    }
  }
}
