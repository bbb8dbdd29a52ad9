/** The text console on a framebuffer (kernel/src/framebuffer.rs): a shadow buffer in memory, the
    same pixels in video memory, and updates that skip what did not change. */
module TextConsoles {
  import opened MachineInts
  import opened Screens

  // ---------------------------------------------------------------------------------------
  // Pixels
  // ---------------------------------------------------------------------------------------

  class Framebuffer {
    const width: nat
    const height: nat
    const pixelsPerScanline: nat
    const colorMode: ColorMode

    const mmio: array<u32>
    const buffer: array<u32>

    /** The sizes fit the memory, and video memory shows what the buffer holds. */
    ghost predicate Valid()
      reads mmio, buffer
    {
      && mmio != buffer && mmio.Length == buffer.Length
      && 8 <= pixelsPerScanline && width <= pixelsPerScanline && pixelsPerScanline * height <= buffer.Length
      && mmio[..] == buffer[..]
    }

    /** `Framebuffer::new`: video memory holds anything, the buffer is zero. */
    constructor (width: nat, height: nat, pixelsPerScanline: nat, colorMode: ColorMode, mmio: array<u32>)
      requires 8 <= pixelsPerScanline && width <= pixelsPerScanline && pixelsPerScanline * height <= mmio.Length
      ensures this.width == width && this.height == height && this.pixelsPerScanline == pixelsPerScanline
      ensures this.colorMode == colorMode && this.mmio == mmio
      ensures fresh(buffer) && buffer.Length == mmio.Length
    {
      this.width, this.height, this.pixelsPerScanline := width, height, pixelsPerScanline;
      this.colorMode, this.mmio := colorMode, mmio;
      buffer := new u32[mmio.Length](i => 0);
    }

    /** `clear` */
    method Clear(color: u32)
      requires mmio != buffer && mmio.Length == buffer.Length
      modifies mmio, buffer
      ensures mmio[..] == buffer[..] == seq(buffer.Length, i => color)
    {
      for k := 0 to buffer.Length
        invariant forall j :: 0 <= j < k ==> mmio[j] == buffer[j] == color
      {
        mmio[k] := color;
        buffer[k] := color;
      }
    }

    /** `dual_copy_32` within the buffer, to a place in front of the source. */
    method DualCopy(from: nat, to: nat, size: nat)
      requires Valid() && to + size <= from && from + size <= buffer.Length
      modifies mmio, buffer
      ensures Valid() && buffer[..] == Spliced(old(buffer[..]), to, old(buffer[from..from + size]))
    {
      ghost var was, source := buffer[..], buffer[from..from + size];
      for k := 0 to size
        invariant forall j :: 0 <= j < buffer.Length ==> mmio[j] == buffer[j]
        invariant buffer[..to] == was[..to] && buffer[to..to + k] == source[..k] && buffer[to + k..] == was[to + k..]
      {
        assert buffer[from + k] == buffer[to + k..][from - to] == was[to + k..][from - to] == source[k];
        mmio[to + k] := buffer[from + k];
        buffer[to + k] := buffer[from + k];
      }
    }

    /** `dual_set_32` */
    method DualSet(at: nat, color: u32, size: nat)
      requires Valid() && at + size <= buffer.Length
      modifies mmio, buffer
      ensures Valid() && buffer[..] == Spliced(old(buffer[..]), at, seq(size, i => color))
    {
      for k := 0 to size
        invariant mmio[..] == buffer[..]
        invariant forall j :: 0 <= j < buffer.Length ==>
                    buffer[j] == if at <= j < at + k then color else old(buffer[j])
      {
        mmio[at + k] := color;
        buffer[at + k] := color;
      }
    }

    /** `set_pixels_in_line` */
    method SetPixelsInLine(x: nat, y: nat, colors: array<u32>) returns (r: Attempt<()>)
      requires Valid() && colors != mmio && colors != buffer
      modifies mmio, buffer
      ensures !r.Refused? && (r.Panicked? <==> x + colors.Length > width || y >= height)
      ensures r.Done? ==>
        && Valid() && At(pixelsPerScanline, x, y) + colors.Length <= buffer.Length
        && buffer[..] == Spliced(old(buffer[..]), At(pixelsPerScanline, x, y), colors[..])
    {
      if x + colors.Length > width || y >= height { return Panicked; }
      var index := At(pixelsPerScanline, x, y);
      AtInRange(pixelsPerScanline, height, x, y, colors.Length);
      for k := 0 to colors.Length
        invariant mmio[..] == buffer[..]
        invariant forall j :: 0 <= j < buffer.Length ==>
                    buffer[j] == if index <= j < index + k then colors[j - index] else old(buffer[j])
      {
        mmio[index + k] := colors[k];
        buffer[index + k] := colors[k];
      }
      return Done(());
    }
  }

  /** `compare_32` */
  method Compare(a: array<u32>, i: nat, j: nat, size: nat) returns (equal: bool)
    requires i + size <= a.Length && j + size <= a.Length
    ensures equal <==> a[i..i + size] == a[j..j + size]
  {
    for k := 0 to size
      invariant a[i..i + k] == a[j..j + k]
    {
      if a[i + k] != a[j + k] {
        assert a[i..i + size][k] != a[j..j + size][k];
        return false;
      }
    }
    return true;
  }

  /** `compare_single_32` */
  method CompareSingle(a: array<u32>, i: nat, value: u32, size: nat) returns (equal: bool)
    requires i + size <= a.Length
    ensures equal <==> a[i..i + size] == seq(size, k => value)
  {
    for k := 0 to size
      invariant a[i..i + k] == seq(k, j => value)
    {
      if a[i + k] != value {
        assert a[i..i + size][k] != value;
        return false;
      }
    }
    return true;
  }

  // ---------------------------------------------------------------------------------------
  // Text
  // ---------------------------------------------------------------------------------------

  class TextFramebuffer {
    const framebuffer: Framebuffer
    const font: Font
    const width: nat
    const height: nat
    const defaultForeground: u32

    const lineBuffer: array<u32>
    const text: array<u32>

    var x: nat
    var y: nat
    var foreground: u32

    ghost function Sizes(): Shape {
      Shape(framebuffer.pixelsPerScanline, framebuffer.height, width, height)
    }

    ghost predicate Ready()
      reads framebuffer.mmio, framebuffer.buffer
    {
      && framebuffer.Valid() && FontOk(font)
      && width == framebuffer.width / CELL_WIDTH > 1 && height == framebuffer.height / CELL_HEIGHT > 1
      && text.Length == width * height && lineBuffer.Length == GLYPH_WIDTH
      && text != lineBuffer
      && framebuffer.mmio !in {text, lineBuffer} && framebuffer.buffer !in {text, lineBuffer}
    }

    ghost predicate Valid()
      reads this, framebuffer.mmio, framebuffer.buffer
    {
      && Ready() && x < width && y < height && IsColor(foreground)
      && ConvertColor(framebuffer.colorMode, 0xff_ffff) == Done(defaultForeground)
    }

    /** The pixel buffer, and with it video memory, is a full render of the text. */
    ghost predicate Shows()
      requires Ready()
      reads framebuffer.mmio, framebuffer.buffer, text
    {
      Painted(Sizes(), font, text[..], framebuffer.buffer[..])
    }

    /** `TextFramebuffer::new`: everything is cleared. The color format must be known, and at least two
        columns and two lines must fit. */
    constructor (framebuffer: Framebuffer, font: Font)
      requires framebuffer.mmio != framebuffer.buffer && framebuffer.mmio.Length == framebuffer.buffer.Length
      requires 8 <= framebuffer.pixelsPerScanline && framebuffer.width <= framebuffer.pixelsPerScanline
      requires framebuffer.pixelsPerScanline * framebuffer.height <= framebuffer.buffer.Length
      requires FontOk(font) && !framebuffer.colorMode.Custom?
      requires framebuffer.width / CELL_WIDTH > 1 && framebuffer.height / CELL_HEIGHT > 1
      modifies framebuffer.mmio, framebuffer.buffer
      ensures this.framebuffer == framebuffer && this.font == font
      ensures fresh(text) && fresh(lineBuffer)
      ensures Valid() && Shows() && PageNow() == BlankPage(Sizes()) && foreground == defaultForeground
    {
      this.framebuffer, this.font := framebuffer, font;
      width, height := framebuffer.width / CELL_WIDTH, framebuffer.height / CELL_HEIGHT;
      defaultForeground := ConvertColor(framebuffer.colorMode, 0xff_ffff).Extract();
      foreground := ConvertColor(framebuffer.colorMode, 0xff_ffff).Extract();
      x, y := 0, 0;
      lineBuffer := new u32[GLYPH_WIDTH](i => 0);
      text := new u32[(framebuffer.width / CELL_WIDTH) * (framebuffer.height / CELL_HEIGHT)](i => Empty());
      new;
      framebuffer.Clear(BACKGROUND);
      NothingIsPainted(Sizes(), font, text[..], framebuffer.buffer[..]);
    }

    /** A part of the line below replaces the same part of line `cy`: the body of the loop of `scroll`. */
    method MovePartUp(cy: nat, tx: nat, n: nat)
      requires Ready() && Shows() && cy + 1 < height && tx + n <= width
      modifies framebuffer.mmio, framebuffer.buffer, text
      ensures Ready() && Shows()
      ensures At(width, tx, cy) + n + width <= text.Length
      ensures text[..] == Spliced(old(text[..]), At(width, tx, cy), old(text[At(width, tx, cy) + width..At(width, tx, cy) + width + n]))
    {
      hide Painted, Between, SameElsewhere, RowShows, Spliced, At, FontOk;
      ghost var sh, before := Sizes(), text[..];
      AtInRange(width, height, tx, cy + 1, n);
      NextLineIsAtWidth(width, tx, cy);
      var from, to := At(width, tx, cy + 1), At(width, tx, cy);
      var equal := Compare(text, from, to, n);
      if equal {
        SplicedSame(before, to, before[from..from + n]);
        return;
      }
      CopyText(from, to, n);
      ghost var after := text[..];
      SpliceIsLocal(sh, before, tx, cy, before[from..from + n]);
      LineStarts(sh, font, before, after, framebuffer.buffer[..], tx, cy, n);
      CopiedCells(sh, before, after, tx, cy, n);
      for gy := cy * CELL_HEIGHT to (cy + 1) * CELL_HEIGHT
        invariant framebuffer.Valid() && text[..] == after
        invariant Between(sh, font, before, after, framebuffer.buffer[..], gy)
        modifies framebuffer.mmio, framebuffer.buffer
      {
        CopyPixels(sh, before, after, tx, cy, n, gy);
      }
      LineEnds(sh, font, before, after, framebuffer.buffer[..], tx, cy, n);
    }

    method CopyText(from: nat, to: nat, n: nat)
      requires from + n <= text.Length && to + n <= from
      modifies text
      ensures text[..] == Spliced(old(text[..]), to, old(text[from..from + n]))
    {
      ghost var was, source := text[..], text[from..from + n];
      for k := 0 to n
        invariant text[..to] == was[..to] && text[to..to + k] == source[..k] && text[to + k..] == was[to + k..]
      {
        assert text[from + k] == text[to + k..][from - to] == was[to + k..][from - to] == source[k];
        text[to + k] := text[from + k];
      }
    }

    /** One row of pixels of the part. */
    method CopyPixels(ghost sh: Shape, ghost before: seq<u32>, ghost after: seq<u32>, tx: nat, cy: nat, n: nat, gy: nat)
      requires framebuffer.Valid() && FontOk(font)
      requires sh.Fits(before, framebuffer.buffer[..]) && |after| == |before|
      requires sh.stride == framebuffer.pixelsPerScanline
      requires cy + 1 < sh.height && tx + n <= sh.width && cy * CELL_HEIGHT <= gy < (cy + 1) * CELL_HEIGHT
      requires SameElsewhere(sh, before, after, tx, cy, n)
      requires forall cx: nat :: tx <= cx < tx + n ==> CellAt(sh, after, cx, cy) == CellAt(sh, before, cx, cy + 1)
      requires Between(sh, font, before, after, framebuffer.buffer[..], gy)
      modifies framebuffer.mmio, framebuffer.buffer
      ensures framebuffer.Valid() && Between(sh, font, before, after, framebuffer.buffer[..], gy + 1)
    {
      hide Between, SameElsewhere, RowShows, Spliced, At, CellAt, FontOk;
      ghost var pixels := framebuffer.buffer[..];
      CopiedRowIsRender(sh, font, before, after, pixels, tx, cy, n, gy);
      var from := At(framebuffer.pixelsPerScanline, tx * CELL_WIDTH, gy + CELL_HEIGHT);
      var to := At(framebuffer.pixelsPerScanline, tx * CELL_WIDTH, gy);
      var size := n * CELL_WIDTH;
      RowPainted(sh, font, before, after, pixels, tx, cy, n, gy, pixels[from..from + size]);
      var equal := Compare(framebuffer.buffer, from, to, size);
      if equal {
        SplicedSame(pixels, to, pixels[from..from + size]);
      } else {
        framebuffer.DualCopy(from, to, size);
      }
    }

    /** The body of the loop of `clear_line`. */
    method ClearPart(cy: nat, tx: nat, n: nat)
      requires Ready() && Shows() && cy < height && tx + n <= width
      modifies framebuffer.mmio, framebuffer.buffer, text
      ensures Ready() && Shows() && At(width, tx, cy) + n <= text.Length
      ensures text[..] == Spliced(old(text[..]), At(width, tx, cy), seq(n, i => Empty()))
    {
      hide Painted, Between, SameElsewhere, RowShows, Spliced, At, FontOk;
      ghost var sh, before := Sizes(), text[..];
      AtInRange(width, height, tx, cy, n);
      var at := At(width, tx, cy);
      var equal := CompareSingle(text, at, Empty(), n);
      if equal {
        SplicedSame(before, at, seq(n, i => Empty()));
        return;
      }
      SetText(at, Empty(), n);
      ghost var after := text[..];
      SpliceIsLocal(sh, before, tx, cy, seq(n, i => Empty()));
      LineStarts(sh, font, before, after, framebuffer.buffer[..], tx, cy, n);
      for gy := cy * CELL_HEIGHT to (cy + 1) * CELL_HEIGHT
        invariant framebuffer.Valid() && text[..] == after
        invariant Between(sh, font, before, after, framebuffer.buffer[..], gy)
        modifies framebuffer.mmio, framebuffer.buffer
      {
        ClearPixels(sh, before, after, tx, cy, n, gy);
      }
      LineEnds(sh, font, before, after, framebuffer.buffer[..], tx, cy, n);
    }

    method SetText(at: nat, code: u32, n: nat)
      requires at + n <= text.Length
      modifies text
      ensures text[..] == Spliced(old(text[..]), at, seq(n, i => code))
    {
      for k := 0 to n
        invariant forall j :: 0 <= j < text.Length ==> text[j] == if at <= j < at + k then code else old(text[j])
      {
        text[at + k] := code;
      }
    }

    method ClearPixels(ghost sh: Shape, ghost before: seq<u32>, ghost after: seq<u32>, tx: nat, cy: nat, n: nat, gy: nat)
      requires framebuffer.Valid() && FontOk(font)
      requires sh.Fits(before, framebuffer.buffer[..]) && |after| == |before|
      requires sh.stride == framebuffer.pixelsPerScanline
      requires cy < sh.height && tx + n <= sh.width && cy * CELL_HEIGHT <= gy < (cy + 1) * CELL_HEIGHT
      requires SameElsewhere(sh, before, after, tx, cy, n)
      requires forall cx: nat :: tx <= cx < tx + n ==> CellAt(sh, after, cx, cy) == Empty()
      requires Between(sh, font, before, after, framebuffer.buffer[..], gy)
      modifies framebuffer.mmio, framebuffer.buffer
      ensures framebuffer.Valid() && Between(sh, font, before, after, framebuffer.buffer[..], gy + 1)
    {
      hide Between, SameElsewhere, RowShows, Spliced, At, CellAt, FontOk;
      ghost var pixels := framebuffer.buffer[..];
      var at, size := At(framebuffer.pixelsPerScanline, tx * CELL_WIDTH, gy), n * CELL_WIDTH;
      EmptyRowIsRender(sh, font, after, tx, cy, n, gy);
      RowPainted(sh, font, before, after, pixels, tx, cy, n, gy, seq(size, i => BACKGROUND));
      var equal := CompareSingle(framebuffer.buffer, at, BACKGROUND, size);
      if equal {
        SplicedSame(pixels, at, seq(size, i => BACKGROUND));
      } else {
        framebuffer.DualSet(at, BACKGROUND, size);
      }
    }

    /** Moves line `cy + 1` to line `cy`, part by part. */
    method MoveLineUp(cy: nat, ghost was: seq<u32>)
      requires Ready() && Shows() && cy + 1 < height
      requires |was| == text.Length && At(width, 0, cy + 1) + width <= |was| && text[..] == MovedUp(was, width, At(width, 0, cy))
      modifies framebuffer.mmio, framebuffer.buffer, text
      ensures Ready() && Shows() && text[..] == MovedUp(was, width, At(width, 0, cy + 1))
    {
      hide Painted, Spliced, At, FontOk, MovedUp;
      var split := Split(width);
      ghost var start, done := At(width, 0, cy), 0;
      NextLineIsAtWidth(width, 0, cy);
      for part := 0 to PART_COUNT
        invariant Ready() && Shows()
        invariant done == if part == PART_COUNT then width else split.Start(part)
        invariant done <= width && text[..] == MovedUp(was, width, start + done)
      {
        PartsMakeUpLine(width, part);
        AtShifts(width, 0, split.Start(part), cy);
        MovePartUp(cy, split.Start(part), split.Size(part));
        MoreMovedUp(was, width, start + done, split.Size(part));
        done := done + split.Size(part);
      }
    }

    /** `scroll` */
    method Scroll()
      requires Ready() && Shows()
      modifies framebuffer.mmio, framebuffer.buffer, text
      ensures Ready() && Shows() && At(width, 0, height - 1) + width == text.Length
      ensures text[..] == MovedUp(old(text[..]), width, At(width, 0, height - 1))
    {
      hide Painted, At, FontOk, MovedUp;
      ghost var was := text[..];
      ScrollThenClear(Sizes(), was);
      AtInRange(width, height, 0, 0, width);
      NothingMoved(width, was);
      for cy := 0 to height - 1
        invariant Ready() && Shows()
        invariant At(width, 0, cy) + width <= |was| && text[..] == MovedUp(was, width, At(width, 0, cy))
      {
        AtInRange(width, height, 0, cy + 1, width);
        MoveLineUp(cy, was);
      }
    }

    /** `clear_line` */
    method ClearLine(cy: nat)
      requires Ready() && Shows() && cy < height
      modifies framebuffer.mmio, framebuffer.buffer, text
      ensures Ready() && Shows() && At(width, 0, cy) + width <= text.Length
      ensures text[..] == Cleared(old(text[..]), At(width, 0, cy), width)
    {
      hide Painted, At, FontOk, Spliced, Cleared;
      var split := Split(width);
      ghost var was, start, done := text[..], At(width, 0, cy), 0;
      AtInRange(width, height, 0, cy, width);
      NothingCleared(was, start);
      for part := 0 to PART_COUNT
        invariant Ready() && Shows()
        invariant done == if part == PART_COUNT then width else split.Start(part)
        invariant done <= width && text[..] == Cleared(was, start, done)
      {
        PartsMakeUpLine(width, part);
        AtShifts(width, 0, split.Start(part), cy);
        ClearPart(cy, split.Start(part), split.Size(part));
        MoreCleared(was, start, done, split.Size(part));
        done := done + split.Size(part);
      }
    }

    ghost function PageNow(): Page
      reads this, text
    {
      Page(text[..], x, y)
    }

    /** `newline`. The cursor may be behind the last column. */
    method NewLine()
      requires Ready() && Shows() && y < height && IsColor(foreground)
      requires ConvertColor(framebuffer.colorMode, 0xff_ffff) == Done(defaultForeground)
      modifies this, framebuffer.mmio, framebuffer.buffer, text
      ensures Valid() && Shows() && PageNow() == NextLine(Sizes(), old(PageNow()).(x := 0))
      ensures foreground == old(foreground)
    {
      hide Painted, At, FontOk;
      ghost var was := text[..];
      x := 0;
      y := y + 1;
      if y >= height {
        Scroll();
        ClearLine(height - 1);
        ScrollThenClear(Sizes(), was);
        y := height - 1;
      }
    }

    /** `Font::draw` at the cursor, in the current color. */
    method DrawGlyph(ch: byte)
      requires Valid()
      modifies framebuffer.mmio, framebuffer.buffer, lineBuffer
      ensures Valid()
      ensures Drawn(Sizes(), font, old(framebuffer.buffer[..]), framebuffer.buffer[..], Encode(ch, foreground), x, y, GLYPH_HEIGHT)
    {
      hide At, Spliced, Drawn, CellColor, FontOk, RowInk;
      ghost var sh, was, code := Sizes(), framebuffer.buffer[..], Encode(ch, foreground);
      NothingDrawn(sh, font, was, code, x, y);
      if ch >= |font| || font[ch].None? {
        NoGlyphNothingDrawn(sh, font, was, ch, foreground, x, y);
        return;
      }
      for oy := 0 to GLYPH_HEIGHT
        invariant Valid() && foreground == old(foreground)
        invariant Drawn(sh, font, was, framebuffer.buffer[..], code, x, y, oy)
      {
        DrawRow(ch, oy, was);
      }
    }

    /** The colors of one row of the glyph. */
    method FillLine(ch: byte, oy: nat)
      requires Ready() && IsColor(foreground) && ch < |font| && font[ch].Some? && oy < GLYPH_HEIGHT
      modifies lineBuffer
      ensures forall j: nat :: j < GLYPH_WIDTH ==> lineBuffer[j] == CellColor(font, Encode(ch, foreground), j, Y_PADDING + oy)
    {
      hide CellColor;
      for ox := 0 to GLYPH_WIDTH
        invariant forall j: nat :: j < ox ==> lineBuffer[j] == CellColor(font, Encode(ch, foreground), j, Y_PADDING + oy)
      {
        CodeShowsColor(font, ch, foreground, ox, Y_PADDING + oy);
        lineBuffer[ox] := if font[ch].value[oy][ox] then foreground else BACKGROUND;
      }
    }

    /** One row of the glyph, unless it is all background. */
    method DrawRow(ch: byte, oy: nat, ghost was: seq<u32>)
      requires Valid() && ch < |font| && font[ch].Some? && oy < GLYPH_HEIGHT && |was| == framebuffer.buffer.Length
      requires Drawn(Sizes(), font, was, framebuffer.buffer[..], Encode(ch, foreground), x, y, oy)
      modifies framebuffer.mmio, framebuffer.buffer, lineBuffer
      ensures Valid()
      ensures Drawn(Sizes(), font, was, framebuffer.buffer[..], Encode(ch, foreground), x, y, oy + 1)
    {
      hide At, Spliced, Drawn, CellColor, RowInk;
      ghost var sh, code := Sizes(), Encode(ch, foreground);
      ghost var pixels := framebuffer.buffer[..];
      FillLine(ch, oy);
      assert framebuffer.buffer[..] == pixels;
      var blank := CompareSingle(lineBuffer, 0, BACKGROUND, GLYPH_WIDTH);
      ghost var line := lineBuffer[..];
      assert lineBuffer[0..GLYPH_WIDTH] == line;
      LineInk(font, code, Y_PADDING + oy, line);
      if blank {
        RowSkipped(sh, font, was, pixels, code, x, y, oy);
      } else {
        RowDrawn(sh, font, was, pixels, code, x, y, oy, line);
        var r := framebuffer.SetPixelsInLine(x * CELL_WIDTH, y * CELL_HEIGHT + Y_PADDING + oy, lineBuffer);
        assert r.Done? && framebuffer.buffer[..] == Spliced(pixels, At(sh.stride, x * CELL_WIDTH, y * CELL_HEIGHT + Y_PADDING + oy), line);
      }
    }

    /** The character may be drawn over what the cell under the cursor shows: always, when that cell is
        empty. */
    ghost predicate MayPut(ch: char)
      requires Valid()
      reads this, framebuffer.mmio, framebuffer.buffer, text
    {
      ch == '\r' || ch == '\n'
      || MayOverwrite(font, CellAt(Sizes(), text[..], x, y), Encode(ToByte(ch), foreground))
    }

    /** `write_char` */
    method WriteChar(ch: char)
      requires Valid() && Shows() && MayPut(ch)
      modifies this, framebuffer.mmio, framebuffer.buffer, text, lineBuffer
      ensures Valid() && Shows() && PageNow() == Put(Sizes(), old(PageNow()), ch, foreground)
      ensures foreground == old(foreground)
    {
      hide Painted, Drawn, MayOverwrite, At, FontOk, CellAt;
      if ch == '\r' {
        x := 0;
        return;
      }
      if ch == '\n' {
        NewLine();
        return;
      }
      var code := Encode(ToByte(ch), foreground);
      ghost var sh, was, pixels := Sizes(), text[..], framebuffer.buffer[..];
      sh.CellInRange(x, y);
      text[At(width, x, y)] := code;
      assert text[..] == was[sh.Cell(x, y) := code];
      DrawGlyph(ToByte(ch));
      DrawnIsPainted(sh, font, was, pixels, framebuffer.buffer[..], code, x, y);
      x := x + 1;
      if x >= width {
        NewLine();
      }
    }

    /** `write_string` for text without carriage returns. */
    method WriteString(s: string)
      requires Valid() && Shows() && EmptyAhead(Sizes(), PageNow()) && '\r' !in s
      modifies this, framebuffer.mmio, framebuffer.buffer, text, lineBuffer
      ensures Valid() && Shows() && EmptyAhead(Sizes(), PageNow())
      ensures PageNow() == PutAll(Sizes(), old(PageNow()), s, foreground) && foreground == old(foreground)
    {
      hide Painted, EmptyAhead, At, FontOk, Put, MayOverwrite;
      for k := 0 to |s|
        invariant Valid() && Shows() && EmptyAhead(Sizes(), PageNow())
        invariant PageNow() == PutAll(Sizes(), old(PageNow()), s[..k], foreground) && foreground == old(foreground)
      {
        assert s[..k + 1][..k] == s[..k];
        PutKeepsEmptyAhead(Sizes(), PageNow(), s[k], foreground);
        EmptyCellsMayBeOverwritten(font, Encode(ToByte(s[k]), foreground));
        WriteChar(s[k]);
      }
      assert s[..|s|] == s;
    }

    /** `set_color`. A reserved bit is a panic. The default color was converted once for all. */
    method SetColor(color: u32) returns (r: Attempt<()>)
      requires Valid()
      modifies `foreground
      ensures Valid() && !r.Refused? && (r.Done? <==> IsColor(color))
      ensures if r.Done? then ConvertColor(framebuffer.colorMode, color) == Done(foreground) else foreground == old(foreground)
    {
      if color == 0xff_ffff {
        foreground := defaultForeground;
      } else {
        var c :- ConvertColor(framebuffer.colorMode, color);
        foreground := c;
      }
      return Done(());
    }

    ghost function PenNow(): Pen
      reads this, text
    {
      Pen(PageNow(), foreground)
    }

    /** Any calls of `write_string` and `set_color`, up to the first color that is none. */
    method Print(outputs: seq<Output>) returns (r: Attempt<()>, at: nat)
      requires Valid() && Shows() && EmptyAhead(Sizes(), PageNow()) && forall op <- outputs :: Plain(op)
      modifies this, framebuffer.mmio, framebuffer.buffer, text, lineBuffer
      ensures Valid() && Shows() && EmptyAhead(Sizes(), PageNow())
      ensures !r.Refused? && at <= |outputs| && (r.Done? <==> at == |outputs|)
      ensures r.Panicked? ==> at < |outputs| && !Accepted(framebuffer.colorMode, outputs[at])
      ensures (forall op <- outputs[..at] :: Accepted(framebuffer.colorMode, op))
        && PenNow() == Printed(Sizes(), framebuffer.colorMode, old(PenNow()), outputs[..at])
    {
      hide Painted, EmptyAhead, At, FontOk, PutAll;
      at := 0;
      while at < |outputs|
        invariant at <= |outputs| && Valid() && Shows() && EmptyAhead(Sizes(), PageNow())
        invariant forall op <- outputs[..at] :: Accepted(framebuffer.colorMode, op)
        invariant PenNow() == Printed(Sizes(), framebuffer.colorMode, old(PenNow()), outputs[..at])
      {
        assert outputs[..at + 1][..at] == outputs[..at] && outputs[..at + 1][at] == outputs[at];
        assert Plain(outputs[at]);
        match outputs[at] {
          case Write(s) => WriteString(s);
          case Color(color) =>
            r := SetColor(color);
            if r.Panicked? { return; }
        }
        at := at + 1;
      }
      return Done(()), at;
    }
  }

  /** A console from its creation on: `new`, and any calls of `write_string` and `set_color`. In the end the pixels
      show the last lines of everything that was printed. */
  method Live(framebuffer: Framebuffer, font: Font, outputs: seq<Output>) returns (console: TextFramebuffer, r: Attempt<()>, at: nat)
    requires framebuffer.mmio != framebuffer.buffer && framebuffer.mmio.Length == framebuffer.buffer.Length
    requires 8 <= framebuffer.pixelsPerScanline && framebuffer.width <= framebuffer.pixelsPerScanline
    requires framebuffer.pixelsPerScanline * framebuffer.height <= framebuffer.buffer.Length
    requires FontOk(font) && !framebuffer.colorMode.Custom?
    requires framebuffer.width / CELL_WIDTH > 1 && framebuffer.height / CELL_HEIGHT > 1
    requires forall op <- outputs :: Plain(op)
    modifies framebuffer.mmio, framebuffer.buffer
    ensures fresh(console) && console.framebuffer == framebuffer && console.font == font
    ensures console.Valid() && console.Shows()
    ensures !r.Refused? && at <= |outputs| && (r.Done? <==> at == |outputs|)
    ensures r.Panicked? ==> at < |outputs| && !Accepted(framebuffer.colorMode, outputs[at])
    ensures (forall op <- outputs[..at] :: Accepted(framebuffer.colorMode, op))
      && var text := Layout([], [], console.defaultForeground).Print(console.width, framebuffer.colorMode, outputs[..at]);
         && ShowsEnd(console.Sizes(), console.text[..], console.y, text)
         && console.x == |text.last| && console.foreground == text.color
  {
    hide Painted, EmptyAhead, FontOk, ShowsEnd, Printed, Layout.Print;
    console := new TextFramebuffer(framebuffer, font);
    r, at := console.Print(outputs);
    PrintedShowsEnd(console.Sizes(), framebuffer.colorMode, console.defaultForeground, outputs[..at]);
  }
}
