/** The score overlay: the score, clamped at zero, written in decimal with a
    3-column by 5-row block font, one screen-space cell per lit bit of each
    digit's glyph, digits laid out left to right from a fixed anchor. */
module Hud {

  /** Pixel size of one glyph cell. */
  const CellW: real := 6.0
  const CellH: real := 8.0
  /** Glyph grid: columns and rows. */
  const DigitCols: nat := 3
  const DigitRows: nat := 5
  /** Horizontal step from one digit to the next: the glyph width plus a 4 pixel gap. */
  const DigitSpacing: real := DigitCols as real * CellW + 4.0
  /** Centre of the top-left cell of the first digit. */
  const StartX: real := 20.0
  const StartY: real := 572.0

  /** A cell centre in overlay pixel coordinates (origin bottom-left). */
  datatype Point = Point(x: real, y: real)

  /** The block font: for each decimal digit, five rows of three bits, top row first. */
  const Glyphs: map<char, seq<string>> := map[
    '0' := ["111", "101", "101", "101", "111"],
    '1' := ["010", "110", "010", "010", "111"],
    '2' := ["111", "001", "111", "100", "111"],
    '3' := ["111", "001", "111", "001", "111"],
    '4' := ["101", "101", "111", "001", "001"],
    '5' := ["111", "100", "111", "001", "111"],
    '6' := ["111", "100", "111", "101", "111"],
    '7' := ["111", "001", "010", "010", "010"],
    '8' := ["111", "101", "111", "101", "111"],
    '9' := ["111", "101", "111", "001", "111"]
  ]

  predicate IsDigitChar(c: char) {
    '0' <= c <= '9'
  }

  /** A glyph is five rows of three characters, each '0' or '1'. */
  predicate WellFormed(glyph: seq<string>) {
    && |glyph| == DigitRows
    && forall r :: 0 <= r < |glyph| ==>
         |glyph[r]| == DigitCols && forall c :: 0 <= c < |glyph[r]| ==> (glyph[r][c] == '0' || glyph[r][c] == '1')
  }

  /** The font has exactly the ten decimal digits, and every glyph is well formed. */
  lemma GlyphTable()
    ensures forall c :: c in Glyphs <==> IsDigitChar(c)
    ensures forall c :: c in Glyphs ==> WellFormed(Glyphs[c])
  {
  }

  /** The glyph drawn for a character: its own, or the glyph of '0' for a
      character the font does not have. */
  function GlyphFor(ch: char): (glyph: seq<string>)
    ensures WellFormed(glyph)
  {
    GlyphTable();
    if ch in Glyphs then Glyphs[ch] else Glyphs['0']
  }

  // ---------------------------------------------------------------------------
  // Decimal formatting of the score

  function DigitChar(d: nat): (c: char)
    requires d < 10
    ensures IsDigitChar(c) && DigitValue(c) == d
  {
    ('0' as int + d) as char
  }

  function DigitValue(c: char): int {
    c as int - '0' as int
  }

  /** Reads a string of decimal digits back as a number (the reference for DecimalString). */
  function ParseDecimal(s: string): int
    decreases |s|
  {
    if s == [] then 0 else 10 * ParseDecimal(s[..|s| - 1]) + DigitValue(s[|s| - 1])
  }

  /** The score's decimal text: non-empty, digits only, no leading zero (the
      only text starting with '0' is "0" itself), and reading it back gives the
      score. */
  function DecimalString(n: nat): (s: string)
    ensures |s| >= 1
    ensures forall k :: 0 <= k < |s| ==> IsDigitChar(s[k])
    ensures s[0] == '0' <==> n == 0
    ensures s[0] == '0' ==> s == "0"
    ensures ParseDecimal(s) == n
    decreases n
  {
    if n < 10 then [DigitChar(n)]
    else
      var s := DecimalString(n / 10) + [DigitChar(n % 10)];
      assert s[..|s| - 1] == DecimalString(n / 10);
      s
  }

  /** The score the overlay shows: negative scores are shown as 0. */
  function Clamp(score: int): (n: nat)
    ensures score >= 0 ==> n == score
    ensures score < 0 ==> n == 0
  {
    if score < 0 then 0 else score
  }

  // ---------------------------------------------------------------------------
  // Cell layout

  /** The bit in row row, column col of a glyph is lit. */
  predicate Bit(glyph: seq<string>, row: int, col: int) {
    0 <= row < |glyph| && 0 <= col < |glyph[row]| && glyph[row][col] == '1'
  }

  /** Centre of the cell in column col, row row (top row 0) of the digit at index di. */
  function CellCentre(di: int, row: int, col: int): Point {
    Point(StartX + di as real * DigitSpacing + col as real * CellW, StartY - row as real * CellH)
  }

  /** The lit cells of one row, from column col to the right. */
  function ColumnCells(glyph: seq<string>, di: nat, row: nat, col: nat): seq<Point>
    requires col <= DigitCols
    decreases DigitCols - col
  {
    if col == DigitCols then []
    else (if Bit(glyph, row, col) then [CellCentre(di, row, col)] else [])
         + ColumnCells(glyph, di, row, col + 1)
  }

  /** The lit cells of one glyph, from row row downwards. */
  function RowCells(glyph: seq<string>, di: nat, row: nat): seq<Point>
    requires row <= DigitRows
    decreases DigitRows - row
  {
    if row == DigitRows then []
    else ColumnCells(glyph, di, row, 0) + RowCells(glyph, di, row + 1)
  }

  /** The glyph of each character of the text, in order. */
  function GlyphsOf(text: string): (glyphs: seq<seq<string>>)
    ensures |glyphs| == |text|
    ensures forall k :: 0 <= k < |text| ==> glyphs[k] == GlyphFor(text[k]) && WellFormed(glyphs[k])
  {
    seq(|text|, k requires 0 <= k < |text| => GlyphFor(text[k]))
  }

  predicate AllWellFormed(glyphs: seq<seq<string>>) {
    forall k :: 0 <= k < |glyphs| ==> WellFormed(glyphs[k])
  }

  /** The lit cells of a run of glyphs whose first one is the digit at index di. */
  function LayoutCells(glyphs: seq<seq<string>>, di: nat): seq<Point>
    decreases |glyphs|
  {
    if glyphs == [] then []
    else RowCells(glyphs[0], di, 0) + LayoutCells(glyphs[1..], di + 1)
  }

  /** The cell centres the overlay draws for a score, in drawing order: one
      cell per lit bit, summed over the glyphs of the digits of the clamped score
      (which cells they are is HudMembers). */
  function HudCells(score: int): (cells: seq<Point>)
    ensures |cells| == LitTotal(GlyphsOf(DecimalString(Clamp(score))))
  {
    var glyphs := GlyphsOf(DecimalString(Clamp(score)));
    LayoutCount(glyphs, 0);
    LayoutCells(glyphs, 0)
  }

  // ---------------------------------------------------------------------------
  // Counting lit bits (the reference for how many cells are drawn)

  function Ones(s: string): nat
    decreases |s|
  {
    if s == [] then 0 else (if s[0] == '1' then 1 else 0) + Ones(s[1..])
  }

  /** Lit bits of a glyph in rows row and below. */
  function LitFrom(glyph: seq<string>, row: nat): nat
    decreases |glyph| - row
  {
    if row >= |glyph| then 0 else Ones(glyph[row]) + LitFrom(glyph, row + 1)
  }

  /** Lit bits over a run of glyphs. */
  function LitTotal(glyphs: seq<seq<string>>): nat
    decreases |glyphs|
  {
    if glyphs == [] then 0 else LitFrom(glyphs[0], 0) + LitTotal(glyphs[1..])
  }

  lemma {:induction false} ColumnCount(glyph: seq<string>, di: nat, row: nat, col: nat)
    requires WellFormed(glyph) && row < DigitRows && col <= DigitCols
    ensures |ColumnCells(glyph, di, row, col)| == Ones(glyph[row][col..])
    decreases DigitCols - col
  {
    if col < DigitCols {
      ColumnCount(glyph, di, row, col + 1);
      assert glyph[row][col..][1..] == glyph[row][col + 1..];
    }
  }

  lemma {:induction false} RowCount(glyph: seq<string>, di: nat, row: nat)
    requires WellFormed(glyph) && row <= DigitRows
    ensures |RowCells(glyph, di, row)| == LitFrom(glyph, row)
    decreases DigitRows - row
  {
    if row < DigitRows {
      ColumnCount(glyph, di, row, 0);
      assert glyph[row][0..] == glyph[row];
      RowCount(glyph, di, row + 1);
    }
  }

  lemma {:induction false} LayoutCount(glyphs: seq<seq<string>>, di: nat)
    requires AllWellFormed(glyphs)
    ensures |LayoutCells(glyphs, di)| == LitTotal(glyphs)
    decreases |glyphs|
  {
    if glyphs != [] {
      RowCount(glyphs[0], di, 0);
      LayoutCount(glyphs[1..], di + 1);
    }
  }

  // ---------------------------------------------------------------------------
  // Which cells are drawn (the reference: a lit bit at a digit, row and column)

  /** In a layout whose first glyph sits at digit position di, the glyph at
      position d has its bit in row row, column col lit. */
  predicate LitIn(glyphs: seq<seq<string>>, di: int, d: int, row: int, col: int) {
    di <= d < di + |glyphs| && 0 <= row < DigitRows && 0 <= col < DigitCols && Bit(glyphs[d - di], row, col)
  }

  lemma {:induction false} ColumnMembers(glyph: seq<string>, di: nat, row: nat, col: nat, p: Point)
    requires row < DigitRows && col <= DigitCols
    ensures p in ColumnCells(glyph, di, row, col) <==>
      exists c :: col <= c < DigitCols && Bit(glyph, row, c) && p == CellCentre(di, row, c)
    decreases DigitCols - col
  {
    if col < DigitCols {
      ColumnMembers(glyph, di, row, col + 1, p);
    }
  }

  /** Every lit bit of a glyph in rows row and below has its cell in RowCells. */
  lemma {:induction false} RowHas(glyph: seq<string>, di: nat, row: nat, r: int, c: int)
    requires row <= r < DigitRows && 0 <= c < DigitCols && Bit(glyph, r, c)
    ensures CellCentre(di, r, c) in RowCells(glyph, di, row)
    decreases DigitRows - row
  {
    assert RowCells(glyph, di, row) == ColumnCells(glyph, di, row, 0) + RowCells(glyph, di, row + 1);
    if r == row {
      ColumnMembers(glyph, di, row, 0, CellCentre(di, r, c));
    } else {
      RowHas(glyph, di, row + 1, r, c);
    }
  }

  lemma RowFirstOnly(glyph: seq<string>, di: nat, row: nat, p: Point)
    requires row < DigitRows && p in ColumnCells(glyph, di, row, 0)
    ensures exists r, c :: row <= r < DigitRows && 0 <= c < DigitCols && Bit(glyph, r, c) && p == CellCentre(di, r, c)
  {
    ColumnMembers(glyph, di, row, 0, p);
    var c :| 0 <= c < DigitCols && Bit(glyph, row, c) && p == CellCentre(di, row, c);
    assert row <= row < DigitRows;
  }

  /** Every cell in RowCells is the centre of a lit bit in rows row and below. */
  lemma {:induction false} RowOnly(glyph: seq<string>, di: nat, row: nat, p: Point)
    requires row <= DigitRows && p in RowCells(glyph, di, row)
    ensures exists r, c :: row <= r < DigitRows && 0 <= c < DigitCols && Bit(glyph, r, c) && p == CellCentre(di, r, c)
    decreases DigitRows - row
  {
    var here := ColumnCells(glyph, di, row, 0);
    assert RowCells(glyph, di, row) == here + RowCells(glyph, di, row + 1);
    if p in here {
      RowFirstOnly(glyph, di, row, p);
    } else {
      RowOnly(glyph, di, row + 1, p);
      var r, c :| row + 1 <= r < DigitRows && 0 <= c < DigitCols && Bit(glyph, r, c) && p == CellCentre(di, r, c);
      assert row <= r;
    }
  }

  /** Every lit bit of the layout is drawn. */
  lemma {:induction false} LayoutHas(glyphs: seq<seq<string>>, di: nat, d: int, r: int, c: int)
    requires LitIn(glyphs, di, d, r, c)
    ensures CellCentre(d, r, c) in LayoutCells(glyphs, di)
    decreases |glyphs|
  {
    assert LayoutCells(glyphs, di) == RowCells(glyphs[0], di, 0) + LayoutCells(glyphs[1..], di + 1);
    if d == di {
      RowHas(glyphs[0], di, 0, r, c);
    } else {
      assert glyphs[1..][d - (di + 1)] == glyphs[d - di];
      LayoutHas(glyphs[1..], di + 1, d, r, c);
    }
  }

  lemma FirstGlyphOnly(glyphs: seq<seq<string>>, di: nat, p: Point)
    requires glyphs != [] && p in RowCells(glyphs[0], di, 0)
    ensures exists d, r, c :: LitIn(glyphs, di, d, r, c) && p == CellCentre(d, r, c)
  {
    RowOnly(glyphs[0], di, 0, p);
    var r, c :| 0 <= r < DigitRows && 0 <= c < DigitCols && Bit(glyphs[0], r, c) && p == CellCentre(di, r, c);
    assert LitIn(glyphs, di, di, r, c);
  }

  lemma LitInTail(glyphs: seq<seq<string>>, di: nat, d: int, r: int, c: int)
    requires glyphs != [] && LitIn(glyphs[1..], di + 1, d, r, c)
    ensures LitIn(glyphs, di, d, r, c)
  {
  }

  /** Only lit bits of the layout are drawn. */
  lemma {:induction false} LayoutOnly(glyphs: seq<seq<string>>, di: nat, p: Point)
    requires p in LayoutCells(glyphs, di)
    ensures exists d, r, c :: LitIn(glyphs, di, d, r, c) && p == CellCentre(d, r, c)
    decreases |glyphs|
  {
    var first := RowCells(glyphs[0], di, 0);
    assert LayoutCells(glyphs, di) == first + LayoutCells(glyphs[1..], di + 1);
    if p in first {
      FirstGlyphOnly(glyphs, di, p);
    } else {
      LayoutOnly(glyphs[1..], di + 1, p);
      var d, r, c :| LitIn(glyphs[1..], di + 1, d, r, c) && p == CellCentre(d, r, c);
      LitInTail(glyphs, di, d, r, c);
    }
  }

  /** The bit in row r, column c of the glyph of the k-th character of text is lit. */
  predicate LitDigit(text: string, k: int, r: int, c: int) {
    0 <= k < |text| && 0 <= r < DigitRows && 0 <= c < DigitCols && GlyphFor(text[k])[r][c] == '1'
  }

  /** A point is drawn for a score exactly when it is the centre
      (20 + 22*k + 6*col, 572 - 8*row) of a lit bit in row row, column col of
      the glyph of the k-th digit of the clamped score. */
  lemma HudMembers(score: int, p: Point)
    ensures p in HudCells(score) <==>
      exists k, r, c :: LitDigit(DecimalString(Clamp(score)), k, r, c) && p == CellCentre(k, r, c)
  {
    var text := DecimalString(Clamp(score));
    if p in HudCells(score) {
      HudOnly(text, p);
    }
    if exists k, r, c :: LitDigit(text, k, r, c) && p == CellCentre(k, r, c) {
      var k, r, c :| LitDigit(text, k, r, c) && p == CellCentre(k, r, c);
      HudHas(text, k, r, c);
    }
  }

  lemma HudOnly(text: string, p: Point)
    requires p in LayoutCells(GlyphsOf(text), 0)
    ensures exists k, r, c :: LitDigit(text, k, r, c) && p == CellCentre(k, r, c)
  {
    var glyphs := GlyphsOf(text);
    LayoutOnly(glyphs, 0, p);
    var k, r, c :| LitIn(glyphs, 0, k, r, c) && p == CellCentre(k, r, c);
    assert LitDigit(text, k, r, c);
  }

  lemma HudHas(text: string, k: int, r: int, c: int)
    requires LitDigit(text, k, r, c)
    ensures CellCentre(k, r, c) in LayoutCells(GlyphsOf(text), 0)
  {
    var glyphs := GlyphsOf(text);
    assert LitIn(glyphs, 0, k, r, c);
    LayoutHas(glyphs, 0, k, r, c);
  }

  /** The cells of the k-th digit lie in its own 12 by 32 pixel box: digits
      never overlap, and every cell is in the top strip of the 800 by 600 overlay. */
  lemma CellBox(k: nat, row: nat, col: nat)
    requires row < DigitRows && col < DigitCols
    ensures var p := CellCentre(k, row, col);
      && StartX + k as real * DigitSpacing <= p.x <= StartX + k as real * DigitSpacing + 12.0
      && p.x + CellW < StartX + (k + 1) as real * DigitSpacing
      && 540.0 <= p.y <= StartY < 600.0
  {
  }

  /** Negative scores draw exactly what a score of 0 draws: the twelve lit
      cells of the glyph of '0'. */
  lemma HudClampedZero(score: int)
    requires score <= 0
    ensures HudCells(score) == HudCells(0)
    ensures |HudCells(score)| == 12
  {
  }

  /** A character outside the font is drawn with the glyph of '0'. */
  lemma UnknownFallsBack(ch: char, di: nat)
    requires !IsDigitChar(ch)
    ensures GlyphFor(ch) == GlyphFor('0')
    ensures LayoutCells(GlyphsOf([ch]), di) == LayoutCells(GlyphsOf("0"), di)
  {
  }

  /** A decimal digit is drawn with its own glyph from the table. */
  lemma DigitUsesOwnGlyph(ch: char)
    requires IsDigitChar(ch)
    ensures GlyphFor(ch) == Glyphs[ch]
  {
  }
}
