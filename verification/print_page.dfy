/** One printed page: a white raster, a (column, row) cursor and the cell
    offsets that place the cursor on the paper. Printing a character looks up
    a glyph bitmap, overstrikes it into the cursor's cell and advances the
    column, which stops at the right margin. */
module PrintPage {
  import opened Raster

  datatype Option<T> = None | Some(value: T)

  /** Page geometry: 85 columns by 66 rows of 120 x 200 pixel cells. */
  const PageRows: nat := 66
  const PageCols: nat := 85
  const CellWidth: nat := 120
  const CellHeight: nat := 200
  const PageWidth: nat := PageCols * CellWidth
  const PageHeight: nat := PageRows * CellHeight

  /** The column advances only while it is at most this value, so the cursor
      can reach column `LastColumn + 1` and no further. */
  const LastColumn: nat := 79

  /** The glyph store: the bitmap for a (style variant, character code) pair,
      or `None` when no such glyph exists. */
  type GlyphStore = (nat, int) -> Option<Bitmap>

  datatype Page = Page(
    number: int,     // page number within the document
    img: Bitmap,     // the page raster
    column: nat,     // cursor column
    row: nat,        // cursor row
    voffset: nat,    // rows between the paper's top edge and cursor row 0
    hoffset: nat     // columns between the paper's left edge and cursor column 0
  )

  /** The cursor bounds and fixed layout every page keeps between bytes. */
  ghost predicate PageInv(p: Page) {
    && p.img.width == PageWidth
    && p.img.height == PageHeight
    && p.hoffset == 3
    && p.voffset == (if p.number == 1 then 2 else 0)
    && p.column <= LastColumn + 1
    && p.row < PageRows - p.voffset
  }

  /** A fresh page: blank paper, cursor at the top-left, and the first page of
      a document shifted two rows down. */
  function NewPage(number: int): (p: Page)
    ensures p.number == number
    ensures p.column == 0 && p.row == 0
    ensures p.hoffset == 3 && p.voffset == (if number == 1 then 2 else 0)
    ensures p.img.width == PageWidth && p.img.height == PageHeight
    ensures forall x, y :: InBounds(p.img, x, y) ==> At(p.img, x, y) == White
    ensures PageInv(p)
  {
    Page(number, Blank(PageWidth, PageHeight), 0, 0, if number == 1 then 2 else 0, 3)
  }

  /** The glyph style variant used on a row: the three variants cycle down
      the page. */
  function Variant(row: nat): (v: nat)
    ensures v < 3
    ensures (row - v) % 3 == 0
  {
    row % 3
  }

  /** The top-left pixel (CellX, CellY) of the cursor's cell for a glyph of
      size w x h: ((column + hoffset) * w, (row + voffset) * h). */
  function CellX(p: Page, glyph: Bitmap): (x: nat) {
    (p.column + p.hoffset) * glyph.width
  }

  function CellY(p: Page, glyph: Bitmap): (y: nat) {
    (p.row + p.voffset) * glyph.height
  }

  /** Prints character `code` at the cursor: the glyph for (Variant(row), code)
      is overstruck into the cursor's cell, then the column advances unless it
      is already past `LastColumn`. A missing glyph leaves the raster as it
      was, but the column still advances. */
  function PrintChar(p: Page, code: int, glyphs: GlyphStore): (q: Page)
    ensures q.number == p.number && q.row == p.row
    ensures q.voffset == p.voffset && q.hoffset == p.hoffset
    ensures p.column < LastColumn + 1 ==> q.column == p.column + 1
    ensures p.column >= LastColumn + 1 ==> q.column == p.column
    ensures NoLighter(q.img, p.img)
    ensures glyphs(Variant(p.row), code).None? ==> q.img == p.img
    ensures glyphs(Variant(p.row), code).Some? ==>
              var g := glyphs(Variant(p.row), code).value;
              forall x, y :: InBounds(q.img, x, y) ==>
                At(q.img, x, y)
                == if InCell(x, y, CellX(p, g), CellY(p, g), g)
                   then Darker(At(p.img, x, y), At(g, x - CellX(p, g), y - CellY(p, g)))
                   else At(p.img, x, y)
  {
    var img :=
      match glyphs(Variant(p.row), code)
      case None => p.img
      case Some(g) =>
        var r := Composite(p.img, g, CellX(p, g), CellY(p, g));
        assert forall x, y :: InBounds(r, x, y) ==>
          At(r, x, y)
          == if InCell(x, y, CellX(p, g), CellY(p, g), g)
             then Darker(At(p.img, x, y), At(g, x - CellX(p, g), y - CellY(p, g)))
             else At(p.img, x, y);
        r;
    p.(img := img, column := if p.column <= LastColumn then p.column + 1 else p.column)
  }

  /** Printing a run of characters with no control bytes between them. */
  function PrintRun(p: Page, codes: seq<int>, glyphs: GlyphStore): (q: Page)
    decreases |codes|
  {
    if codes == [] then p else PrintRun(PrintChar(p, codes[0], glyphs), codes[1..], glyphs)
  }

  /** A run of characters moves the column right one cell per character until
      it reaches column 80, where it stays; the row never moves and the
      raster only darkens. */
  lemma {:induction false} PrintRunClampsColumn(p: Page, codes: seq<int>, glyphs: GlyphStore)
    requires p.column <= LastColumn + 1
    ensures var q := PrintRun(p, codes, glyphs);
      && q.column == (if p.column + |codes| <= LastColumn + 1 then p.column + |codes| else LastColumn + 1)
      && q.row == p.row && q.number == p.number
      && NoLighter(q.img, p.img)
    decreases |codes|
  {
    if codes != [] {
      var p1 := PrintChar(p, codes[0], glyphs);
      PrintRunClampsColumn(p1, codes[1..], glyphs);
    }
  }

  /** Once the column has reached its limit, every further character is struck
      into the same last cell. */
  lemma LastCellOverstrikes(p: Page, code: int, glyphs: GlyphStore, g: Bitmap)
    requires p.column == LastColumn + 1
    ensures var q := PrintChar(p, code, glyphs);
      q.column == p.column && CellX(q, g) == CellX(p, g) && CellY(q, g) == CellY(p, g)
  {
  }

  /** The only glyph `PrintChar` consults is the one keyed by
      (row mod 3, code): two stores that agree there print the same page. */
  lemma PrintCharLookupKey(p: Page, code: int, g1: GlyphStore, g2: GlyphStore)
    requires g1(p.row % 3, code) == g2(p.row % 3, code)
    ensures PrintChar(p, code, g1) == PrintChar(p, code, g2)
  {
  }

  /** Returning to a cell (by carriage return) and printing the same character
      again leaves the raster exactly as printing it once did. */
  lemma OverstrikeSameCharIdempotent(p: Page, code: int, glyphs: GlyphStore)
    ensures var once := PrintChar(p, code, glyphs);
      PrintChar(once.(column := p.column), code, glyphs).img == once.img
  {
    match glyphs(Variant(p.row), code)
    case None =>
    case Some(g) =>
      CompositeIdempotent(p.img, g, CellX(p, g), CellY(p, g));
  }

  /** Overstriking two characters in one cell gives the same raster whichever
      is printed first. */
  lemma OverstrikeCommutes(p: Page, c1: int, c2: int, glyphs: GlyphStore)
    ensures var a := PrintChar(PrintChar(p, c1, glyphs).(column := p.column), c2, glyphs);
            var b := PrintChar(PrintChar(p, c2, glyphs).(column := p.column), c1, glyphs);
            a.img == b.img
  {
    match (glyphs(Variant(p.row), c1), glyphs(Variant(p.row), c2))
    case (Some(g1), Some(g2)) =>
      CompositeCommutes(p.img, g1, CellX(p, g1), CellY(p, g1), g2, CellX(p, g2), CellY(p, g2));
    case _ =>
  }

  /** The character code for a space is composited like any other code; when
      the store has no space glyph for the row's variant, or that glyph has no
      ink, printing a space only advances the column. */
  lemma BlankSpaceOnlyAdvances(p: Page, glyphs: GlyphStore)
    requires glyphs(Variant(p.row), 32).Some? ==>
               forall x, y :: InBounds(glyphs(Variant(p.row), 32).value, x, y) ==>
                 At(glyphs(Variant(p.row), 32).value, x, y) == White
    ensures var q := PrintChar(p, 32, glyphs); q == p.(column := q.column)
  {
    match glyphs(Variant(p.row), 32)
    case None =>
    case Some(g) =>
      CompositeBlankGlyph(p.img, g, CellX(p, g), CellY(p, g));
  }

  /** With the 120 x 200 glyphs of the character set, the cursor's cell lies
      inside the page raster whenever the page invariant holds. */
  lemma CellInsidePage(p: Page, g: Bitmap)
    requires PageInv(p)
    requires g.width == CellWidth && g.height == CellHeight
    ensures CellX(p, g) + g.width <= p.img.width
    ensures CellY(p, g) + g.height <= p.img.height
  {
    assert p.column + p.hoffset + 1 <= PageCols;
    assert p.row + p.voffset + 1 <= PageRows;
  }
}
