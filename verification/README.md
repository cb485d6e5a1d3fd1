# Olivettize page composition, in Dafny

Olivettize renders a plain-text printout as page images of a simulated
impact printer (an Olivetti typewriter-printer). This project models its page
composition engine:

- **`Raster`** (`raster.dfy`): 8-bit grayscale rasters and the darker-of
  compositing (`ImageChops.darker`) that makes overstrike work. Ink only
  accumulates, and a pixel ends as the darkest value of the paper and of every
  glyph struck over it.
- **`PrintPage`** (`print_page.dfy`): the `PrintPage` class. A page has a
  number, a white raster, a `(column, row)` cursor and cell offsets. The first
  page of a document sits two rows lower. `PrintChar` fetches the glyph for
  `(row mod 3, code)` from an injected glyph store. It overstrikes that glyph
  into the cursor's cell and advances the column up to column 80.
- **`Pagination`** (`pagination.dfy`): the main loop over the input file's
  bytes. Line feed (10) moves to a new row and rolls over to a new page when
  the row reaches `66 - voffset`. Carriage return (13) returns to column 0.
  Form feed (12) always starts a new page. Every other byte is folded (`> 95`
  loses 32) and printed. `Olivettize` feeds the whole file and then always
  finishes the open page.

The file is read line by line and each line byte by byte. Together that visits
every byte in file order, so the input is modelled as one flat sequence of
bytes. The glyph store is a function parameter
`(variant, code) -> Option<Bitmap>`. Loading the glyph files is external.
Page geometry uses the source's constants: 85 × 66 cells of 120 × 200 pixels.

The code does not always do what its comments or a reader would expect. The
model follows the code:

- A space is not skipped, although the comment at olivettize.py:54 reads
  "space character, just advance". The guard `char != ' '` compares an
  integer with a string, so it is always true. A space fetches and
  composites its glyph like any other code. `PrintPage.BlankSpaceOnlyAdvances`
  shows the outcome is a pure advance only when the space glyph is missing or
  has no ink.
- The column guard is `<= 79`, so the column reaches 80, not 79.
- Empty input yields one blank page. The page counter starts at 1, so the
  final flush always runs.
- Control bytes other than 10, 12 and 13 (a tab, say) are printed as codes.
  Bytes from 128 up stay above 95 after the single fold.

## Model

| member | source | states |
|---|---|---|
| Raster.Blank | olivettize.py:39-40 | A new raster has the requested size and every sample is white (255) |
| Raster.Darker | olivettize.py:62 | The darker-of sample is no lighter than either input and is one of them |
| Raster.Composite | olivettize.py:58-63 | Inside the glyph's rectangle each sample becomes the darker of page and glyph. Outside it nothing changes. The result is nowhere lighter than the original |
| Raster.CompositeIdempotent | olivettize.py:59-63 | Overstriking the same glyph twice at the same place gives the same raster as striking it once |
| Raster.CompositeCommutes | olivettize.py:62 | The order of two overstrikes does not matter, wherever the two glyphs land |
| Raster.CompositeBlankGlyph | olivettize.py:61-63 | A glyph with no ink leaves the raster unchanged |
| PrintPage.NewPage | olivettize.py:35-49 | A fresh page is all white with the cursor at (0, 0). hoffset is 3. voffset is 2 on page 1 and 0 otherwise. The page satisfies the cursor-bound invariant |
| PrintPage.Variant | olivettize.py:55 | The glyph style variant is in 0..2 and congruent to the row mod 3 |
| PrintPage.PrintChar | olivettize.py:51-66 | Looks up the glyph keyed by (row mod 3, code). A missing glyph leaves the raster unchanged. Otherwise every pixel of the cell at ((column+hoffset)·w, (row+voffset)·h) becomes min(old, glyph) and all other pixels stay. The column advances below 80 and stays at 80. Number, row and offsets are unchanged |
| PrintPage.PrintRunClampsColumn | olivettize.py:66 | n characters printed from column c leave the column at min(c + n, 80) and the row unchanged, and never lighten the page |
| PrintPage.LastCellOverstrikes | olivettize.py:59-66 | At column 80 the column and the destination cell stay put, so further characters overstrike the last cell |
| PrintPage.PrintCharLookupKey | olivettize.py:55-57 | Only the glyph for (row mod 3, code) influences the printed page |
| PrintPage.OverstrikeSameCharIdempotent | olivettize.py:59-63 | Returning to a cell and printing the same character again leaves the raster as printing it once did |
| PrintPage.OverstrikeCommutes | olivettize.py:59-63 | Two characters overstruck in one cell give the same raster in either order |
| PrintPage.BlankSpaceOnlyAdvances | olivettize.py:54-66 | If the space glyph is missing or inkless, printing a space changes only the column |
| PrintPage.CellInsidePage | olivettize.py:30-60 | For 120×200 glyphs on a page within its cursor bounds, the destination cell lies inside the 10200×13200 raster |
| Pagination.Fold | olivettize.py:108-109 | A byte is lowered by 32 exactly when it is above 95. The folded code is at most 95 exactly when the byte is at most 127 |
| Pagination.Start | olivettize.py:84-86 | Before the first byte, the open page is the fresh page 1 (blank, cursor at (0, 0)), nothing is finished, and the driver invariant holds |
| Pagination.Step | olivettize.py:93-110 | One byte only ever appends to the finished pages, at most one page at a time. The page number rises by the number of pages appended. A page is appended exactly for a form feed or a line feed that reaches the row limit |
| Pagination.StepInv | olivettize.py:93-110 | Each byte keeps column ≤ 80, row < 66 − voffset, the page layout, and the numbering of finished and open pages |
| Pagination.Feed | olivettize.py:90-110 | Feeding bytes in order only appends to the finished pages: earlier output stays a prefix, and at most one page is added per byte |
| Pagination.Rollovers | olivettize.py:93-105 | The row-only reference line counter never counts more rollovers than there are line feeds |
| Pagination.FeedInv | olivettize.py:90-110 | The invariant holds after any prefix of the input. Finished pages are never modified or removed |
| Pagination.FeedPageCount | olivettize.py:93-105 | Pages finished = form feeds + line-feed rollovers counted by an independent row-only line counter |
| Pagination.Olivettize | olivettize.py:84-114 | Output length is 1 + #FF + #rollovers, so it is never empty. Pages are numbered 1..n in order. The last page is the open page at end of input and carries the final page number. Empty input gives one blank page 1 |
| Pagination.LineFeedStep | olivettize.py:93-99 | A line feed moves to column 0 of the next row. It rolls over exactly when that row equals 66 − voffset: the page so far is finished and page number+1 opens |
| Pagination.CarriageReturnStep | olivettize.py:100-101 | A carriage return sets the column to 0 and changes nothing else |
| Pagination.FormFeedStep | olivettize.py:102-105 | A form feed finishes the open page whatever its row and opens the next-numbered page |
| Pagination.PrintableStep | olivettize.py:106-110 | Every byte other than 10, 12 and 13 is printed as its folded code in the open page, and nothing else changes |
| Pagination.FormFeedPages | olivettize.py:102-114 | Input without line feeds and with K form feeds yields K + 1 pages |
| Pagination.FormFeedFreeRollovers | olivettize.py:93-110 | Without form feeds, the rollovers depend only on the number of line feeds: carriage returns and printed bytes never move the row. The first page fills after limit − row line feeds and each later page after 66 more |
| Pagination.FormFeedFreePages | olivettize.py:93-114 | Any input without form feeds and with n line feeds yields 1 page when n < 64, otherwise 2 + (n − 64) div 66 |
| Pagination.LineFeedPages | olivettize.py:93-114 | n line feeds alone yield 1 page when n < 64, otherwise 2 + (n − 64) div 66. In particular 64 line feeds yield 2 pages |
| Pagination.CarriageReturnOverstrikes | olivettize.py:100-110 | After a character at the start of a row, a carriage return and a second character, the second is struck into the same cell. The raster equals printing them in the other order, and a repeated character darkens nothing further. No page is finished and the row stays |
| Pagination.OverstrikeExample | olivettize.py:84-114 | "AB", CR, "C", FF yields 2 pages. On page 1, cell 0 holds the darker of A and C and cell 1 holds B. Page 2 is a fresh blank page |

## Left out

- Glyph asset loading is left out. This covers `Image.open` and building the glyph's file name: `chars/0V` for variant V, then the code written with at least two digits (three for codes 100-223), then `.jpg`. It is replaced by the glyph-store parameter. The two-digit variant prefix makes each file name determine one (variant, code) pair, so keying by the pair is faithful.
- The "Error opening character file" message for a missing glyph is console output. The model keeps only the fail-soft behaviour: no compositing, but the column still advances.
- Glyph image modes are not modelled. Glyphs are taken to be grayscale bitmaps like the page.
- PIL internals are left out: `Image.new`, `crop` and `paste`, and `Image.MAX_IMAGE_PIXELS`. Compositing is modelled as clipped to the page, which is what a crop-then-paste with the same box does for pixels outside the raster.
- Halving the pages and exporting them as a multi-page PDF (olivettize.py:116-124) is left out. That is a library call and file output.
- Command-line handling is left out: the argument count check, opening the input file, and the error and usage messages (olivettize.py:79-82, 126-131). This is I/O plumbing.
- Proofs never enumerate the page's pixels. `NewPage` does build a full 10200 × 13200 raster, but only an executed model would materialise it; every proof treats the raster symbolically.
