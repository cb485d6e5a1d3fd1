/** The pagination driver: reads the input file's bytes in order, treats
    line feed, carriage return and form feed as carriage movements and every
    other byte as a character to print, and collects the finished pages. */
module Pagination {
  import opened Raster
  import opened PrintPage

  /** One byte of the input file. */
  type Byte = b: int | 0 <= b < 256

  const LF: Byte := 10
  const FF: Byte := 12
  const CR: Byte := 13

  /** The character set prints codes 32-95 only: a byte above 95 is moved
      down by 32, once, so lower case lands on upper case and bytes from 128
      up stay above 95. */
  function Fold(b: Byte): (c: int)
    ensures c == b || c == b - 32
    ensures c < b <==> 95 < b
    ensures c <= 95 <==> b <= 127
  {
    if b > 95 then b - 32 else b
  }

  /** The driver's state: the number of the open page, the open page, and
      the pages already finished, in order. */
  datatype State = State(numpage: int, page: Page, output: seq<Page>)

  /** Before the first byte: a fresh page 1 is open and nothing is finished. */
  function Start(): (s: State)
    ensures Inv(s) && s.output == [] && s.numpage == 1
    ensures s.page == NewPage(1)
  {
    State(1, NewPage(1), [])
  }

  /** The row at which a line feed rolls over to a new page: 64 on the first
      page, 66 on later ones. */
  function RowLimit(p: Page): (limit: int) {
    PageRows - p.voffset
  }

  /** Opens the next page after finishing `finished`. */
  function BreakPage(s: State, finished: Page): (r: State) {
    State(s.numpage + 1, NewPage(s.numpage + 1), s.output + [finished])
  }

  /** The effect of one input byte. */
  function Step(s: State, b: Byte, glyphs: GlyphStore): (r: State)
    ensures s.output <= r.output
    ensures |r.output| <= |s.output| + 1
    ensures r.numpage - s.numpage == |r.output| - |s.output|
    ensures |r.output| == |s.output| + 1
            <==> b == FF || (b == LF && s.page.row + 1 == RowLimit(s.page))
  {
    if b == LF then
      var p := s.page.(row := s.page.row + 1, column := 0);
      if p.row == PageRows - p.voffset then BreakPage(s, p) else s.(page := p)
    else if b == CR then
      s.(page := s.page.(column := 0))
    else if b == FF then
      BreakPage(s, s.page)
    else
      s.(page := PrintChar(s.page, Fold(b), glyphs))
  }

  /** The effect of a sequence of bytes, first to last. */
  function Feed(s: State, bs: seq<Byte>, glyphs: GlyphStore): (r: State)
    ensures s.output <= r.output
    ensures |r.output| <= |s.output| + |bs|
    decreases |bs|
  {
    if bs == [] then s else Feed(Step(s, bs[0], glyphs), bs[1..], glyphs)
  }

  /** Between bytes: pages are numbered 1, 2, ... in order, the open page
      carries the current page number and keeps its cursor bounds. */
  ghost predicate Inv(s: State) {
    && s.numpage == |s.output| + 1
    && s.page.number == s.numpage
    && PageInv(s.page)
    && forall k :: 0 <= k < |s.output| ==> s.output[k].number == k + 1
  }

  lemma StepInv(s: State, b: Byte, glyphs: GlyphStore)
    requires Inv(s)
    ensures Inv(Step(s, b, glyphs))
  {
  }

  /** The invariant holds after every prefix of the input; finished pages are
      never changed again. */
  lemma {:induction false} FeedInv(s: State, bs: seq<Byte>, glyphs: GlyphStore)
    requires Inv(s)
    ensures Inv(Feed(s, bs, glyphs))
    ensures s.output <= Feed(s, bs, glyphs).output
    decreases |bs|
  {
    if bs != [] {
      StepInv(s, bs[0], glyphs);
      FeedInv(Step(s, bs[0], glyphs), bs[1..], glyphs);
    }
  }

  /** Number of occurrences of byte `v` in `bs`. */
  function Count(bs: seq<Byte>, v: Byte): (n: nat)
    ensures n <= |bs|
    ensures n == 0 <==> v !in bs
    decreases |bs|
  {
    if bs == [] then 0 else (if bs[0] == v then 1 else 0) + Count(bs[1..], v)
  }

  /** Reference line counter: the number of line-feed rollovers in `bs`,
      tracking only the row, from row `row` on a page that rolls over at
      `limit`. A form feed starts a later page at row 0; every later page
      rolls over at `PageRows`. */
  function Rollovers(bs: seq<Byte>, row: nat, limit: nat): (n: nat)
    ensures n <= Count(bs, LF)
    decreases |bs|
  {
    if bs == [] then 0
    else if bs[0] == LF then
      if row + 1 == limit then 1 + Rollovers(bs[1..], 0, PageRows)
      else Rollovers(bs[1..], row + 1, limit)
    else if bs[0] == FF then Rollovers(bs[1..], 0, PageRows)
    else Rollovers(bs[1..], row, limit)
  }

  /** Every form feed and every line-feed rollover finishes exactly one page. */
  lemma {:induction false} FeedPageCount(s: State, bs: seq<Byte>, glyphs: GlyphStore)
    requires Inv(s)
    ensures |Feed(s, bs, glyphs).output|
            == |s.output| + Count(bs, FF) + Rollovers(bs, s.page.row, RowLimit(s.page))
    decreases |bs|
  {
    if bs != [] {
      StepInv(s, bs[0], glyphs);
      FeedPageCount(Step(s, bs[0], glyphs), bs[1..], glyphs);
    }
  }

  /** The whole file: all bytes are fed in order, then the open page is
      finished too. */
  function Olivettize(bs: seq<Byte>, glyphs: GlyphStore): (pages: seq<Page>)
    ensures |pages| == 1 + Count(bs, FF) + Rollovers(bs, 0, PageRows - 2)
    ensures forall k :: 0 <= k < |pages| ==> pages[k].number == k + 1
    ensures pages[|pages| - 1] == Feed(Start(), bs, glyphs).page
    ensures pages[|pages| - 1].number == Feed(Start(), bs, glyphs).numpage
    ensures bs == [] ==> pages == [NewPage(1)]
  {
    var s := Feed(Start(), bs, glyphs);
    FeedInv(Start(), bs, glyphs);
    FeedPageCount(Start(), bs, glyphs);
    if s.numpage > 0 then s.output + [s.page] else s.output
  }

  /** A line feed moves to column 0 of the next row, and rolls over to a new
      page exactly when that row is the page's limit. */
  lemma LineFeedStep(s: State, glyphs: GlyphStore)
    requires Inv(s)
    ensures var r := Step(s, LF, glyphs);
      if s.page.row + 1 == RowLimit(s.page) then
        && r.output == s.output + [s.page.(row := s.page.row + 1, column := 0)]
        && r.page == NewPage(s.numpage + 1)
      else
        && r.output == s.output
        && r.page == s.page.(row := s.page.row + 1, column := 0)
  {
  }

  /** A carriage return moves to column 0 and changes nothing else. */
  lemma CarriageReturnStep(s: State, glyphs: GlyphStore)
    ensures Step(s, CR, glyphs) == s.(page := s.page.(column := 0))
  {
  }

  /** A form feed finishes the open page, however full it is, and opens the
      page with the next number. */
  lemma FormFeedStep(s: State, glyphs: GlyphStore)
    requires Inv(s)
    ensures var r := Step(s, FF, glyphs);
      && r.output == s.output + [s.page]
      && r.page == NewPage(s.page.number + 1)
      && r.numpage == s.numpage + 1
  {
  }

  /** Any other byte is printed, folded, in the open page. */
  lemma PrintableStep(s: State, b: Byte, glyphs: GlyphStore)
    requires b != LF && b != CR && b != FF
    ensures Step(s, b, glyphs) == s.(page := PrintChar(s.page, Fold(b), glyphs))
  {
  }

  /** Without line feeds, K form feeds give K + 1 pages. */
  lemma FormFeedPages(bs: seq<Byte>, glyphs: GlyphStore)
    requires LF !in bs
    ensures |Olivettize(bs, glyphs)| == Count(bs, FF) + 1
  {
  }

  /** Rollovers of a file with `lines` line feeds that starts at row `row`
      on a page rolling over at `limit`: the first page fills after
      `limit - row` of them, every later one after `PageRows` more. */
  function RolloversAfter(lines: nat, row: nat, limit: nat): (n: nat)
    requires row < limit
  {
    if row + lines < limit then 0 else 1 + (row + lines - limit) / PageRows
  }

  /** Without form feeds, only the number of line feeds decides the
      rollovers: carriage returns and printed characters never move the row. */
  lemma {:induction false} FormFeedFreeRollovers(bs: seq<Byte>, row: nat, limit: nat)
    requires FF !in bs
    requires row < limit <= PageRows
    ensures Rollovers(bs, row, limit) == RolloversAfter(Count(bs, LF), row, limit)
    decreases |bs|
  {
    if bs != [] {
      var lines := Count(bs, LF);
      if bs[0] == LF {
        assert Count(bs[1..], LF) == lines - 1;
        if row + 1 == limit {
          FormFeedFreeRollovers(bs[1..], 0, PageRows);
          var m := lines - 1;
          if m >= PageRows {
            assert (m - PageRows) / PageRows + 1 == m / PageRows;
          }
        } else {
          FormFeedFreeRollovers(bs[1..], row + 1, limit);
        }
      } else {
        assert bs[0] != FF;
        FormFeedFreeRollovers(bs[1..], row, limit);
      }
    }
  }

  /** A file without form feeds and with `n` line feeds, whatever else it
      holds, fills the first page after 64 line feeds and every later page
      after 66 more. */
  lemma FormFeedFreePages(bs: seq<Byte>, glyphs: GlyphStore)
    requires FF !in bs
    ensures var n := Count(bs, LF);
      |Olivettize(bs, glyphs)| == if n < PageRows - 2 then 1 else 2 + (n - (PageRows - 2)) / PageRows
  {
    FormFeedFreeRollovers(bs, 0, PageRows - 2);
  }

  /** `n` line feeds. */
  function LineFeeds(n: nat): (bs: seq<Byte>)
    ensures |bs| == n && forall i :: 0 <= i < n ==> bs[i] == LF
  {
    seq(n, _ => LF)
  }

  lemma {:induction false} LineFeedsCount(n: nat)
    ensures Count(LineFeeds(n), LF) == n
    decreases n
  {
    if n > 0 {
      assert LineFeeds(n)[1..] == LineFeeds(n - 1);
      LineFeedsCount(n - 1);
    }
  }

  /** A file of `n` line feeds; in particular 64 of them give two pages. */
  lemma LineFeedPages(n: nat, glyphs: GlyphStore)
    ensures |Olivettize(LineFeeds(n), glyphs)|
            == if n < PageRows - 2 then 1 else 2 + (n - (PageRows - 2)) / PageRows
    ensures |Olivettize(LineFeeds(PageRows - 2), glyphs)| == 2
  {
    LineFeedsCount(n);
    LineFeedsCount(PageRows - 2);
    assert FF !in LineFeeds(n);
    assert FF !in LineFeeds(PageRows - 2);
    FormFeedFreePages(LineFeeds(n), glyphs);
    FormFeedFreePages(LineFeeds(PageRows - 2), glyphs);
  }

  /** Overstrike by carriage return: after character b1 is printed at the
      start of a row and the carriage returns, character b2 is struck into
      the same cell. The raster is the same as printing b2 first and b1 over
      it, and a repeated character darkens nothing further. */
  lemma CarriageReturnOverstrikes(s: State, b1: Byte, b2: Byte, glyphs: GlyphStore)
    requires s.page.column == 0
    requires b1 != LF && b1 != CR && b1 != FF
    requires b2 != LF && b2 != CR && b2 != FF
    ensures var r := Feed(s, [b1, CR, b2], glyphs);
      && r.output == s.output
      && r.page.row == s.page.row && r.page.column == 1
      && r.page.img == PrintChar(PrintChar(s.page, Fold(b2), glyphs).(column := 0), Fold(b1), glyphs).img
      && (b1 == b2 ==> r.page.img == PrintChar(s.page, Fold(b1), glyphs).img)
  {
    var bs: seq<Byte> := [b1, CR, b2];
    assert bs[1..] == [CR, b2];
    assert bs[1..][1..] == [b2];
    var s1 := Step(s, b1, glyphs);
    var s2 := Step(s1, CR, glyphs);
    var s3 := Step(s2, b2, glyphs);
    assert Feed(s, bs, glyphs) == s3 by {
      assert Feed(s, bs, glyphs) == Feed(s1, [CR, b2], glyphs);
      assert Feed(s1, [CR, b2], glyphs) == Feed(s2, [b2], glyphs);
      assert Feed(s2, [b2], glyphs) == Feed(s3, [], glyphs);
    }
    assert s3.page == PrintChar(PrintChar(s.page, Fold(b1), glyphs).(column := s.page.column), Fold(b2), glyphs);
    OverstrikeCommutes(s.page, Fold(b1), Fold(b2), glyphs);
    OverstrikeSameCharIdempotent(s.page, Fold(b1), glyphs);
  }

  /** "AB", carriage return, "C", form feed: two pages. On the first, cell 0
      of the top row holds the darker of A and C, cell 1 holds B; the second
      is the blank page opened by the form feed. */
  lemma OverstrikeExample(glyphs: GlyphStore, a: Bitmap, b: Bitmap, c: Bitmap)
    requires glyphs(0, 65) == Some(a) && glyphs(0, 66) == Some(b) && glyphs(0, 67) == Some(c)
    requires a.width == CellWidth && a.height == CellHeight
    requires b.width == CellWidth && b.height == CellHeight
    requires c.width == CellWidth && c.height == CellHeight
    ensures var pages := Olivettize([65, 66, 13, 67, 12], glyphs);
      && |pages| == 2
      && pages[0].number == 1
      && pages[1] == NewPage(2)
      && (forall x, y :: InBounds(pages[0].img, x, y) && InCell(x, y, 3 * CellWidth, 2 * CellHeight, a) ==>
            At(pages[0].img, x, y) == Darker(At(a, x - 3 * CellWidth, y - 2 * CellHeight),
                                             At(c, x - 3 * CellWidth, y - 2 * CellHeight)))
      && (forall x, y :: InBounds(pages[0].img, x, y) && InCell(x, y, 4 * CellWidth, 2 * CellHeight, b) ==>
            At(pages[0].img, x, y) == At(b, x - 4 * CellWidth, y - 2 * CellHeight))
  {
    var bs: seq<Byte> := [65, 66, 13, 67, 12];
    var s0 := Start();
    var s1 := Step(s0, 65, glyphs);
    var s2 := Step(s1, 66, glyphs);
    var s3 := Step(s2, 13, glyphs);
    var s4 := Step(s3, 67, glyphs);
    var s5 := Step(s4, 12, glyphs);
    assert Feed(s0, bs, glyphs) == s5 by {
      assert bs[1..] == [66, 13, 67, 12];
      assert bs[1..][1..] == [13, 67, 12];
      assert bs[1..][1..][1..] == [67, 12];
      assert bs[1..][1..][1..][1..] == [12];
    }
    var p0 := s0.page;
    var p1 := s1.page;
    var p2 := s2.page;
    var p4 := s4.page;
    assert p1 == PrintChar(p0, 65, glyphs);
    assert p2 == PrintChar(p1, 66, glyphs);
    assert s3.page == p2.(column := 0);
    assert p4 == PrintChar(p2.(column := 0), 67, glyphs);
    assert s5.output == [p4];
    forall x, y | InBounds(p4.img, x, y) && InCell(x, y, 3 * CellWidth, 2 * CellHeight, a)
      ensures At(p4.img, x, y) == Darker(At(a, x - 3 * CellWidth, y - 2 * CellHeight),
                                         At(c, x - 3 * CellWidth, y - 2 * CellHeight))
    {
      assert !InCell(x, y, 4 * CellWidth, 2 * CellHeight, b);
    }
    forall x, y | InBounds(p4.img, x, y) && InCell(x, y, 4 * CellWidth, 2 * CellHeight, b)
      ensures At(p4.img, x, y) == At(b, x - 4 * CellWidth, y - 2 * CellHeight)
    {
      assert !InCell(x, y, 3 * CellWidth, 2 * CellHeight, a);
    }
  }
}
