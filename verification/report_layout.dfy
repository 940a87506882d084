/**
 The line layout of the PDF report. The report text is split on newlines;
 each segment is drawn, cut to 110 characters, at the current height `y`,
 which starts 40 points below the top of the page and drops by 14 points per
 line; when it falls below the 40-point bottom margin a new page begins and
 `y` returns to the top. Instead of drawing, the model lists where each line
 goes: its page number, its height on the page and its text.
 */
module ReportLayout {
  import Lines

  const LineWidth: nat := 110
  const Margin: int := 40
  const LineHeight: int := 14
  /** US Letter: 11 inches of 72 points. */
  const LetterHeight: int := 792

  /** One drawn line: page (counted from 0), height above the page bottom, text. */
  datatype Placed = Placed(page: nat, y: int, text: string)

  /** `line[:110]`. */
  function Truncate(line: string): (t: string)
    ensures |t| <= LineWidth && |t| <= |line| && t == line[..|t|]
    ensures |t| == LineWidth || t == line
  {
    if |line| <= LineWidth then line else line[..LineWidth]
  }

  /** Where the cursor starts on each page. */
  function Top(height: int): int {
    height - Margin
  }

  /**
   How many lines one page takes before the cursor drops below the margin.
   A page too short to hold even its first line above the margin still takes
   that one line.
   */
  function LinesPerPage(height: int): (k: nat)
    ensures k >= 1
  {
    if height < 2 * Margin then 1 else (height - 2 * Margin) / LineHeight + 1
  }

  /** The drawing loop, continued from a cursor on page `page` at height `y`. */
  function LayoutFrom(lines: seq<string>, height: int, page: nat, y: int): (placed: seq<Placed>)
    ensures |placed| == |lines|
    ensures forall i :: 0 <= i < |lines| ==> placed[i].text == Truncate(lines[i])
  {
    if lines == [] then []
    else
      var next := y - LineHeight;
      var rest :=
        if next < Margin then LayoutFrom(lines[1..], height, page + 1, Top(height))
        else LayoutFrom(lines[1..], height, page, next);
      [Placed(page, y, Truncate(lines[0]))] + rest
  }

  /** The drawing loop from the top of the first page. */
  function Layout(lines: seq<string>, height: int): (placed: seq<Placed>)
    ensures |placed| == |lines|
    ensures forall i :: 0 <= i < |lines| ==> placed[i].text == Truncate(lines[i])
    ensures |lines| >= 1 ==> placed[0].page == 0 && placed[0].y == height - Margin
  {
    LayoutFrom(lines, height, 0, Top(height))
  }

  /** The lines `generate_pdf` draws for a report, on a page `height` points tall. */
  function RenderReport(report: string, height: int): (placed: seq<Placed>)
    ensures |placed| == |Lines.Split(report)| == Lines.Count(report, Lines.Newline) + 1
    ensures forall i :: 0 <= i < |placed| ==> placed[i].text == Truncate(Lines.Split(report)[i])
  {
    Lines.SplitCount(report);
    Layout(Lines.Split(report), height)
  }

  /** The texts of the drawn lines, in drawing order. */
  function Texts(placed: seq<Placed>): (ts: seq<string>)
    ensures |ts| == |placed|
    ensures forall i :: 0 <= i < |placed| ==> ts[i] == placed[i].text
  {
    if placed == [] then [] else [placed[0].text] + Texts(placed[1..])
  }

  // ---------------------------------------------------------------------
  // The cursor, counted in rows
  // ---------------------------------------------------------------------

  /** The cursor as a page and a row on it; row `r` is drawn `14 * r` points below the top. */
  datatype Cursor = Cursor(page: nat, row: nat)

  /** The cursor after drawing one line: the next row, or the first row of the next page. */
  function Advance(c: Cursor, perPage: nat): (next: Cursor)
    ensures next.page == c.page || next.page == c.page + 1
  {
    if c.row + 1 < perPage then Cursor(c.page, c.row + 1) else Cursor(c.page + 1, 0)
  }

  /** The cursor after `n` lines. */
  function Walk(c: Cursor, n: nat, perPage: nat): Cursor
    decreases n
  {
    if n == 0 then c else Walk(Advance(c, perPage), n - 1, perPage)
  }

  /** Where a line goes when the cursor is at `c`. */
  function At(height: int, c: Cursor, line: string): Placed {
    Placed(c.page, Top(height) - LineHeight * c.row, Truncate(line))
  }

  /** The cursor drops below the margin exactly after the last line a page takes. */
  lemma PageBreakAt(height: int, k: nat)
    requires k < LinesPerPage(height)
    ensures Top(height) - LineHeight * (k + 1) < Margin <==> k + 1 == LinesPerPage(height)
  {
  }

  /** From cursor `c`, line `i` is drawn where `i` turns of the loop have moved the cursor. */
  lemma {:induction false} LayoutFromWalk(lines: seq<string>, height: int, c: Cursor)
    requires c.row < LinesPerPage(height)
    ensures forall i :: 0 <= i < |lines| ==>
      LayoutFrom(lines, height, c.page, Top(height) - LineHeight * c.row)[i]
        == At(height, Walk(c, i, LinesPerPage(height)), lines[i])
  {
    var perPage := LinesPerPage(height);
    var placed := LayoutFrom(lines, height, c.page, Top(height) - LineHeight * c.row);
    if lines != [] {
      var next := Advance(c, perPage);
      PageBreakAt(height, c.row);
      assert placed[1..] == LayoutFrom(lines[1..], height, next.page, Top(height) - LineHeight * next.row);
      LayoutFromWalk(lines[1..], height, next);
      forall i | 1 <= i < |lines| ensures placed[i] == At(height, Walk(c, i, perPage), lines[i]) {
        assert placed[i] == placed[1..][i - 1];
        assert lines[1..][i - 1] == lines[i];
      }
    }
  }

  // ---------------------------------------------------------------------
  // Rows and pages as quotient and remainder
  // ---------------------------------------------------------------------

  lemma MulAtLeast(x: int, k: int)
    requires x >= 1 && k >= 0
    ensures x * k >= k
  {
    var y := x - 1;
    assert x * k == y * k + k;
    assert y * k >= 0;
  }

  /** Euclidean division is determined by a quotient and a remainder in range. */
  lemma DivModUnique(a: nat, k: nat, q: nat, r: nat)
    requires 0 <= r < k && a == q * k + r
    ensures a / k == q && a % k == r
  {
    var q', r' := a / k, a % k;
    assert a == q' * k + r';
    if q' < q {
      MulAtLeast(q - q', k);
    } else if q' > q {
      MulAtLeast(q' - q, k);
    }
  }

  /** Moving on by a whole page adds one to the page and keeps the row. */
  lemma NextPageSlot(m: nat, k: nat)
    requires k >= 1
    ensures (m + k) / k == m / k + 1 && (m + k) % k == m % k
  {
    DivModUnique(m, k, m / k, m % k);
    DivModUnique(m + k, k, m / k + 1, m % k);
  }

  /** Walking one more line is advancing the cursor once more. */
  lemma {:induction false} WalkLast(c: Cursor, n: nat, perPage: nat)
    ensures Walk(c, n + 1, perPage) == Advance(Walk(c, n, perPage), perPage)
    decreases n
  {
    if n > 0 {
      WalkLast(Advance(c, perPage), n - 1, perPage);
    }
  }

  /** After `n` lines from the top of page 0, the cursor is on page `n / K`, row `n % K`. */
  lemma {:induction false} WalkFromOrigin(n: nat, perPage: nat)
    requires perPage >= 1
    ensures Walk(Cursor(0, 0), n, perPage) == Cursor(n / perPage, n % perPage)
  {
    if n == 0 {
      DivModUnique(0, perPage, 0, 0);
    } else {
      var m := n - 1;
      WalkFromOrigin(m, perPage);
      WalkLast(Cursor(0, 0), m, perPage);
      DivModUnique(m, perPage, m / perPage, m % perPage);
      if m % perPage + 1 < perPage {
        DivModUnique(n, perPage, m / perPage, m % perPage + 1);
      } else {
        assert (m / perPage + 1) * perPage == m / perPage * perPage + perPage;
        DivModUnique(n, perPage, m / perPage + 1, 0);
      }
    }
  }

  // ---------------------------------------------------------------------
  // Where each line lands
  // ---------------------------------------------------------------------

  /** Line `i` lands on page `i / K` at row `i % K` from the top, for K lines per page. */
  lemma LayoutSlots(lines: seq<string>, height: int)
    ensures forall i :: 0 <= i < |lines| ==>
      Layout(lines, height)[i] == Placed(i / LinesPerPage(height),
                                         Top(height) - LineHeight * (i % LinesPerPage(height)),
                                         Truncate(lines[i]))
  {
    forall i | 0 <= i < |lines|
      ensures Layout(lines, height)[i] == Placed(i / LinesPerPage(height),
                                                 Top(height) - LineHeight * (i % LinesPerPage(height)),
                                                 Truncate(lines[i]))
    {
      LineSlot(lines, height, i);
    }
  }

  /** Line `i` lands on page `i / K` at row `i % K`. */
  lemma LineSlot(lines: seq<string>, height: int, i: nat)
    requires i < |lines|
    ensures Layout(lines, height)[i] == Placed(i / LinesPerPage(height),
                                               Top(height) - LineHeight * (i % LinesPerPage(height)),
                                               Truncate(lines[i]))
  {
    LayoutFromWalk(lines, height, Cursor(0, 0));
    WalkFromOrigin(i, LinesPerPage(height));
  }

  /** On a page at least twice the margin tall, every line is drawn between the margin and the top. */
  lemma LayoutWithinMargins(lines: seq<string>, height: int)
    requires height >= 2 * Margin
    ensures forall i :: 0 <= i < |lines| ==>
      Margin <= Layout(lines, height)[i].y <= Top(height)
  {
    LayoutSlots(lines, height);
  }

  /** On US Letter a page holds 51 lines, drawn at heights 752, 738, ..., 52. */
  lemma LetterLayout(lines: seq<string>)
    ensures LinesPerPage(LetterHeight) == 51
    ensures forall i :: 0 <= i < |lines| ==>
      Layout(lines, LetterHeight)[i] == Placed(i / 51, 752 - 14 * (i % 51), Truncate(lines[i]))
    ensures forall i :: 0 <= i < |lines| ==> 52 <= Layout(lines, LetterHeight)[i].y <= 752
  {
    LayoutSlots(lines, LetterHeight);
  }

  /**
   Pages fill in order: the first line is on page 0, each line is on the page
   of the line before it or the next one, and the last line is on page
   ceil(n / K) - 1, so n lines use exactly ceil(n / K) pages.
   */
  lemma LayoutPages(lines: seq<string>, height: int)
    requires |lines| >= 1
    ensures var placed := Layout(lines, height);
      && placed[0].page == 0
      && (forall i :: 0 < i < |placed| ==>
            placed[i].page == placed[i - 1].page || placed[i].page == placed[i - 1].page + 1)
      && placed[|placed| - 1].page + 1 == (|lines| + LinesPerPage(height) - 1) / LinesPerPage(height)
  {
    PagesAdvanceByOne(lines, height);
    LastPage(lines, height);
  }

  /** The first line is on page 0 and each later line on the page of its predecessor or the next. */
  lemma PagesAdvanceByOne(lines: seq<string>, height: int)
    ensures var placed := Layout(lines, height);
      && (|placed| > 0 ==> placed[0].page == 0)
      && forall i :: 0 < i < |placed| ==>
           placed[i].page == placed[i - 1].page || placed[i].page == placed[i - 1].page + 1
  {
    var placed := Layout(lines, height);
    LayoutFromWalk(lines, height, Cursor(0, 0));
    forall i | 0 < i < |placed|
      ensures placed[i].page == placed[i - 1].page || placed[i].page == placed[i - 1].page + 1
    {
      NextLinePage(lines, height, i);
    }
  }

  /** Line `i` is on the page of line `i - 1` or the one after it. */
  lemma NextLinePage(lines: seq<string>, height: int, i: nat)
    requires 0 < i < |lines|
    ensures var placed := Layout(lines, height);
      placed[i].page == placed[i - 1].page || placed[i].page == placed[i - 1].page + 1
  {
    var perPage := LinesPerPage(height);
    var origin := Cursor(0, 0);
    LayoutFromWalk(lines, height, origin);
    WalkLast(origin, i - 1, perPage);
  }

  /** The last of n lines is on page ceil(n / K) - 1. */
  lemma LastPage(lines: seq<string>, height: int)
    requires |lines| >= 1
    ensures Layout(lines, height)[|lines| - 1].page + 1
      == (|lines| + LinesPerPage(height) - 1) / LinesPerPage(height)
  {
    var n := |lines| - 1;
    LayoutSlots(lines, height);
    NextPageSlot(n, LinesPerPage(height));
    assert n + LinesPerPage(height) == |lines| + LinesPerPage(height) - 1;
  }

  /** A report none of whose lines is wider than 110 characters is drawn word for word. */
  lemma NarrowReportRoundTrip(report: string, height: int)
    requires forall i :: 0 <= i < |Lines.Split(report)| ==> |Lines.Split(report)[i]| <= LineWidth
    ensures Lines.Join(Texts(RenderReport(report, height))) == report
  {
    var segments := Lines.Split(report);
    var placed := RenderReport(report, height);
    assert Texts(placed) == segments;
    Lines.JoinSplit(report);
  }
}
