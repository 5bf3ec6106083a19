/** `get_board_state` (gomoku.py): the board as text for the prompt. Two
    header lines carry the column numbers (tens digit above units digit, with
    every space of the header doubled), then one line per row: the row number
    in two characters, two spaces, and each cell's glyph followed by a space. */
module BoardText {
  import opened Wrappers
  import opened Chars
  import opened Board

  /** `piece_map`. */
  function Glyph(v: int): char
    requires Empty <= v <= White
  {
    if v == Empty then '空' else if v == Black then '黑' else '白'
  }

  /** The inverse of `piece_map`; other characters are no cell. */
  function CellOf(ch: char): (r: Option<int>)
    ensures r.Some? ==> Empty <= r.value <= White && Glyph(r.value) == ch
  {
    if ch == '空' then Some(Empty) else if ch == '黑' then Some(Black) else if ch == '白' then Some(White) else None
  }

  // ---------------------------------------------------------------------
  // The header

  /** `sep.join(parts)`. */
  function Join(parts: seq<string>, sep: string): string {
    if parts == [] then ""
    else if |parts| == 1 then parts[0]
    else Join(parts[..|parts| - 1], sep) + sep + parts[|parts| - 1]
  }

  /** `s.replace(" ", "  ")`. */
  function Widen(s: string): string {
    if s == [] then "" else Widen(s[..|s| - 1]) + (if s[|s| - 1] == ' ' then "  " else [s[|s| - 1]])
  }

  /** The first character of a number's decimal numeral, and the second
      (a space for a one-digit number). */
  function Tens(i: nat): string {
    if i < 10 then Digits(i) else Digits(i)[..1]
  }

  function Units(i: nat): string {
    if i >= 10 then Digits(i)[1..2] else " "
  }

  /** `[str(i) if i < 10 else str(i)[0] for i in range(n)]` and the units row alike. */
  function TensLabels(n: nat): (r: seq<string>)
    ensures |r| == n && forall i :: 0 <= i < n ==> r[i] == Tens(i)
  {
    if n == 0 then [] else TensLabels(n - 1) + [Tens(n - 1)]
  }

  function UnitsLabels(n: nat): (r: seq<string>)
    ensures |r| == n && forall i :: 0 <= i < n ==> r[i] == Units(i)
  {
    if n == 0 then [] else UnitsLabels(n - 1) + [Units(n - 1)]
  }

  /** One header line before the doubling of spaces. */
  function LabelLine(labels: seq<string>): string {
    "   " + Join(labels, " ") + "\n"
  }

  /** The two header lines for `n` columns. */
  function HeaderOf(n: nat): string {
    Widen(LabelLine(TensLabels(n)) + LabelLine(UnitsLabels(n)))
  }

  const Header: string := HeaderOf(Size)

  /** The two header lines are 110 characters long. */
  const HeaderLength := 110

  lemma HeaderSize()
    ensures |Header| == HeaderLength
  {
    HeaderLengthOf(Size);
  }

  // ---------------------------------------------------------------------
  // The rows

  /** Each cell's glyph followed by a space, in column order. */
  function Cells(row: seq<int>): string
    requires forall j :: 0 <= j < |row| ==> Empty <= row[j] <= White
  {
    if row == [] then "" else Cells(row[..|row| - 1]) + [Glyph(row[|row| - 1]), ' ']
  }

  function RowLine(r: nat, row: seq<int>): string
    requires forall j :: 0 <= j < |row| ==> Empty <= row[j] <= White
  {
    Tens(r) + Units(r) + "  " + Cells(row) + "\n"
  }

  /** The lines of the first `n` rows. */
  function Rows(g: Grid, n: nat): string
    requires WellFormed(g) && n <= Size
  {
    if n == 0 then "" else Rows(g, n - 1) + RowLine(n - 1, g[n - 1])
  }

  /** One more cell of a row. */
  lemma CellsStep(row: seq<int>, c: nat)
    requires c < |row| && forall j :: 0 <= j < |row| ==> Empty <= row[j] <= White
    ensures Cells(row[..c + 1]) == Cells(row[..c]) + [Glyph(row[c]), ' ']
  {
    assert row[..c + 1][..c] == row[..c];
  }

  /** One more row line after whatever text precedes the rows. */
  lemma RowsStep(h: string, g: Grid, r: nat)
    requires WellFormed(g) && r < Size
    ensures h + Rows(g, r) + RowLine(r, g[r]) == h + Rows(g, r + 1)
  {
  }

  /** The text `get_board_state` returns. */
  function Render(g: Grid): string
    requires WellFormed(g)
  {
    Header + Rows(g, Size)
  }

  // ---------------------------------------------------------------------
  // Layout

  /** Length of a row line: two label characters, two spaces, two characters per cell, a line break. */
  const LineLength := 35

  /** Where the glyph of cell (r, c) sits in the rendered text. */
  function Offset(r: int, c: int): int {
    HeaderLength + LineLength * r + 4 + 2 * c
  }

  lemma {:induction false} CellsLayout(row: seq<int>)
    requires forall j :: 0 <= j < |row| ==> Empty <= row[j] <= White
    ensures |Cells(row)| == 2 * |row|
    ensures forall c :: 0 <= c < |row| ==> Cells(row)[2 * c] == Glyph(row[c]) && Cells(row)[2 * c + 1] == ' '
    ensures '\n' !in Cells(row)
    decreases |row|
  {
    if row != [] {
      CellsLayout(row[..|row| - 1]);
    }
  }

  lemma LabelLayout(r: nat)
    requires r < 100
    ensures |Tens(r)| == 1 && |Units(r)| == 1
    ensures Tens(r)[0] != '\n' && Units(r)[0] != '\n'
  {
  }

  lemma RowLineLayout(r: nat, row: seq<int>)
    requires r < 100 && |row| == Size && forall j :: 0 <= j < |row| ==> Empty <= row[j] <= White
    ensures |RowLine(r, row)| == LineLength
    ensures CountChar(RowLine(r, row), '\n') == 1
  {
    LabelLayout(r);
    CellsLayout(row);
    var lead := Tens(r) + Units(r) + "  ";
    assert RowLine(r, row) == lead + Cells(row) + "\n";
    NoCharCount(lead + Cells(row), '\n');
    CountCharAppend(lead + Cells(row), "\n", '\n');
  }

  lemma RowLineGlyph(r: nat, row: seq<int>, c: nat)
    requires r < 100 && |row| == Size && forall j :: 0 <= j < |row| ==> Empty <= row[j] <= White
    requires c < Size
    ensures 4 + 2 * c < |RowLine(r, row)| && RowLine(r, row)[4 + 2 * c] == Glyph(row[c])
  {
    LabelLayout(r);
    CellsLayout(row);
    var lead := Tens(r) + Units(r) + "  ";
    assert RowLine(r, row) == lead + Cells(row) + "\n";
    assert RowLine(r, row)[4 + 2 * c] == Cells(row)[2 * c];
  }

  lemma {:induction false} NoCharCount(s: string, ch: char)
    requires ch !in s
    ensures CountChar(s, ch) == 0
    decreases |s|
  {
    if s != [] {
      assert forall k :: 0 <= k < |s| - 1 ==> s[..|s| - 1][k] == s[k];
      NoCharCount(s[..|s| - 1], ch);
    }
  }

  /** Every row line is `LineLength` long and ends the only line break in it. */
  lemma {:induction false} RowsShape(g: Grid, n: nat)
    requires WellFormed(g) && n <= Size
    ensures |Rows(g, n)| == LineLength * n
    ensures CountChar(Rows(g, n), '\n') == n
    decreases n
  {
    if n > 0 {
      var prev, line := Rows(g, n - 1), RowLine(n - 1, g[n - 1]);
      var all := Rows(g, n);
      RowsShape(g, n - 1);
      RowLineLayout(n - 1, g[n - 1]);
      assert all == prev + line;
      assert |all| == LineLength * n;
      assert CountChar(all, '\n') == n by {
        CountCharAppend(prev, line, '\n');
      }
    }
  }

  /** Cell (r, c) sits at column `4 + 2c` of row line r. */
  lemma {:induction false} RowsGlyph(g: Grid, n: nat, r: nat, c: nat)
    requires WellFormed(g) && n <= Size && r < n && c < Size
    ensures LineLength * r + 4 + 2 * c < |Rows(g, n)|
    ensures Rows(g, n)[LineLength * r + 4 + 2 * c] == Glyph(g[r][c])
    decreases n
  {
    var prev, line := Rows(g, n - 1), RowLine(n - 1, g[n - 1]);
    var all := Rows(g, n);
    var k := LineLength * r + 4 + 2 * c;
    assert |prev| == LineLength * (n - 1) by {
      RowsShape(g, n - 1);
    }
    assert all == prev + line;
    if r < n - 1 {
      assert k < |prev| && prev[k] == Glyph(g[r][c]) by {
        RowsGlyph(g, n - 1, r, c);
      }
    } else {
      assert 4 + 2 * c < |line| && line[4 + 2 * c] == Glyph(g[r][c]) by {
        RowLineGlyph(n - 1, g[n - 1], c);
      }
    }
  }

  /** The two header lines hold no line break but their own. */
  lemma {:induction false} JoinNoBreak(parts: seq<string>, sep: string)
    requires '\n' !in sep && forall i :: 0 <= i < |parts| ==> '\n' !in parts[i]
    ensures '\n' !in Join(parts, sep)
    decreases |parts|
  {
    if |parts| > 1 {
      JoinNoBreak(parts[..|parts| - 1], sep);
    }
  }

  lemma {:induction false} WidenCount(s: string, ch: char)
    requires ch != ' '
    ensures CountChar(Widen(s), ch) == CountChar(s, ch)
    decreases |s|
  {
    if s != [] {
      var last := s[|s| - 1];
      WidenCount(s[..|s| - 1], ch);
      CountCharAppend(Widen(s[..|s| - 1]), if last == ' ' then "  " else [last], ch);
      assert CountChar("  ", ch) == 0 by {
        NoCharCount("  ", ch);
      }
    }
  }

  /** A header line holds one line break, at its end. */
  lemma LabelLineBreaks(labels: seq<string>)
    requires forall i :: 0 <= i < |labels| ==> '\n' !in labels[i]
    ensures CountChar(LabelLine(labels), '\n') == 1
  {
    JoinNoBreak(labels, " ");
    NoCharCount("   " + Join(labels, " "), '\n');
    CountCharAppend("   " + Join(labels, " "), "\n", '\n');
  }

  lemma {:induction false} HeaderBreaks(n: nat)
    requires n <= 100
    ensures CountChar(HeaderOf(n), '\n') == 2
  {
    var tens, units := TensLabels(n), UnitsLabels(n);
    forall i | 0 <= i < n
      ensures '\n' !in tens[i] && '\n' !in units[i]
    {
      LabelLayout(i);
    }
    LabelLineBreaks(tens);
    LabelLineBreaks(units);
    CountCharAppend(LabelLine(tens), LabelLine(units), '\n');
    WidenCount(LabelLine(tens) + LabelLine(units), '\n');
  }

  /** How many labels are a lone space. */
  function Blanks(parts: seq<string>): nat {
    if parts == [] then 0 else Blanks(parts[..|parts| - 1]) + (if parts[|parts| - 1] == " " then 1 else 0)
  }

  /** Doubling the spaces adds one character per space. */
  lemma {:induction false} WidenLength(s: string)
    ensures |Widen(s)| == |s| + CountChar(s, ' ')
    decreases |s|
  {
    if s != [] {
      WidenLength(s[..|s| - 1]);
    }
  }

  lemma OneCharSpaces(x: string)
    requires |x| == 1
    ensures CountChar(x, ' ') == if x == " " then 1 else 0
  {
    assert x[..0] == [];
    assert x == [x[0]];
  }

  /** One-character labels joined by single spaces. */
  lemma {:induction false} JoinShape(parts: seq<string>)
    requires |parts| > 0 && forall i :: 0 <= i < |parts| ==> |parts[i]| == 1
    ensures |Join(parts, " ")| == 2 * |parts| - 1
    ensures CountChar(Join(parts, " "), ' ') == |parts| - 1 + Blanks(parts)
    decreases |parts|
  {
    var init, last := parts[..|parts| - 1], parts[|parts| - 1];
    OneCharSpaces(last);
    if |parts| > 1 {
      JoinShape(init);
      var j := Join(init, " ");
      assert Join(parts, " ") == j + " " + last;
      CountCharAppend(j, " ", ' ');
      CountCharAppend(j + " ", last, ' ');
      OneCharSpaces(" ");
    } else {
      assert init == [];
    }
  }

  /** No column's first label character is a space. */
  lemma {:induction false} TensBlanks(n: nat)
    ensures Blanks(TensLabels(n)) == 0
  {
    if n > 0 {
      TensBlanks(n - 1);
      var t := TensLabels(n);
      assert t[..n - 1] == TensLabels(n - 1);
      assert Tens(n - 1)[0] == Digits(n - 1)[0];
    }
  }

  /** The second label character is a space exactly for the first ten columns. */
  lemma {:induction false} UnitsBlanks(n: nat)
    ensures Blanks(UnitsLabels(n)) == if n < 10 then n else 10
  {
    if n > 0 {
      UnitsBlanks(n - 1);
      var u := UnitsLabels(n);
      assert u[..n - 1] == UnitsLabels(n - 1);
      if n - 1 >= 10 {
        assert Units(n - 1)[0] == Digits(n - 1)[1];
      }
    }
  }

  /** A header line before widening: three spaces, the joined labels, a line break. */
  lemma LabelLineShape(labels: seq<string>)
    requires |labels| > 0 && forall i :: 0 <= i < |labels| ==> |labels[i]| == 1
    ensures |LabelLine(labels)| == 2 * |labels| + 3
    ensures CountChar(LabelLine(labels), ' ') == |labels| + 2 + Blanks(labels)
  {
    JoinShape(labels);
    var j := Join(labels, " ");
    assert LabelLine(labels) == "   " + j + "\n";
    CountCharAppend("   ", j, ' ');
    CountCharAppend("   " + j, "\n", ' ');
    assert CountChar("   ", ' ') == 3;
    assert CountChar("\n", ' ') == 0;
  }

  /** The header for `n` columns: two lines of `2n + 3` characters with their
      spaces doubled. */
  lemma HeaderLengthOf(n: nat)
    requires 0 < n <= 100
    ensures |HeaderOf(n)| == 6 * n + 10 + (if n < 10 then n else 10)
  {
    var t, u := TensLabels(n), UnitsLabels(n);
    forall i | 0 <= i < n
      ensures |t[i]| == 1 && |u[i]| == 1
    {
      LabelLayout(i);
    }
    LabelLineShape(t);
    LabelLineShape(u);
    TensBlanks(n);
    UnitsBlanks(n);
    var s := LabelLine(t) + LabelLine(u);
    WidenLength(s);
    CountCharAppend(LabelLine(t), LabelLine(u), ' ');
  }

  /** `get_board_state` has two header lines and one line per row. */
  lemma LineCount(g: Grid)
    requires WellFormed(g)
    ensures CountChar(Render(g), '\n') == 2 + Size
  {
    HeaderBreaks(Size);
    RowsShape(g, Size);
    CountCharAppend(Header, Rows(g, Size), '\n');
  }

  /** The text's length: the header and `Size` lines of `LineLength`. */
  lemma RenderLength(g: Grid)
    requires WellFormed(g)
    ensures |Render(g)| == HeaderLength + LineLength * Size
  {
    var rows := Rows(g, Size);
    assert Render(g) == Header + rows;
    HeaderSize();
    RowsShape(g, Size);
  }

  /** Each cell's glyph, in board order, at a fixed place in the text. */
  lemma GlyphAt(g: Grid, r: int, c: int)
    requires WellFormed(g) && InBounds(r, c)
    ensures Offset(r, c) < |Render(g)| && Render(g)[Offset(r, c)] == Glyph(g[r][c])
  {
    HeaderSize();
    GlyphAfter(Header, g, r, c);
  }

  /** The same after any text of the header's length. */
  lemma GlyphAfter(h: string, g: Grid, r: int, c: int)
    requires WellFormed(g) && InBounds(r, c) && |h| == HeaderLength
    ensures Offset(r, c) < |h + Rows(g, Size)| && (h + Rows(g, Size))[Offset(r, c)] == Glyph(g[r][c])
  {
    var rows := Rows(g, Size);
    RowsGlyph(g, Size, r, c);
    IndexAfter(h, rows, LineLength * r + 4 + 2 * c);
  }

  lemma IndexAfter(a: string, b: string, k: nat)
    requires k < |b|
    ensures (a + b)[|a| + k] == b[k]
  {
  }

  // ---------------------------------------------------------------------
  // Reading the text back

  /** Read the glyph of every cell from its place; `None` when the text has
      the wrong length or a place holds no glyph. */
  function Decode(s: string): (r: Option<Grid>)
    ensures r.Some? ==> WellFormed(r.value)
  {
    if |s| != HeaderLength + LineLength * Size then None
    else if forall r, c :: 0 <= r < Size && 0 <= c < Size ==> CellOf(s[Offset(r, c)]).Some? then Some(Read(s))
    else None
  }

  function Read(s: string): (g: Grid)
    requires |s| == HeaderLength + LineLength * Size
    requires forall r, c :: 0 <= r < Size && 0 <= c < Size ==> CellOf(s[Offset(r, c)]).Some?
    ensures WellFormed(g)
    ensures forall r, c :: 0 <= r < Size && 0 <= c < Size ==> Some(g[r][c]) == CellOf(s[Offset(r, c)])
  {
    seq(Size, r requires 0 <= r < Size => ReadRow(s, r))
  }

  /** The cells of row `r`, read from their places. */
  function ReadRow(s: string, r: int): (row: seq<int>)
    requires |s| == HeaderLength + LineLength * Size && 0 <= r < Size
    requires forall c :: 0 <= c < Size ==> CellOf(s[Offset(r, c)]).Some?
    ensures |row| == Size
    ensures forall c :: 0 <= c < Size ==> Some(row[c]) == CellOf(s[Offset(r, c)]) && Empty <= row[c] <= White
  {
    seq(Size, c requires 0 <= c < Size => CellOf(s[Offset(r, c)]).value)
  }

  lemma GlyphCell(v: int)
    requires Empty <= v <= White
    ensures CellOf(Glyph(v)) == Some(v)
  {
  }

  /** The board can be read back from `get_board_state`'s text. */
  lemma RoundTrip(g: Grid)
    requires WellFormed(g)
    ensures Decode(Render(g)) == Some(g)
  {
    var s := Render(g);
    RenderLength(g);
    forall r, c | 0 <= r < Size && 0 <= c < Size
      ensures CellOf(s[Offset(r, c)]) == Some(g[r][c])
    {
      GlyphAt(g, r, c);
      GlyphCell(g[r][c]);
    }
    var h := Read(s);
    forall r | 0 <= r < Size
      ensures h[r] == g[r]
    {
      assert forall c :: 0 <= c < Size ==> h[r][c] == g[r][c];
    }
    assert h == g;
    assert Decode(s) == Some(h);
  }
}
