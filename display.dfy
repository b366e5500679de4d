/** The byte grid of bedit.py's display_bytes: byte `line * width + i` is drawn
    at screen row `line`, column `3 * i`, as its two hexadecimal digits and a
    space; only complete rows are drawn, and at most 40 of them. */
module Display {
  import opened Hex

  /** One element of the data list: `ord` of a file byte. */
  type Byte = x: nat | x < 256

  /** display_bytes stops after this many rows. */
  const MaxRows: nat := 40
  /** Column stride of one cell: two hex digits and a space. */
  const CellStride: nat := 3
  /** display_bytes' default row width. */
  const DefaultWidth: int := 8
  /** The row width bedit_main asks for. */
  const FileWidth: int := 16

  /** One `scr.addstr(row, col, text)` call. */
  datatype Draw = Draw(row: int, col: int, text: string)

  /** The curses window, seen only through the calls made on it. */
  class Screen {
    var log: seq<Draw>

    constructor ()
      ensures log == []
    {
      log := [];
    }

    method AddStr(row: int, col: int, text: string)
      modifies this
      ensures log == old(log) + [Draw(row, col, text)]
    {
      log := log + [Draw(row, col, text)];
    }
  }

  /** Python 2 `a / b` on integers: division rounding toward minus infinity. */
  function FloorDiv(a: int, b: int): (q: int)
    requires b != 0
    ensures b > 0 ==> q * b <= a < q * b + b
    ensures b < 0 ==> q * b + b < a <= q * b
  {
    if b > 0 then a / b else (-a) / (-b)
  }

  /** How many times the outer loop of display_bytes runs for n bytes:
      the rows `line` with `line < n / width and line < 40`. */
  function DrawnRows(n: nat, width: int): nat
    requires width != 0
  {
    var q := FloorDiv(n, width);
    if q <= 0 then 0 else if q < MaxRows then q else MaxRows
  }

  /** The draw made for byte index k. */
  function Cell(data: seq<Byte>, width: int, k: nat): Draw
    requires 0 < width && k < |data|
  {
    Draw(k / width, (k % width) * CellStride, RepData(data[k]) + " ")
  }

  /** The draws for byte indices 0 .. count - 1, in index order. */
  function Cells(data: seq<Byte>, width: int, count: nat): seq<Draw>
    requires 0 < width && count <= |data|
  {
    seq(count, k requires 0 <= k < count => Cell(data, width, k))
  }

  /** Number of draws: every cell of every drawn row. */
  function DrawCount(n: nat, width: int): (c: nat)
    requires 0 < width
    ensures c <= n
  {
    RowsFit(n, width);
    DrawnRows(n, width) * width
  }

  /** The whole sequence of draws display_bytes makes. */
  function Layout(data: seq<Byte>, width: int): seq<Draw>
    requires width != 0
  {
    if width < 0 then [] else Cells(data, width, DrawCount(|data|, width))
  }

  /** display_bytes(scr, data, width): draws each byte of every complete row
      (at most 40 rows) at its grid cell, in increasing index order. */
  method DisplayBytes(scr: Screen, data: seq<Byte>, width: int := DefaultWidth)
    requires width != 0
    modifies scr
    ensures scr.log == old(scr.log) + Layout(data, width)
  {
    var line := 0;
    ghost var start := 0;  // line * width, the index of the row's first byte
    while line < FloorDiv(|data|, width) && line < MaxRows
      invariant 0 <= line <= DrawnRows(|data|, width)
      invariant start == line * width
      invariant width < 0 ==> line == 0 && scr.log == old(scr.log)
      invariant width > 0 ==> start <= |data|
      invariant width > 0 ==> scr.log == old(scr.log) + Cells(data, width, start)
    {
      RowStart(|data|, width, line);
      DisplayRow(scr, data, width, line, start);
      CellsRow(data, width, line, start);
      AppendAssoc(old(scr.log), Cells(data, width, start), RowCells(data, line, start, width));
      line := line + 1;
      start := start + width;
    }
    assert line == DrawnRows(|data|, width);
    assert width > 0 ==> start == DrawCount(|data|, width);
  }

  /** The draws of one complete row `line`, whose first byte has index
      `start`: column i shows byte `start + i` at column `3 * i`. */
  function RowCells(data: seq<Byte>, line: nat, start: nat, width: nat): seq<Draw>
    requires start + width <= |data|
  {
    seq(width, i requires 0 <= i < width => Draw(line, i * CellStride, RepData(data[start + i]) + " "))
  }

  /** The body of display_bytes' outer loop for row `line`: the `for i`
      loop, which draws the row's cells in column order. */
  method DisplayRow(scr: Screen, data: seq<Byte>, width: int, line: nat, ghost start: nat)
    requires 0 < width && start == line * width && start + width <= |data|
    modifies scr
    ensures scr.log == old(scr.log) + RowCells(data, line, start, width)
  {
    var i := 0;
    while i < width
      invariant 0 <= i <= width
      invariant scr.log == old(scr.log) + RowCells(data, line, start, width)[..i]
    {
      var k := line * width + i;
      assert k == start + i;
      if k < |data| {
        scr.AddStr(line, i * CellStride, RepData(data[k]) + " ");
        PrefixSnoc(RowCells(data, line, start, width), i);
        AppendAssoc(old(scr.log), RowCells(data, line, start, width)[..i], [RowCells(data, line, start, width)[i]]);
      }
      i := i + 1;
    }
    assert RowCells(data, line, start, width)[..width] == RowCells(data, line, start, width);
  }

  /** bedit_main's call: the file's bytes drawn sixteen to a row. */
  method DisplayFile(scr: Screen, data: seq<Byte>)
    modifies scr
    ensures scr.log == old(scr.log) + Layout(data, FileWidth)
  {
    DisplayBytes(scr, data, FileWidth);
  }

  // ---------------------------------------------------------------------
  // Arithmetic helpers

  lemma MulLe(a: int, b: int, c: nat)
    requires a <= b
    ensures a * c <= b * c
  {
    var d := b - a;
    assert b * c == a * c + d * c;
  }

  lemma MulSucc(a: int, w: int)
    ensures (a + 1) * w == a * w + w
  {
  }

  /** Division by a positive width is determined by quotient and remainder. */
  lemma DivModUnique(k: int, w: int, q: int, r: int)
    requires 0 < w && 0 <= r < w && k == q * w + r
    ensures k / w == q && k % w == r
  {
    var q', r' := k / w, k % w;
    assert k == q' * w + r';
    if q' > q {
      MulLe(q + 1, q', w);
      MulSucc(q, w);
    } else if q' < q {
      MulLe(q' + 1, q, w);
      MulSucc(q', w);
    }
  }

  /** The quotient-remainder decomposition, in the order the layout uses it. */
  lemma DivMod(k: int, w: int)
    requires 0 < w
    ensures k == (k / w) * w + k % w
    ensures 0 <= k % w < w
  {
  }

  lemma TimesStride(r: int)
    ensures (r * CellStride) % CellStride == 0
    ensures (r * CellStride) / CellStride == r
  {
    DivModUnique(r * CellStride, CellStride, r, 0);
  }

  /** Increasing indices move forward in row-major order. */
  lemma RowMajor(j: nat, k: nat, w: int)
    requires 0 < w && j < k
    ensures j / w <= k / w
    ensures j / w == k / w ==> j % w < k % w
  {
    DivMod(j, w);
    DivMod(k, w);
    if j / w > k / w {
      MulLe(k / w + 1, j / w, w);
      MulSucc(k / w, w);
    }
  }

  /** Index k = line * width + i sits on row `line`, column `i`. */
  lemma RowCol(width: int, line: nat, i: nat, k: int)
    requires 0 <= i < width && k == line * width + i
    ensures k / width == line && k % width == i
  {
    DivModUnique(k, width, line, i);
  }

  /** Column i of a row before `rows` has an index below rows * width. */
  lemma IndexBelow(width: int, line: nat, i: nat, rows: nat)
    requires 0 <= i < width && line < rows
    ensures line * width + i < rows * width
  {
    MulLe(line + 1, rows, width);
    MulSucc(line, width);
  }

  /** An index below width * rows lies on one of the first rows. */
  lemma RowBelow(k: nat, width: int, rows: nat)
    requires 0 < width && k < rows * width
    ensures 0 <= k / width < rows
  {
    assert k == (k / width) * width + k % width;
    if k / width >= rows {
      MulLe(rows, k / width, width);
    }
  }

  lemma RowsFit(n: nat, width: int)
    requires 0 < width
    ensures DrawnRows(n, width) * width <= n
  {
    var q := n / width;
    assert q * width <= n;
    MulLe(DrawnRows(n, width), q, width);
  }

  lemma PrefixFits(n: nat, width: int, line: nat)
    requires 0 < width && line <= DrawnRows(n, width)
    ensures line * width <= n
  {
    RowsFit(n, width);
    MulLe(line, DrawnRows(n, width), width);
  }

  /** Every cell's text is three characters long. */
  lemma TextLength(v: Byte)
    ensures |RepData(v) + " "| == CellStride
  {
    RepDataLength(v);
  }

  lemma PrefixSnoc(a: seq<Draw>, i: nat)
    requires i < |a|
    ensures a[..i + 1] == a[..i] + [a[i]]
  {
  }

  /** Drawing row `line` extends the cells of the rows before it by the
      cells of that row. */
  lemma CellsRow(data: seq<Byte>, width: int, line: nat, start: nat)
    requires 0 < width && start == line * width && start + width <= |data|
    ensures Cells(data, width, start + width) == Cells(data, width, start) + RowCells(data, line, start, width)
  {
    var a := Cells(data, width, start + width);
    var b := Cells(data, width, start) + RowCells(data, line, start, width);
    assert |a| == |b|;
    forall m | 0 <= m < |a|
      ensures a[m] == b[m]
    {
      if m < start {
        assert a[m] == Cell(data, width, m) == b[m];
      } else {
        RowCol(width, line, m - start, m);
        CellInRow(data, width, line, start, m - start);
        assert a[m] == Cell(data, width, m);
        assert b[m] == RowCells(data, line, start, width)[m - start];
      }
    }
  }

  lemma CellInRow(data: seq<Byte>, width: int, line: nat, start: nat, i: nat)
    requires 0 <= i < width && start + width <= |data|
    requires (start + i) / width == line && (start + i) % width == i
    ensures Cell(data, width, start + i) == RowCells(data, line, start, width)[i]
  {
  }

  lemma AppendAssoc(a: seq<Draw>, b: seq<Draw>, c: seq<Draw>)
    ensures a + (b + c) == (a + b) + c
  {
  }

  /** The k-th draw of the layout is the cell of byte k. */
  lemma LayoutAt(data: seq<Byte>, width: int, k: nat)
    requires 0 < width && k < |Layout(data, width)|
    ensures k < |data|
    ensures Layout(data, width)[k] == Cell(data, width, k)
  {
  }

  // ---------------------------------------------------------------------
  // Properties of the layout

  /** Outer loop count: min(len(data) / width, 40) rows for a positive
      width; none for a negative one. */
  lemma DrawnRowsValue(n: nat, width: int)
    requires width != 0
    ensures width > 0 ==> DrawnRows(n, width) == (if n / width < MaxRows then n / width else MaxRows)
    ensures width < 0 ==> DrawnRows(n, width) == 0
  {
    if width < 0 {
      var q := FloorDiv(n, width);
      assert q * width >= 0;
      if q >= 1 {
        MulLe(width, 0, q);
      }
    }
  }

  /** A drawn row lies wholly inside data, and the next row starts one
      width further on. */
  lemma RowStart(n: nat, width: int, line: nat)
    requires width != 0 && line < FloorDiv(n, width) && line < MaxRows
    ensures 0 < width
    ensures line * width + width <= n
    ensures (line + 1) * width == line * width + width
  {
    DrawnRowsValue(n, width);
    PrefixFits(n, width, line + 1);
    MulSucc(line, width);
  }

  /** The guard at line 20 holds for every column of every drawn row: each
      index read is inside data. */
  lemma GuardHolds(n: nat, width: int, line: nat, i: nat)
    requires 0 < width
    requires line < DrawnRows(n, width) && i < width
    ensures line * width + i < n
  {
    PrefixFits(n, width, line + 1);
    MulSucc(line, width);
  }

  /** Number of draws and range of rows: width * min(len / width, 40) draws,
      all on rows 0 .. 39. */
  lemma LayoutShape(data: seq<Byte>, width: int)
    requires width != 0
    ensures width > 0 ==> |Layout(data, width)| == (if |data| / width < MaxRows then |data| / width else MaxRows) * width
    ensures width < 0 ==> Layout(data, width) == []
    ensures forall k :: 0 <= k < |Layout(data, width)| ==> 0 <= Layout(data, width)[k].row < MaxRows
  {
    DrawnRowsValue(|data|, width);
    if width > 0 {
      var rows := DrawnRows(|data|, width);
      forall k | 0 <= k < |Layout(data, width)|
        ensures 0 <= Layout(data, width)[k].row < MaxRows
      {
        LayoutAt(data, width, k);
        RowBelow(k, width, rows);
      }
    }
  }

  /** Only complete rows are drawn: the trailing len % width bytes never are,
      and when no more than 40 rows exist every complete row is drawn. */
  lemma LayoutFullRowsOnly(data: seq<Byte>, width: int)
    requires 0 < width
    ensures |Layout(data, width)| <= |data| - |data| % width
    ensures |data| / width <= MaxRows ==> |Layout(data, width)| == |data| - |data| % width
  {
    DrawnRowsValue(|data|, width);
    var q := |data| / width;
    assert |data| == q * width + |data| % width;
    MulLe(DrawnRows(|data|, width), q, width);
  }

  /** Byte `line * width + i` of a drawn row is written at row line,
      column 3 * i, as rep_data of that byte followed by a space. */
  lemma LayoutCellAt(data: seq<Byte>, width: int, line: nat, i: nat)
    requires 0 < width
    requires line < DrawnRows(|data|, width) && i < width
    ensures line * width + i < |Layout(data, width)|
    ensures Layout(data, width)[line * width + i]
         == Draw(line, i * CellStride, RepData(data[line * width + i]) + " ")
  {
    var k := line * width + i;
    IndexBelow(width, line, i, DrawnRows(|data|, width));
    LayoutAt(data, width, k);
    RowCol(width, line, i, k);
  }

  /** Every draw's position determines its byte index: row * width + col / 3
      gives back the index, with col a multiple of 3 inside the row. */
  lemma LayoutAddress(data: seq<Byte>, width: int, k: nat)
    requires 0 < width && k < |Layout(data, width)|
    ensures Layout(data, width)[k].col % CellStride == 0
    ensures 0 <= Layout(data, width)[k].col / CellStride < width
    ensures Layout(data, width)[k].row * width + Layout(data, width)[k].col / CellStride == k
  {
    LayoutAt(data, width, k);
    var q, r := k / width, k % width;
    DivMod(k, width);
    TimesStride(r);
  }

  /** No two draws share a cell. */
  lemma LayoutCellsDistinct(data: seq<Byte>, width: int, j: nat, k: nat)
    requires 0 < width && j < |Layout(data, width)| && k < |Layout(data, width)|
    requires j != k
    ensures (Layout(data, width)[j].row, Layout(data, width)[j].col)
         != (Layout(data, width)[k].row, Layout(data, width)[k].col)
  {
    LayoutAddress(data, width, j);
    LayoutAddress(data, width, k);
  }

  /** Draws come in row-major order, and on one row an earlier cell's text
      ends no later than a later cell's column: texts never overlap. */
  lemma LayoutOrdered(data: seq<Byte>, width: int, j: nat, k: nat)
    requires 0 < width && j < k < |Layout(data, width)|
    ensures Layout(data, width)[j].row <= Layout(data, width)[k].row
    ensures Layout(data, width)[j].row == Layout(data, width)[k].row ==>
              Layout(data, width)[j].col + |Layout(data, width)[j].text| <= Layout(data, width)[k].col
  {
    LayoutAt(data, width, j);
    LayoutAt(data, width, k);
    TextLength(data[j]);
    RowMajor(j, k, width);
  }

  /** Consecutive cells on one row touch: each three-character text ends
      exactly where the next cell begins; each row starts at column 0. */
  lemma LayoutContiguous(data: seq<Byte>, width: int, k: nat)
    requires 0 < width && k < |Layout(data, width)|
    ensures Layout(data, width)[k].col == 0 <==> k % width == 0
    ensures k + 1 < |Layout(data, width)| && Layout(data, width)[k].row == Layout(data, width)[k + 1].row ==>
              Layout(data, width)[k].col + |Layout(data, width)[k].text| == Layout(data, width)[k + 1].col
  {
    LayoutAt(data, width, k);
    RepDataByte(data[k]);
    if k + 1 < |Layout(data, width)| {
      LayoutAt(data, width, k + 1);
      var q, r := k / width, k % width;
      DivMod(k, width);
      if r + 1 < width {
        DivModUnique(k + 1, width, q, r + 1);
      } else {
        MulSucc(q, width);
        DivModUnique(k + 1, width, q + 1, 0);
      }
    }
  }

  /** Every draw lies inside a grid of 40 rows by 3 * width columns. */
  lemma LayoutFitsGrid(data: seq<Byte>, width: int, k: nat)
    requires 0 < width && k < |Layout(data, width)|
    ensures 0 <= Layout(data, width)[k].row < MaxRows
    ensures 0 <= Layout(data, width)[k].col
    ensures Layout(data, width)[k].col + |Layout(data, width)[k].text| <= width * CellStride
  {
    LayoutShape(data, width);
    assert Layout(data, width)[k] in Layout(data, width);
    LayoutAt(data, width, k);
    RepDataByte(data[k]);
  }

  /** The drawn text gives back the data: the k-th draw is two hex digits
      reading as data[k], then a space. */
  lemma LayoutDecodes(data: seq<Byte>, width: int, k: nat)
    requires 0 < width && k < |Layout(data, width)|
    ensures k < |data|
    ensures |Layout(data, width)[k].text| == CellStride
    ensures Layout(data, width)[k].text[2] == ' '
    ensures ParseHex(Layout(data, width)[k].text[..2]) == Some(data[k])
  {
    LayoutAt(data, width, k);
    var t := Layout(data, width)[k].text;
    RepDataByte(data[k]);
    RepDataRoundTrip(data[k]);
    assert t[..2] == RepData(data[k]);
  }

  /** The trailing partial row is never drawn: no draw lands on the row of
      any of the last len % width bytes. */
  lemma PartialRowNeverDrawn(data: seq<Byte>, width: int, k: nat)
    requires 0 < width && |data| - |data| % width <= k < |data|
    ensures forall j :: 0 <= j < |Layout(data, width)| ==> Layout(data, width)[j].row != k / width
  {
    var q := |data| / width;
    DivMod(|data|, width);
    DivModUnique(k, width, q, k - q * width);
    DrawnRowsValue(|data|, width);
    forall j | 0 <= j < |Layout(data, width)|
      ensures Layout(data, width)[j].row != k / width
    {
      LayoutAt(data, width, j);
      RowBelow(j, width, DrawnRows(|data|, width));
    }
  }
}
