/**
 * Writing a grid as Esri ASCII text: six header lines, then one line per
 * row holding one token per cell, each token followed by a space. Void cells
 * are written as a no-data sentinel -9999, -99999, ... chosen below every
 * value of the grid. `Float.toString` and the text of a double are
 * formatters outside the model; integers are written in decimal.
 */
module AsciiGridExporters {
  import opened Wrappers
  import opened Cells
  import opened Grids
  import opened AsciiGridReaders

  /** 10^k. */
  function Pow10(k: nat): (p: nat)
    ensures p >= 1
  {
    if k == 0 then 1 else 10 * Pow10(k - 1)
  }

  /** The candidate sentinel with k nines: -(10^k - 1). */
  function Sentinel(k: nat): real {
    -((Pow10(k) - 1) as real)
  }

  /** k nines. */
  function Nines(k: nat): (s: string)
    ensures |s| == k && forall i :: 0 <= i < k ==> s[i] == '9'
  {
    seq(k, _ => '9')
  }

  predicate IsDigit(ch: char) {
    '0' <= ch <= '9'
  }

  predicate IsDigits(s: string) {
    forall i :: 0 <= i < |s| ==> IsDigit(s[i])
  }

  /** The number a string of decimal digits denotes, most significant digit first. */
  function DigitsValue(s: string): nat
    requires IsDigits(s)
  {
    if |s| == 0 then 0 else 10 * DigitsValue(s[..|s| - 1]) + (s[|s| - 1] - '0') as nat
  }

  /** `Float.parseFloat` of "-" followed by digits, without rounding. */
  function NegativeValue(s: string): real
    requires |s| >= 1 && IsDigits(s[1..])
  {
    -(DigitsValue(s[1..]) as real)
  }

  /** k nines denote 10^k - 1. */
  lemma {:induction false} NinesValue(k: nat)
    ensures IsDigits(Nines(k)) && DigitsValue(Nines(k)) == Pow10(k) - 1
  {
    if k > 0 {
      assert Nines(k)[..k - 1] == Nines(k - 1);
      NinesValue(k - 1);
    }
  }

  /** The sentinels strictly decrease. */
  lemma {:induction false} SentinelDecreasing(j: nat, k: nat)
    requires j < k
    ensures Sentinel(k) < Sentinel(j)
    decreases k
  {
    if j < k - 1 {
      SentinelDecreasing(j, k - 1);
    }
  }

  /** 10^k exceeds k, which bounds the sentinel search. */
  lemma {:induction false} Pow10Above(k: nat)
    ensures Pow10(k) > k
  {
    if k > 0 {
      Pow10Above(k - 1);
    }
  }

  /** A cell of the raster holding at most x. */
  ghost predicate SomeValueAtMost(m: Raster, x: real) {
    exists r, c :: 0 <= r < |m| && 0 <= c < |m[r]| && m[r][c].Val? && m[r][c].r <= x
  }

  /** Every non-void cell of the raster lies above x. */
  ghost predicate AllValuesAbove(m: Raster, x: real) {
    forall r, c :: 0 <= r < |m| && 0 <= c < |m[r]| && m[r][c].Val? ==> x < m[r][c].r
  }

  /**
   * The no-data value `findVoidValue` chooses: the first of -9999, -99999,
   * ... below every value of the grid (below Float.MAX_VALUE when all cells
   * are void).
   */
  ghost predicate IsVoidValue(m: Raster, v: real) {
    exists k: nat :: k >= 4 && v == Sentinel(k) && v < FloatMax && AllValuesAbove(m, v) &&
      (k == 4 || SomeValueAtMost(m, Sentinel(k - 1)))
  }

  /** Only one value is the chosen no-data value. */
  lemma VoidValueUnique(m: Raster, v1: real, v2: real)
    requires IsVoidValue(m, v1) && IsVoidValue(m, v2)
    ensures v1 == v2
  {
    var k1: nat :| k1 >= 4 && v1 == Sentinel(k1) && AllValuesAbove(m, v1) && (k1 == 4 || SomeValueAtMost(m, Sentinel(k1 - 1)));
    var k2: nat :| k2 >= 4 && v2 == Sentinel(k2) && AllValuesAbove(m, v2) && (k2 == 4 || SomeValueAtMost(m, Sentinel(k2 - 1)));
    if k1 < k2 {
      NoValueAtMost(m, k1, k2 - 1);
    } else if k2 < k1 {
      NoValueAtMost(m, k2, k1 - 1);
    }
  }

  /** Below a sentinel that lies under every value there is no value. */
  lemma NoValueAtMost(m: Raster, j: nat, k: nat)
    requires j <= k && AllValuesAbove(m, Sentinel(j))
    ensures !SomeValueAtMost(m, Sentinel(k))
  {
    if j < k {
      SentinelDecreasing(j, k);
    }
  }

  /** A grid without values gets -9999. */
  lemma AllVoidGetsShortest(m: Raster, v: real)
    requires IsVoidValue(m, v)
    requires forall r, c :: 0 <= r < |m| && 0 <= c < |m[r]| ==> m[r][c] == Void
    ensures v == -9999.0
  {
    var k: nat :| k >= 4 && v == Sentinel(k) && (k == 4 || SomeValueAtMost(m, Sentinel(k - 1)));
    assert Pow10(4) == 10000;
  }

  /**
   * `findVoidValue`: starting from "-9999", a nine is appended as long as
   * the parsed string is not below the grid minimum.
   */
  method FindVoidValue(grid: Grid) returns (v: real)
    requires grid.Valid()
    ensures IsVoidValue(grid.Cells(), v)
  {
    var min, _ := grid.GetMinMax();
    ghost var k;
    v, k := SentinelBelow(min);
    ghost var m := grid.Cells();
    assert AllValuesAbove(m, v);
    if k > 4 {
      if min == FloatMax {
        assert false;
      }
      var r, c :| 0 <= r < grid.Rows() && 0 <= c < grid.Cols() && grid.data[r, c] == Val(min);
      assert m[r][c] == Val(min);
    }
  }

  /** The loop of `findVoidValue`: the first of -9999, -99999, ... below `min`. */
  method SentinelBelow(min: real) returns (v: real, ghost k: nat)
    ensures k >= 4 && v == Sentinel(k) && v < min && v < FloatMax
    ensures k == 4 || Sentinel(k - 1) >= min
  {
    var voidValue := "-9999";
    k := 4;
    ghost var bound: int := if 1.0 - min < 4.0 then 4 else (1.0 - min).Floor + 1;
    assert voidValue == "-" + Nines(4);
    NinesValue(4);
    while NegativeValue(voidValue) >= min
      invariant 4 <= k <= bound
      invariant voidValue == "-" + Nines(k) && voidValue[1..] == Nines(k)
      invariant IsDigits(voidValue[1..]) && NegativeValue(voidValue) == Sentinel(k)
      invariant k == 4 || Sentinel(k - 1) >= min
      decreases bound - k
    {
      Pow10Above(k);
      voidValue := voidValue + "9";
      k := k + 1;
      assert voidValue[1..] == Nines(k);
      NinesValue(k);
    }
    v := NegativeValue(voidValue);
    SentinelDecreasing(0, k);
  }

  /** `Integer.toString` of a non-negative integer. */
  function DecimalText(n: nat): (s: string)
    ensures |s| >= 1 && IsDigits(s)
  {
    if n < 10 then [('0' as int + n) as char]
    else DecimalText(n / 10) + [('0' as int + n % 10) as char]
  }

  /** The decimal text of n denotes n. */
  lemma {:induction false} DecimalTextValue(n: nat)
    ensures DigitsValue(DecimalText(n)) == n
  {
    var s := DecimalText(n);
    if n >= 10 {
      assert s[..|s| - 1] == DecimalText(n / 10);
      DecimalTextValue(n / 10);
    }
  }

  /** The tokens of a line, each followed by one space. */
  function JoinTokens(ts: seq<string>): string {
    if |ts| == 0 then "" else ts[0] + " " + JoinTokens(ts[1..])
  }

  lemma {:induction false} JoinTokensAppend(ts: seq<string>, t: string)
    ensures JoinTokens(ts + [t]) == JoinTokens(ts) + t + " "
  {
    if |ts| > 0 {
      assert (ts + [t])[1..] == ts[1..] + [t];
      JoinTokensAppend(ts[1..], t);
    }
  }

  /** The lines of a text, each followed by the line separator. */
  function JoinLines(ls: seq<string>, lineSeparator: string): string {
    if |ls| == 0 then "" else ls[0] + lineSeparator + JoinLines(ls[1..], lineSeparator)
  }

  lemma {:induction false} JoinLinesAppend(ls: seq<string>, l: string, lineSeparator: string)
    ensures JoinLines(ls + [l], lineSeparator) == JoinLines(ls, lineSeparator) + l + lineSeparator
  {
    if |ls| > 0 {
      assert (ls + [l])[1..] == ls[1..] + [l];
      JoinLinesAppend(ls[1..], l, lineSeparator);
    }
  }

  lemma {:induction false} JoinLinesConcat(ls: seq<string>, ms: seq<string>, lineSeparator: string)
    ensures JoinLines(ls + ms, lineSeparator) == JoinLines(ls, lineSeparator) + JoinLines(ms, lineSeparator)
  {
    if |ls| > 0 {
      assert (ls + ms)[1..] == ls[1..] + ms;
      JoinLinesConcat(ls[1..], ms, lineSeparator);
    } else {
      assert ls + ms == ms;
    }
  }

  /** The token of a cell: the sentinel's text for a void cell. */
  function CellText(x: Cell, voidValueText: string, floatText: real -> string): string {
    if x.Void? then voidValueText else floatText(x.r)
  }

  /** The tokens of one row. */
  function RowTokens(row: seq<Cell>, voidValueText: string, floatText: real -> string): (ts: seq<string>)
    ensures |ts| == |row|
    ensures forall c :: 0 <= c < |row| ==> ts[c] == CellText(row[c], voidValueText, floatText)
  {
    seq(|row|, c requires 0 <= c < |row| => CellText(row[c], voidValueText, floatText))
  }

  /** The text of a double, as string concatenation writes it. */
  type DoubleText = real -> string

  /** The six header lines, in the order the reader expects. */
  function HeaderLines(cols: nat, rows: nat, west: real, south: real, cellSize: real,
                       voidValueText: string, doubleText: DoubleText): (ls: seq<string>)
    ensures |ls| == 6
    ensures ls[0] == "ncols " + DecimalText(cols) && ls[1] == "nrows " + DecimalText(rows)
    ensures ls[2] == "xllcorner " + doubleText(west) && ls[3] == "yllcorner " + doubleText(south)
    ensures ls[4] == "cellsize " + doubleText(cellSize) && ls[5] == "nodata_value " + voidValueText
  {
    ["ncols " + DecimalText(cols),
     "nrows " + DecimalText(rows),
     "xllcorner " + doubleText(west),
     "yllcorner " + doubleText(south),
     "cellsize " + doubleText(cellSize),
     "nodata_value " + voidValueText]
  }

  /** The line of one row: its tokens, each followed by a space. */
  function RowLine(row: seq<Cell>, voidValueText: string, floatText: real -> string): string {
    JoinTokens(RowTokens(row, voidValueText, floatText))
  }

  /** The body: one line per row, rows north to south. */
  function BodyLines(m: Raster, voidValueText: string, floatText: real -> string): (ls: seq<string>)
    ensures |ls| == |m|
    ensures forall r :: 0 <= r < |m| ==> ls[r] == RowLine(m[r], voidValueText, floatText)
  {
    if |m| == 0 then []
    else BodyLines(m[..|m| - 1], voidValueText, floatText) + [RowLine(m[|m| - 1], voidValueText, floatText)]
  }

  /** The whole file written for grid g with no-data value v. */
  function ExportText(g: GridValue, v: real, doubleText: DoubleText, floatText: real -> string, lineSeparator: string): string
    requires g.Valid()
  {
    JoinLines(HeaderLines(g.Cols(), g.Rows(), g.west, g.south, g.cellSize, floatText(v), doubleText) +
              BodyLines(g.cells, floatText(v), floatText), lineSeparator)
  }

  /** The six header lines joined, one write each. */
  lemma HeaderText(h: seq<string>, lineSeparator: string)
    requires |h| == 6
    ensures JoinLines(h, lineSeparator) ==
      h[0] + lineSeparator + h[1] + lineSeparator + h[2] + lineSeparator +
      h[3] + lineSeparator + h[4] + lineSeparator + h[5] + lineSeparator
  {
    assert h[5..][1..] == [];
    assert JoinLines(h[5..], lineSeparator) == h[5] + lineSeparator;
    assert h[4..][1..] == h[5..];
    assert JoinLines(h[4..], lineSeparator) == h[4] + lineSeparator + JoinLines(h[5..], lineSeparator);
    assert h[3..][1..] == h[4..];
    assert JoinLines(h[3..], lineSeparator) == h[3] + lineSeparator + JoinLines(h[4..], lineSeparator);
    assert h[2..][1..] == h[3..];
    assert JoinLines(h[2..], lineSeparator) == h[2] + lineSeparator + JoinLines(h[3..], lineSeparator);
    assert h[1..][1..] == h[2..];
    assert JoinLines(h[1..], lineSeparator) == h[1] + lineSeparator + JoinLines(h[2..], lineSeparator);
  }

  /**
   * `export`: the header lines, then for every row its tokens, each followed
   * by a space, and the line separator. The text is what `ExportText`
   * describes for the no-data value `findVoidValue` chooses.
   */
  method Export(grid: Grid, doubleText: DoubleText, floatText: real -> string, lineSeparator: string)
      returns (text: string)
    requires grid.Valid()
    ensures exists v :: IsVoidValue(grid.Cells(), v) && text == ExportText(grid.Snapshot(), v, doubleText, floatText, lineSeparator)
  {
    var voidValue := FindVoidValue(grid);
    var voidValueStr := floatText(voidValue);
    text := ExportHeader(grid, voidValueStr, doubleText, lineSeparator);
    text := ExportBody(grid, text, voidValueStr, floatText, lineSeparator);
    JoinLinesConcat(HeaderLines(grid.Cols(), grid.Rows(), grid.west, grid.south, grid.cellSize, voidValueStr, doubleText),
      BodyLines(grid.Cells(), voidValueStr, floatText), lineSeparator);
  }

  /** The six header writes of `export`. */
  method ExportHeader(grid: Grid, voidValueStr: string, doubleText: DoubleText, lineSeparator: string)
      returns (text: string)
    requires grid.Valid()
    ensures text == JoinLines(HeaderLines(grid.Cols(), grid.Rows(), grid.west, grid.south, grid.cellSize, voidValueStr, doubleText), lineSeparator)
  {
    var ncols := "ncols " + DecimalText(grid.Cols());
    var nrows := "nrows " + DecimalText(grid.Rows());
    var west := "xllcorner " + doubleText(grid.west);
    var south := "yllcorner " + doubleText(grid.south);
    var cellSize := "cellsize " + doubleText(grid.cellSize);
    var noData := "nodata_value " + voidValueStr;
    text := ncols + lineSeparator;
    text := text + nrows + lineSeparator;
    text := text + west + lineSeparator;
    text := text + south + lineSeparator;
    text := text + cellSize + lineSeparator;
    text := text + noData + lineSeparator;
    ghost var h := HeaderLines(grid.Cols(), grid.Rows(), grid.west, grid.south, grid.cellSize, voidValueStr, doubleText);
    assert h == [ncols, nrows, west, south, cellSize, noData];
    HeaderText(h, lineSeparator);
  }

  /** One more row of the body adds its line and a line separator. */
  lemma BodyStep(m: Raster, r: int, voidValueText: string, floatText: real -> string, lineSeparator: string)
    requires 0 <= r < |m|
    ensures JoinLines(BodyLines(m[..r + 1], voidValueText, floatText), lineSeparator) ==
      JoinLines(BodyLines(m[..r], voidValueText, floatText), lineSeparator) + RowLine(m[r], voidValueText, floatText) + lineSeparator
  {
    assert m[..r + 1][..r] == m[..r];
    JoinLinesAppend(BodyLines(m[..r], voidValueText, floatText), RowLine(m[r], voidValueText, floatText), lineSeparator);
  }

  /** The row loop of `export`: every row's line, followed by the line separator. */
  method ExportBody(grid: Grid, text: string, voidValueStr: string, floatText: real -> string, lineSeparator: string)
      returns (text': string)
    requires grid.Valid()
    ensures text' == text + JoinLines(BodyLines(grid.Cells(), voidValueStr, floatText), lineSeparator)
  {
    ghost var m := grid.Cells();
    text' := text;
    assert BodyLines(m[..0], voidValueStr, floatText) == [];
    for r := 0 to grid.Rows()
      invariant text' == text + JoinLines(BodyLines(m[..r], voidValueStr, floatText), lineSeparator)
    {
      text' := ExportLine(grid, r, text, text', voidValueStr, floatText, lineSeparator);
    }
    assert m[..grid.Rows()] == m;
  }

  /** One iteration of the row loop of `export`: row r's line, then the line separator. */
  method ExportLine(grid: Grid, r: int, ghost text: string, soFar: string, voidValueStr: string, floatText: real -> string,
                    lineSeparator: string) returns (text': string)
    requires grid.Valid() && 0 <= r < grid.Rows()
    requires soFar == text + JoinLines(BodyLines(grid.Cells()[..r], voidValueStr, floatText), lineSeparator)
    ensures text' == text + JoinLines(BodyLines(grid.Cells()[..r + 1], voidValueStr, floatText), lineSeparator)
  {
    ghost var m := grid.Cells();
    ghost var done := JoinLines(BodyLines(m[..r], voidValueStr, floatText), lineSeparator);
    ghost var line := RowLine(m[r], voidValueStr, floatText);
    text' := ExportRow(grid, r, soFar, voidValueStr, floatText);
    text' := text' + lineSeparator;
    assert text' == text + (done + line + lineSeparator);
    BodyStep(m, r, voidValueStr, floatText, lineSeparator);
  }

  /** The inner loop of `export`: the tokens of row r, each followed by a space. */
  method ExportRow(grid: Grid, r: int, text: string, voidValueStr: string, floatText: real -> string)
      returns (text': string)
    requires grid.Valid() && 0 <= r < grid.Rows()
    ensures text' == text + RowLine(grid.Cells()[r], voidValueStr, floatText)
  {
    ghost var row := grid.Cells()[r];
    text' := text;
    for c := 0 to grid.Cols()
      invariant text' == text + JoinTokens(RowTokens(row[..c], voidValueStr, floatText))
    {
      var v := grid.data[r, c];
      if v.Void? {
        text' := text' + voidValueStr;
      } else {
        text' := text' + floatText(v.r);
      }
      text' := text' + " ";
      assert RowTokens(row[..c + 1], voidValueStr, floatText) ==
        RowTokens(row[..c], voidValueStr, floatText) + [CellText(row[c], voidValueStr, floatText)];
      JoinTokensAppend(RowTokens(row[..c], voidValueStr, floatText), CellText(row[c], voidValueStr, floatText));
    }
    assert row[..grid.Cols()] == row;
  }

  /** A token followed by a space: the tokenizer's run ends at the space. */
  lemma {:induction false} TokenLengthAtSpace(t: string, rest: string)
    requires forall i :: 0 <= i < |t| ==> !IsDelimiter(t[i])
    ensures TokenLength(t + " " + rest) == |t|
    decreases |t|
  {
    if |t| > 0 {
      assert (t + " " + rest)[1..] == t[1..] + " " + rest;
      TokenLengthAtSpace(t[1..], rest);
    }
  }

  /** The tokenizer splits a joined line back into its tokens. */
  lemma {:induction false} TokensOfJoin(ts: seq<string>)
    requires forall i :: 0 <= i < |ts| ==> IsToken(ts[i])
    ensures Tokens(JoinTokens(ts)) == ts
    decreases |ts|
  {
    if |ts| > 0 {
      var rest := JoinTokens(ts[1..]);
      var line := ts[0] + " " + rest;
      assert JoinTokens(ts) == line;
      TokenLengthAtSpace(ts[0], rest);
      assert line[..|ts[0]|] == ts[0];
      assert line[|ts[0]|..] == " " + rest;
      assert (" " + rest)[1..] == rest;
      TokensOfJoin(ts[1..]);
      assert ts == [ts[0]] + ts[1..];
    }
  }

  /** The cells of a raster, row after row. */
  function Flatten(m: Raster): seq<Cell> {
    if |m| == 0 then [] else Flatten(m[..|m| - 1]) + m[|m| - 1]
  }

  lemma {:induction false} FlattenLength(m: Raster, cols: int)
    requires IsRaster(m, cols, |m|)
    ensures |Flatten(m)| == |m| * cols
  {
    if |m| > 0 {
      FlattenLength(m[..|m| - 1], cols);
      assert (|m| - 1) * cols + cols == |m| * cols;
    }
  }

  /** Cell (r, c) of the raster is value r * cols + c of its row-major sequence. */
  lemma {:induction false} FlattenIndex(m: Raster, cols: int, r: int, c: int)
    requires IsRaster(m, cols, |m|) && 0 <= r < |m| && 0 <= c < cols
    ensures r * cols + c < |Flatten(m)| && Flatten(m)[r * cols + c] == m[r][c]
  {
    var init := m[..|m| - 1];
    FlattenLength(init, cols);
    if r < |m| - 1 {
      FlattenIndex(init, cols, r, c);
    }
  }

  /** The row-major sequence of a raster, cut back into rows, is that raster. */
  lemma FlattenRaster(m: Raster, cols: int)
    requires IsRaster(m, cols, |m|) && cols >= 0
    ensures |Flatten(m)| == |m| * cols && ValuesRaster(Flatten(m), cols, |m|) == m
  {
    FlattenLength(m, cols);
    var back := ValuesRaster(Flatten(m), cols, |m|);
    forall r | 0 <= r < |m|
      ensures back[r] == m[r]
    {
      forall c | 0 <= c < cols
        ensures back[r][c] == m[r][c]
      {
        FlattenIndex(m, cols, r, c);
      }
    }
  }

  /**
   * What the round trip needs of `Float.toString` and `Float.parseFloat`:
   * every text is a token, and parsing it gives back the number.
   */
  ghost predicate FormatsInvert(floatText: real -> string, parse: string -> Option<Cell>) {
    forall x :: IsToken(floatText(x)) && parse(floatText(x)) == Some(Val(x))
  }

  /** Every token of the written line parses, and decodes to its cell. */
  lemma RowDecodes(row: seq<Cell>, v: real, floatText: real -> string, parse: string -> Option<Cell>)
    requires FormatsInvert(floatText, parse)
    requires forall c :: 0 <= c < |row| && row[c].Val? ==> v < row[c].r
    ensures forall c :: 0 <= c < |row| ==>
      var t := RowTokens(row, floatText(v), floatText)[c];
      IsToken(t) && parse(t).Some? && Decode(parse(t).value, v) == row[c]
  {
    forall c | 0 <= c < |row|
      ensures var t := RowTokens(row, floatText(v), floatText)[c];
        IsToken(t) && parse(t).Some? && Decode(parse(t).value, v) == row[c]
    {
      if row[c].Void? {
        assert parse(floatText(v)) == Some(Val(v));
      } else {
        assert parse(floatText(row[c].r)) == Some(Val(row[c].r));
      }
    }
  }

  /** A line whose tokens all parse and fit is stored without exception. */
  lemma {:induction false} LineFits(s: ConsumerSetup, tokens: seq<string>, acc: seq<Cell>)
    requires |acc| + |tokens| <= s.NbrValues()
    requires forall j :: 0 <= j < |tokens| ==> s.parse(tokens[j]).Some?
    ensures LineValues(s, tokens, acc).1.None?
    decreases |tokens|
  {
    if |tokens| > 0 {
      assert tokens[1..][0..] == tokens[1..];
      LineFits(s, tokens[1..], acc + [Decode(s.parse(tokens[0]).value, s.noDataValue)]);
    }
  }

  /** The written line of a row whose values lie above the void value is stored after `acc` as that row's cells. */
  lemma LineOfRowStored(s: ConsumerSetup, row: seq<Cell>, floatText: real -> string, acc: seq<Cell>)
    requires |acc| + |row| <= s.NbrValues()
    requires FormatsInvert(floatText, s.parse)
    requires forall c :: 0 <= c < |row| && row[c].Val? ==> s.noDataValue < row[c].r
    ensures LineValues(s, Tokens(RowLine(row, floatText(s.noDataValue), floatText)), acc) == (acc + row, None)
  {
    var tokens := RowTokens(row, floatText(s.noDataValue), floatText);
    assert Tokens(RowLine(row, floatText(s.noDataValue), floatText)) == tokens by {
      TokensOfJoin(tokens);
    }
    RowDecodes(row, s.noDataValue, floatText, s.parse);
    LineFits(s, tokens, acc);
    var r := LineValues(s, tokens, acc);
    forall j | 0 <= j < |acc + row|
      ensures r.0[j] == (acc + row)[j]
    {
      if j >= |acc| {
        assert r.0[|acc| + (j - |acc|)] == Decode(s.parse(tokens[j - |acc|]).value, s.noDataValue);
      } else {
        assert r.0[..|acc|][j] == acc[j];
      }
    }
    assert r.0 == acc + row;
  }

  /** The written line of row i, consumed after rows 0 .. i-1, adds exactly that row's cells. */
  lemma RowStored(s: ConsumerSetup, m: Raster, floatText: real -> string, i: nat)
    requires s.Valid() && IsRaster(m, s.nCols, s.nRows) && i < |m|
    requires FormatsInvert(floatText, s.parse) && AllValuesAbove(m, s.noDataValue)
    ensures LineValues(s, Tokens(RowLine(m[i], floatText(s.noDataValue), floatText)), Flatten(m[..i])) ==
      (Flatten(m[..i + 1]), None)
    ensures i + 1 < |m| ==> |Flatten(m[..i + 1])| < s.NbrValues()
  {
    assert m[..i + 1][..i] == m[..i];
    assert Flatten(m[..i + 1]) == Flatten(m[..i]) + m[i];
    FlattenLength(m[..i], s.nCols);
    FlattenLength(m[..i + 1], s.nCols);
    RowsFit(i, s.nRows, s.nCols);
    LineOfRowStored(s, m[i], floatText, Flatten(m[..i]));
  }

  /**
   * The consumer over the written body from row i on, having stored the
   * rows before i: it stores every cell and stops after the last row.
   */
  lemma {:induction false} ConsumeBody(s: ConsumerSetup, m: Raster, floatText: real -> string, i: nat)
    requires s.Valid() && s.progress.None? && IsRaster(m, s.nCols, s.nRows) && i < |m|
    requires FormatsInvert(floatText, s.parse) && AllValuesAbove(m, s.noDataValue)
    ensures ConsumeFrom(s, BodyLines(m, floatText(s.noDataValue), floatText), i, Flatten(m[..i])) ==
      ConsumerRun(Flatten(m), None, false)
    decreases |m| - i
  {
    var lines := BodyLines(m, floatText(s.noDataValue), floatText);
    RowStored(s, m, floatText, i);
    var o := LineStep(s, lines[i], i, Flatten(m[..i]));
    if i + 1 < |m| {
      assert o == Continue(Flatten(m[..i + 1]));
      ConsumeBody(s, m, floatText, i + 1);
    } else {
      assert m[..i + 1] == m;
      FlattenLength(m, s.nCols);
      assert |Flatten(m)| == s.NbrValues();
      assert o == Stop(ConsumerRun(Flatten(m), None, false));
    }
  }

  /** Rows 0 .. i fit in the grid, with room left when row i is not the last. */
  lemma RowsFit(i: nat, rows: int, cols: int)
    requires i < rows && cols >= 0
    ensures (i + 1) * cols <= rows * cols
    ensures i + 1 < rows && cols > 0 ==> (i + 1) * cols < rows * cols
  {
    IntMulLeq(i + 1, rows, cols);
    if i + 1 < rows && cols > 0 {
      IntMulLeq(i + 2, rows, cols);
      assert (i + 2) * cols == (i + 1) * cols + cols;
    }
  }

  /**
   * Round trip: reading the exported body back, with the exported no-data
   * value and without a progress indicator, stores every cell in place,
   * void cells as void, and ends without exception.
   */
  lemma ExportRoundTrip(g: GridValue, v: real, floatText: real -> string, parse: string -> Option<Cell>)
    requires g.Valid() && IsVoidValue(g.cells, v) && FormatsInvert(floatText, parse)
    ensures var s := ConsumerSetup(g.Cols(), g.Rows(), v, parse, None);
      var r := Consume(s, BodyLines(g.cells, floatText(v), floatText));
      r == ConsumerRun(Flatten(g.cells), None, false) &&
      ValuesRaster(r.values, g.Cols(), g.Rows()) == g.cells
  {
    var s := ConsumerSetup(g.Cols(), g.Rows(), v, parse, None);
    assert g.cells[..0] == [];
    ConsumeBody(s, g.cells, floatText, 0);
    FlattenRaster(g.cells, g.Cols());
  }
}
