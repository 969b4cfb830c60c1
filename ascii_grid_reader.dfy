/**
 * Reading the body of an Esri ASCII grid. A producer hands the lines of the
 * file to a consumer through a queue, the first body line (returned by the
 * header reader) first; here the consumer runs sequentially over that list
 * of lines, and the end of the list is the end-of-file marker. Tokens are
 * separated by spaces and tabs; token k goes to column k % cols and row
 * k / cols.
 */
module AsciiGridReaders {
  import opened Wrappers
  import opened Cells
  import opened Grids

  const InvalidMessage: string := "invalid Esri Ascii grid file"
  const CorruptMessage: string := "corrupt Esri Ascii grid file"

  /** The delimiters of the tokenizer. */
  predicate IsDelimiter(ch: char) {
    ch == ' ' || ch == '\t'
  }

  /** A token: at least one character, none of them a delimiter. */
  predicate IsToken(t: string) {
    |t| > 0 && forall i :: 0 <= i < |t| ==> !IsDelimiter(t[i])
  }

  /** The length of the run of non-delimiters that starts `s`. */
  function TokenLength(s: string): (k: nat)
    ensures k <= |s|
    ensures forall i :: 0 <= i < k ==> !IsDelimiter(s[i])
    ensures k < |s| ==> IsDelimiter(s[k])
  {
    if |s| == 0 || IsDelimiter(s[0]) then 0 else 1 + TokenLength(s[1..])
  }

  /** `StringTokenizer(s, " \t")`: the maximal runs of non-delimiters, in order. */
  function Tokens(s: string): (ts: seq<string>)
    ensures forall i :: 0 <= i < |ts| ==> IsToken(ts[i])
    decreases |s|
  {
    if |s| == 0 then []
    else if IsDelimiter(s[0]) then Tokens(s[1..])
    else
      var k := TokenLength(s);
      [s[..k]] + Tokens(s[k..])
  }

  /** A parsed value equal to the no-data value is stored as void; NaN compares unequal and stays void. */
  function Decode(v: Cell, noDataValue: real): (c: Cell)
    ensures c == Void <==> v == Void || v == Val(noDataValue)
    ensures c.Val? ==> c == v
  {
    if v == Val(noDataValue) then Void else v
  }

  /** What the consumer is handed: the grid's shape, the no-data value, the parser and the progress indicator. */
  datatype ConsumerSetup = ConsumerSetup(
    nCols: int,
    nRows: int,
    noDataValue: real,
    /** `Float.parseFloat`; `None` is a NumberFormatException. */
    parse: string -> Option<Cell>,
    /** The answer of the progress indicator to its report after line i at a percentage; false aborts. */
    progress: Option<(nat, int) -> bool>)
  {
    predicate Valid() {
      nCols >= 3 && nRows >= 3
    }

    function NbrValues(): int {
      nRows * nCols
    }
  }

  /** The exception `Float.parseFloat` throws for a malformed token. */
  function NumberFormat(token: string): Failure {
    IllegalArgument("For input string: \"" + token + "\"")
  }

  /**
   * The token loop of one line, with `acc` the values stored so far: the
   * count is advanced and checked against rows * cols before the token is
   * parsed, then the decoded value is stored.
   */
  function LineValues(s: ConsumerSetup, tokens: seq<string>, acc: seq<Cell>): (r: (seq<Cell>, Option<Failure>))
    ensures |acc| <= |r.0| && r.0[..|acc|] == acc
    ensures |acc| <= s.NbrValues() ==> |r.0| <= s.NbrValues()
    ensures |r.0| <= |acc| + |tokens|
    ensures r.1.None? ==> |r.0| == |acc| + |tokens|
    ensures forall j :: 0 <= j < |r.0| - |acc| ==>
      s.parse(tokens[j]).Some? && r.0[|acc| + j] == Decode(s.parse(tokens[j]).value, s.noDataValue)
    decreases |tokens|
  {
    if |tokens| == 0 then (acc, None)
    else if |acc| + 1 > s.NbrValues() then (acc, Some(IOFailure(CorruptMessage)))
    else match s.parse(tokens[0])
      case None => (acc, Some(NumberFormat(tokens[0])))
      case Some(v) =>
        var a := acc + [Decode(v, s.noDataValue)];
        var r := LineValues(s, tokens[1..], a);
        assert forall j :: 0 < j < |r.0| - |acc| ==> tokens[j] == tokens[1..][j - 1];
        assert r.0[|acc|] == a[|acc|];
        r
  }

  /** The percentage reported after a line: the row reached, plus one, over the row count. */
  function Percent(counter: int, nCols: int, nRows: int): int
    requires nCols > 0 && nRows > 0
  {
    Trunc((counter / nCols + 1) as real / nRows as real * 100.0)
  }

  /** How a run of the consumer ends: the values stored in order, the exception, and whether the user aborted. */
  datatype ConsumerRun = ConsumerRun(values: seq<Cell>, error: Option<Failure>, aborted: bool)

  /** The outcome of one pass of the consumer loop: go on with the values so far, or stop. */
  datatype LineOutcome = Continue(next: seq<Cell>) | Stop(run: ConsumerRun)

  /**
   * One pass of the consumer loop over line i: its tokens, then the progress
   * report, which may abort, then the test whether rows * cols values are in.
   */
  function LineStep(s: ConsumerSetup, line: string, i: nat, acc: seq<Cell>): (o: LineOutcome)
    requires s.Valid()
    ensures o.Continue? ==> |acc| <= |o.next| < s.NbrValues() && o.next[..|acc|] == acc
    ensures o.Stop? ==> |acc| <= |o.run.values| && o.run.values[..|acc|] == acc
    ensures o.Stop? && |acc| <= s.NbrValues() ==> |o.run.values| <= s.NbrValues()
    ensures o.Stop? && o.run.error.None? && !o.run.aborted && |acc| <= s.NbrValues() ==> |o.run.values| == s.NbrValues()
  {
    var (next, err) := LineValues(s, Tokens(line), acc);
    if err.Some? then Stop(ConsumerRun(next, err, false))
    else if s.progress.Some? && !s.progress.value(i, Percent(|next|, s.nCols, s.nRows)) then Stop(ConsumerRun(next, None, true))
    else if |next| < s.NbrValues() then Continue(next)
    else Stop(ConsumerRun(next, None, false))
  }

  /**
   * The consumer loop from line i on, with `acc` the values stored so far.
   * Line |lines| is the end-of-file marker. A run that ends without exception
   * and without an abort has stored exactly rows * cols values, because
   * meeting the end of the file first is the "invalid" exception; an abort
   * is never an exception, and needs a progress indicator.
   */
  function ConsumeFrom(s: ConsumerSetup, lines: seq<string>, i: nat, acc: seq<Cell>): (r: ConsumerRun)
    requires s.Valid() && i <= |lines|
    ensures |acc| <= |r.values| && r.values[..|acc|] == acc
    ensures |acc| <= s.NbrValues() ==> |r.values| <= s.NbrValues()
    ensures r.error.None? && !r.aborted && |acc| <= s.NbrValues() ==> |r.values| == s.NbrValues()
    ensures r.aborted ==> r.error.None? && s.progress.Some?
    decreases |lines| - i
  {
    if i == |lines| then
      ConsumerRun(acc, if |acc| != s.NbrValues() then Some(IOFailure(InvalidMessage)) else None, false)
    else
      match LineStep(s, lines[i], i, acc)
      case Stop(r) => r
      case Continue(next) => ConsumeFrom(s, lines, i + 1, next)
  }

  /** A whole run of the consumer over the body lines. */
  function Consume(s: ConsumerSetup, lines: seq<string>): ConsumerRun
    requires s.Valid()
  {
    ConsumeFrom(s, lines, 0, [])
  }

  /** A line holding more tokens than values still missing ends in the "corrupt" exception, unless a token fails to parse first. */
  lemma {:induction false} TooManyTokens(s: ConsumerSetup, tokens: seq<string>, acc: seq<Cell>)
    requires |acc| <= s.NbrValues() < |acc| + |tokens|
    ensures var r := LineValues(s, tokens, acc);
      r.1.Some? && (r.1.value == IOFailure(CorruptMessage) <==> |r.0| == s.NbrValues())
    decreases |tokens|
  {
    if |acc| + 1 <= s.NbrValues() && s.parse(tokens[0]).Some? {
      TooManyTokens(s, tokens[1..], acc + [Decode(s.parse(tokens[0]).value, s.noDataValue)]);
    }
  }

  /**
   * Once rows * cols values are stored at the end of a line the consumer
   * stops: lines after that point are never read.
   */
  lemma {:induction false} LaterLinesIgnored(s: ConsumerSetup, lines: seq<string>, extra: seq<string>, i: nat, acc: seq<Cell>)
    requires s.Valid() && i < |lines| && |acc| < s.NbrValues()
    requires ConsumeFrom(s, lines, i, acc).error.None?
    ensures ConsumeFrom(s, lines + extra, i, acc) == ConsumeFrom(s, lines, i, acc)
    decreases |lines| - i
  {
    assert (lines + extra)[i] == lines[i];
    var o := LineStep(s, lines[i], i, acc);
    if o.Continue? {
      LaterLinesIgnored(s, lines, extra, i + 1, o.next);
    }
  }

  /** Row r, column c of a full run's values: `values[r * cols + c]`. */
  function ValuesRaster(values: seq<Cell>, cols: int, rows: int): (m: Raster)
    requires cols >= 0 && rows >= 0 && |values| == rows * cols
    ensures IsRaster(m, cols, rows)
  {
    seq(rows, r requires 0 <= r < rows => seq(cols, c requires 0 <= c < cols =>
      RowMajorInRange(r, c, cols, rows); values[r * cols + c]))
  }

  /** The cells of `a` hold `values` in row-major order where there are values, and `before` elsewhere. */
  ghost predicate Placed(a: array2<Cell>, before: Raster, values: seq<Cell>)
    reads a
  {
    IsRaster(before, a.Length1, a.Length0) &&
    forall r, c :: 0 <= r < a.Length0 && 0 <= c < a.Length1 ==>
      a[r, c] == if r * a.Length1 + c < |values| then values[r * a.Length1 + c] else before[r][c]
  }

  /** Once all rows * cols values are placed, the cells are the values' raster. */
  lemma PlacedAll(a: array2<Cell>, before: Raster, values: seq<Cell>)
    requires Placed(a, before, values) && |values| == a.Length0 * a.Length1
    ensures RasterOf(a) == ValuesRaster(values, a.Length1, a.Length0)
  {
    var m := ValuesRaster(values, a.Length1, a.Length0);
    forall r, c | 0 <= r < a.Length0 && 0 <= c < a.Length1
      ensures a[r, c] == m[r][c]
    {
      RowMajorInRange(r, c, a.Length1, a.Length0);
    }
    RasterOfEq(a, m);
  }

  /** The message of the exception the consumer leaves for the reading thread. */
  function MessageOf(f: Failure): string {
    match f
    case IllegalArgument(m) => m
    case IOFailure(m) => m
    case _ => ""
  }

  /**
   * A progress indicator: `answer` is what its `progress` call returns for
   * the report after line i at a percentage; a false answer is a request to
   * abort, which `isAborted` reports from then on.
   */
  class ProgressIndicator {
    const answer: (nat, int) -> bool
    var aborted: bool

    constructor (answer: (nat, int) -> bool)
      ensures this.answer == answer && !aborted
    {
      this.answer := answer;
      aborted := false;
    }

    /** `start`: a new run begins, not aborted. */
    method Start()
      modifies this
      ensures !aborted
    {
      aborted := false;
    }

    method Progress(line: nat, percent: int) returns (keepGoing: bool)
      modifies this
      ensures keepGoing == answer(line, percent) && aborted == (old(aborted) || !keepGoing)
    {
      keepGoing := answer(line, percent);
      if !keepGoing {
        aborted := true;
      }
    }
  }

  /** The answers of an indicator, `None` for a null one. */
  function Answers(p: ProgressIndicator?): Option<(nat, int) -> bool> {
    if p == null then None else Some(p.answer)
  }

  class Consumer {
    const grid: Grid
    const noDataValue: real
    /** `Float.parseFloat`. */
    const parse: string -> Option<Cell>
    const progressIndicator: ProgressIndicator?
    var counter: int

    constructor (grid: Grid, noDataValue: real, parse: string -> Option<Cell>, progressIndicator: ProgressIndicator?)
      ensures this.grid == grid && this.noDataValue == noDataValue && this.parse == parse
      ensures this.progressIndicator == progressIndicator && counter == 0
    {
      this.grid := grid;
      this.noDataValue := noDataValue;
      this.parse := parse;
      this.progressIndicator := progressIndicator;
      counter := 0;
    }

    function Setup(): ConsumerSetup
      reads this, grid
    {
      ConsumerSetup(grid.Cols(), grid.Rows(), noDataValue, parse, Answers(progressIndicator))
    }

    /**
     * `Consumer.run` over the body lines: the values land in row-major order,
     * the outcome is that of `Consume`, and after a run without exception the
     * counter is the number of values stored, or rows * cols after an abort.
     */
    method Run(lines: seq<string>) returns (err: Option<Failure>)
      requires grid.Valid() && counter == 0
      modifies this, grid.data, progressIndicator
      ensures var r := Consume(old(Setup()), lines);
        err == r.error &&
        (err.None? ==> counter == if r.aborted then grid.Rows() * grid.Cols() else |r.values|) &&
        Placed(grid.data, old(grid.Cells()), r.values) &&
        (progressIndicator != null ==> progressIndicator.aborted == (old(progressIndicator.aborted) || r.aborted))
    {
      var nbrValues := grid.Rows() * grid.Cols();
      ghost var s := Setup();
      ghost var before := grid.Cells();
      ghost var acc: seq<Cell> := [];
      ghost var wasAborted := progressIndicator != null && progressIndicator.aborted;
      var i := 0;
      while true
        invariant 0 <= i <= |lines| && s == Setup()
        invariant counter == |acc| <= nbrValues
        invariant Placed(grid.data, before, acc)
        invariant Consume(s, lines) == ConsumeFrom(s, lines, i, acc)
        invariant progressIndicator != null ==> progressIndicator.aborted == wasAborted
        decreases |lines| - i
      {
        if i == |lines| {
          if counter != nbrValues {
            return Some(IOFailure(InvalidMessage));
          }
          break;
        }
        var done;
        err, done, acc := ConsumeLine(lines[i], i, before, acc);
        if done {
          return err;
        }
        i := i + 1;
      }
      return None;
    }

    /**
     * One pass of the loop of `Consumer.run`: the tokens of line i, then the
     * progress report, then the test whether all values are in.
     */
    method ConsumeLine(line: string, i: nat, ghost before: Raster, ghost acc: seq<Cell>)
        returns (err: Option<Failure>, done: bool, ghost acc': seq<Cell>)
      requires grid.Valid() && counter == |acc| <= grid.Rows() * grid.Cols()
      requires Placed(grid.data, before, acc)
      modifies this, grid.data, progressIndicator
      ensures var o := LineStep(old(Setup()), line, i, acc);
        (done <==> o.Stop?) &&
        (o.Continue? ==> acc' == o.next && err.None? && counter == |acc'|) &&
        (o.Stop? ==> (acc' == o.run.values && err == o.run.error &&
          (err.None? ==> counter == if o.run.aborted then grid.Rows() * grid.Cols() else |acc'|))) &&
        (progressIndicator != null ==> progressIndicator.aborted == (old(progressIndicator.aborted) || (o.Stop? && o.run.aborted)))
      ensures Placed(grid.data, before, acc')
    {
      var nCols := grid.Cols();
      var nRows := grid.Rows();
      var tokens := Tokens(line);
      err, acc' := ReadTokens(tokens, before, acc);
      if err.Some? {
        return err, true, acc';
      }
      if progressIndicator != null {
        var row := counter / nCols;
        var perc := Trunc((row + 1) as real / nRows as real * 100.0);
        var keepGoing := progressIndicator.Progress(i, perc);
        if !keepGoing {
          counter := nRows * nCols;
          return None, true, acc';
        }
      }
      done := !(counter < nRows * nCols);
    }

    /** The token loop of one line of `Consumer.run`. */
    method ReadTokens(tokens: seq<string>, ghost before: Raster, ghost acc: seq<Cell>)
        returns (err: Option<Failure>, ghost acc': seq<Cell>)
      requires grid.Valid() && counter == |acc| <= grid.Rows() * grid.Cols()
      requires Placed(grid.data, before, acc)
      modifies this, grid.data
      ensures (acc', err) == LineValues(old(Setup()), tokens, acc)
      ensures err.None? ==> counter == |acc'|
      ensures Placed(grid.data, before, acc')
    {
      ghost var s := Setup();
      var nCols := grid.Cols();
      var nbrValues := grid.Rows() * nCols;
      acc' := acc;
      err := None;
      var j := 0;
      while j < |tokens|
        invariant 0 <= j <= |tokens| && s == Setup()
        invariant counter == |acc'| <= nbrValues
        invariant Placed(grid.data, before, acc')
        invariant LineValues(s, tokens, acc) == LineValues(s, tokens[j..], acc')
      {
        assert tokens[j..][1..] == tokens[j + 1..];
        var col := counter % nCols;
        var row := counter / nCols;
        counter := counter + 1;
        if counter > nbrValues {
          return Some(IOFailure(CorruptMessage)), acc';
        }
        var v := parse(tokens[j]);
        if v.None? {
          return Some(NumberFormat(tokens[j])), acc';
        }
        StoreValue(Decode(v.value, noDataValue), col, row, before, acc');
        acc' := acc' + [Decode(v.value, noDataValue)];
        j := j + 1;
      }
      assert tokens[j..] == [];
    }

    /** `grid.setValue` of the next value, at the column and row the count gives. */
    method StoreValue(v: Cell, col: int, row: int, ghost before: Raster, ghost values: seq<Cell>)
      requires grid.Valid() && |values| < grid.Rows() * grid.Cols()
      requires col == |values| % grid.Cols() && row == |values| / grid.Cols()
      requires Placed(grid.data, before, values)
      modifies grid.data
      ensures Placed(grid.data, before, values + [v])
    {
      PositionInRange(|values|, grid.Cols(), grid.Rows());
      grid.SetValue(v, col, row);
      var vs := values + [v];
      forall r, c | 0 <= r < grid.Rows() && 0 <= c < grid.Cols()
        ensures grid.data[r, c] == if r * grid.Cols() + c < |vs| then vs[r * grid.Cols() + c] else before[r][c]
      {
        if r * grid.Cols() + c == |values| {
          RowMajorUnique(|values|, grid.Cols(), r, c);
        }
      }
    }
  }

  /** The header values the reader needs. */
  datatype Header = Header(cols: int, rows: int, cellSize: real, west: real, south: real, noDataValue: real)

  /**
   * `read`: a grid of the header's shape is filled by the consumer from the
   * first body line and the remaining lines. An exception of the consumer is
   * re-raised as an IOException once it has finished; after an abort the
   * static `read` returns null.
   */
  method Read(header: Header, firstGridLine: string, rest: seq<string>,
              parse: string -> Option<Cell>, progressIndicator: ProgressIndicator?)
      returns (res: Result<Option<Grid>, Failure>)
    modifies progressIndicator
    ensures ConstructorCheck(header.cols, header.rows, header.cellSize).Some? ==>
      res == Failure(ConstructorCheck(header.cols, header.rows, header.cellSize).value) &&
      (progressIndicator != null ==> !progressIndicator.aborted)
    ensures ConstructorCheck(header.cols, header.rows, header.cellSize).None? ==> (
      var s := ConsumerSetup(header.cols, header.rows, header.noDataValue, parse, Answers(progressIndicator));
      var r := Consume(s, [firstGridLine] + rest);
      (progressIndicator != null ==> progressIndicator.aborted == r.aborted) &&
      (r.error.Some? ==> res == Failure(IOFailure(MessageOf(r.error.value)))) &&
      (r.error.None? && r.aborted ==> res == Success(None)) &&
      (r.error.None? && !r.aborted ==> (
        res.Success? && res.value.Some? && fresh(res.value.value) && res.value.value.Valid() &&
        res.value.value.Cols() == header.cols && res.value.value.Rows() == header.rows &&
        res.value.value.Snapshot() == GridValue(header.cellSize, header.west, header.south,
          ValuesRaster(r.values, header.cols, header.rows)))))
  {
    if progressIndicator != null {
      progressIndicator.Start();
    }
    var created := Grid.Create(header.cols, header.rows, header.cellSize);
    if created.Failure? {
      return Failure(created.error);
    }
    var grid := created.value;
    grid.west := header.west;
    grid.south := header.south;
    ghost var s := ConsumerSetup(header.cols, header.rows, header.noDataValue, parse, Answers(progressIndicator));
    ghost var before := grid.Cells();
    var consumer := new Consumer(grid, header.noDataValue, parse, progressIndicator);
    var lines := [firstGridLine] + rest;
    var err := consumer.Run(lines);
    if err.Some? {
      return Failure(IOFailure(MessageOf(err.value)));
    }
    ghost var r := Consume(s, lines);
    if progressIndicator != null && progressIndicator.aborted {
      return Success(None);
    }
    PlacedAll(grid.data, before, r.values);
    return Success(Some(grid));
  }
}
