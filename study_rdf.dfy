/** `GWASCatalog::Study.rdf`: the header line gives the keys, the prefix
    directives follow when requested, then each data line is printed as
    one Turtle block until the lines run out or an exception ends the run.
    The file is given as the sequence of lines `f.gets` returns. */
module StudyRdf {
  import opened RubyErrors
  import opened StudyHeader
  import opened StudyRecord
  import opened StudyTurtle
  import opened Prefixes

  /** The lines printed so far, and the exception that ended the run, if any. */
  datatype Run = Run(output: seq<string>, failure: Option<Error>)

  /** The body of the `while` loop for one data line: its record, then its block. */
  function RowBlock(keys: seq<string>, line: string): (r: Result<seq<string>>)
    ensures r.Ok? ==> |r.value| == 13
  {
    match ToRecord(keys, line)
    case Err(e) => Err(e)
    case Ok(record) => Turtle(record)
  }

  /** `RowBlock` with the keys fixed: what the loop does to each line. */
  function Renderer(keys: seq<string>): string -> Result<seq<string>> {
    line => RowBlock(keys, line)
  }

  /** A data line is printed exactly when it has one field per key and a
      `mapped_trait_uri` value among them; otherwise its exception is the
      one `transpose` or `nil.size` raises. */
  lemma RowBlockOutcome(keys: seq<string>, line: string)
    ensures RowBlock(keys, line).Ok? <==> |RowFields(line)| == |keys| && MappedTraitUri in keys
    ensures |RowFields(line)| != |keys| ==> RowBlock(keys, line) == Err(IndexError(|RowFields(line)|, |keys|))
    ensures |RowFields(line)| == |keys| && MappedTraitUri !in keys ==> RowBlock(keys, line) == Err(NoMethodError("size"))
  {
  }

  /** What each data line gives on its own, in file order. */
  function Outcomes(render: string -> Result<seq<string>>, rows: seq<string>): (r: seq<Result<seq<string>>>)
    ensures |r| == |rows|
    decreases |rows|
  {
    if rows == [] then []
    else Outcomes(render, rows[..|rows| - 1]) + [render(rows[|rows| - 1])]
  }

  /** The outcome of line `j` is what that line renders to. */
  lemma {:induction false} OutcomeAt(render: string -> Result<seq<string>>, rows: seq<string>, j: nat)
    requires j < |rows|
    ensures Outcomes(render, rows)[j] == render(rows[j])
    decreases |rows|
  {
    var n := |rows| - 1;
    if j < n {
      OutcomeAt(render, rows[..n], j);
      assert rows[..n][j] == rows[j];
    }
  }

  /** The outcome of a data line is that line's block. */
  lemma RowOutcomeAt(keys: seq<string>, rows: seq<string>, j: nat)
    requires j < |rows|
    ensures Outcomes(Renderer(keys), rows)[j] == RowBlock(keys, rows[j])
  {
    OutcomeAt(Renderer(keys), rows, j);
  }

  /** Reading one more line adds that line's outcome. */
  lemma OutcomesSnoc(render: string -> Result<seq<string>>, rows: seq<string>, i: nat)
    requires i < |rows|
    ensures Outcomes(render, rows[..i + 1]) == Outcomes(render, rows[..i]) + [render(rows[i])]
  {
    assert rows[..i + 1][..i] == rows[..i];
  }

  /** The outcomes of a prefix of the lines are a prefix of the outcomes. */
  lemma {:induction false} OutcomesPrefix(render: string -> Result<seq<string>>, rows: seq<string>, n: nat)
    requires n <= |rows|
    ensures Outcomes(render, rows)[..n] == Outcomes(render, rows[..n])
    decreases |rows|
  {
    if n < |rows| {
      var m := |rows| - 1;
      OutcomesPrefix(render, rows[..m], n);
      assert rows[..m][..n] == rows[..n];
      assert Outcomes(render, rows)[..m] == Outcomes(render, rows[..m]);
    } else {
      assert rows[..n] == rows;
    }
  }

  /** The loop over the data lines: print each block in turn, stopping at
      the first line that raises. */
  function Sequence(results: seq<Result<seq<string>>>): (r: Run)
    ensures r.failure.Some? ==> exists j :: 0 <= j < |results| && results[j] == Err(r.failure.value)
    decreases |results|
  {
    if results == [] then Run([], None)
    else
      var done := Sequence(results[..|results| - 1]);
      if done.failure.Some? then done
      else
        match results[|results| - 1]
        case Ok(block) => Run(done.output + block, None)
        case Err(e) => Run(done.output, Some(e))
  }

  /** The directives printed before the first block. */
  function Preamble(emitPrefixes: bool): seq<string> {
    if emitPrefixes then PrefixBlock() else []
  }

  /** The run once the header has given `keys`: the directives, then the
      loop over the data lines `rows`. */
  function AfterHeader(keys: seq<string>, rows: seq<string>, emitPrefixes: bool): (r: Run)
    ensures Preamble(emitPrefixes) <= r.output
  {
    var loop := Sequence(Outcomes(Renderer(keys), rows));
    Run(Preamble(emitPrefixes) + loop.output, loop.failure)
  }

  /** The whole run over a file. An empty file makes `parse_header` call
      `chomp` on nil. The `$prefixes` flag is the `emitPrefixes` parameter. */
  function Convert(file: seq<string>, emitPrefixes: bool): (r: Run)
    ensures file == [] ==> r.output == [] && r.failure.Some?
    ensures file != [] ==> Preamble(emitPrefixes) <= r.output
  {
    if file == [] then Run([], Some(NoMethodError("chomp")))
    else AfterHeader(ParseHeader(file[0]), file[1..], emitPrefixes)
  }

  /** Once a line has raised, later lines change nothing. */
  lemma {:induction false} FailureIsFinal(results: seq<Result<seq<string>>>, n: nat)
    requires n <= |results|
    requires Sequence(results[..n]).failure.Some?
    ensures Sequence(results) == Sequence(results[..n])
    decreases |results|
  {
    if n < |results| {
      var front := results[..|results| - 1];
      assert front[..n] == results[..n];
      FailureIsFinal(front, n);
    } else {
      assert results[..n] == results;
    }
  }

  /** One more line: the run so far, extended by that line's outcome
      unless it has already raised. */
  lemma SequenceSnoc(results: seq<Result<seq<string>>>, next: Result<seq<string>>)
    ensures var done := Sequence(results);
      Sequence(results + [next]) ==
        if done.failure.Some? then done
        else if next.Ok? then Run(done.output + next.value, None)
        else Run(done.output, Some(next.error))
  {
    assert (results + [next])[..|results|] == results;
  }

  /** The `while line = f.gets` loop of `Study.rdf`: print each line's block
      until a line raises. */
  method PrintRows(render: string -> Result<seq<string>>, rows: seq<string>) returns (output: seq<string>, failure: Option<Error>)
    ensures Run(output, failure) == Sequence(Outcomes(render, rows))
  {
    output := [];
    failure := None;
    var i := 0;
    ghost var done: seq<Result<seq<string>>> := [];
    while i < |rows| && failure.None?
      invariant 0 <= i <= |rows|
      invariant done == Outcomes(render, rows[..i])
      invariant Run(output, failure) == Sequence(done)
    {
      var block := render(rows[i]);
      OutcomesSnoc(render, rows, i);
      SequenceSnoc(done, block);
      done := done + [block];
      i := i + 1;
      if block.Err? {
        failure := Some(block.error);
      } else {
        output := output + block.value;
      }
    }
    OutcomesPrefix(render, rows, i);
    if failure.Some? {
      FailureIsFinal(Outcomes(render, rows), i);
    } else {
      assert rows[..i] == rows;
    }
  }

  /** `Study.rdf`: read the header, print the prefixes if asked, then print
      one block per data line until a line raises. */
  method Rdf(file: seq<string>, emitPrefixes: bool) returns (output: seq<string>, failure: Option<Error>)
    ensures Run(output, failure) == Convert(file, emitPrefixes)
  {
    if |file| == 0 {
      return [], Some(NoMethodError("chomp"));
    }
    var keys := ParseHeader(file[0]);
    output := [];
    if emitPrefixes {
      output := EmitPrefixes();
    }
    var blocks;
    blocks, failure := PrintRows(Renderer(keys), file[1..]);
    output := output + blocks;
  }

  /** The run completes exactly when every line succeeds. */
  lemma {:induction false} SequenceCompletes(results: seq<Result<seq<string>>>)
    ensures Sequence(results).failure.None? <==> forall j :: 0 <= j < |results| ==> results[j].Ok?
    decreases |results|
  {
    if results != [] {
      var n := |results| - 1;
      SequenceCompletes(results[..n]);
      assert forall j :: 0 <= j < n ==> results[..n][j] == results[j];
    }
  }

  /** A completed run prints, in order, each line's thirteen-line block. */
  lemma {:induction false} SequenceBlocks(results: seq<Result<seq<string>>>)
    requires forall j :: 0 <= j < |results| ==> results[j].Ok? && |results[j].value| == 13
    ensures Sequence(results).failure.None?
    ensures |Sequence(results).output| == 13 * |results|
    ensures forall j :: 0 <= j < |results| ==>
              Sequence(results).output[13 * j .. 13 * j + 13] == results[j].value
    decreases |results|
  {
    if results != [] {
      var n := |results| - 1;
      var front := results[..n];
      var done := Sequence(front);
      var last := results[n];
      assert forall j :: 0 <= j < n ==> front[j] == results[j];
      SequenceBlocks(front);
      var out := Sequence(results).output;
      assert out == done.output + last.value;
      forall j | 0 <= j < |results| ensures out[13 * j .. 13 * j + 13] == results[j].value {
        if j < n {
          assert front[j] == results[j];
          assert out[13 * j .. 13 * j + 13] == done.output[13 * j .. 13 * j + 13];
        } else {
          assert out[13 * n ..] == last.value;
        }
      }
    }
  }

  /** A run that raises at line `j` has printed exactly the blocks of the
      lines before it, and reports that line's exception. */
  lemma StopsAtFirstFailure(results: seq<Result<seq<string>>>, j: nat)
    requires forall m :: 0 <= m < |results| && results[m].Ok? ==> |results[m].value| == 13
    requires j < |results|
    requires forall m :: 0 <= m < j ==> results[m].Ok?
    requires results[j].Err?
    ensures Sequence(results).failure == Some(results[j].error)
    ensures |Sequence(results).output| == 13 * j
    ensures Sequence(results).output == Sequence(results[..j]).output
    ensures forall m :: 0 <= m < j ==> Sequence(results).output[13 * m .. 13 * m + 13] == results[m].value
  {
    FirstFailureRun(results, j);
    SequenceBlocks(results[..j]);
  }

  /** The run up to the first failing line, then that line's exception. */
  lemma FirstFailureRun(results: seq<Result<seq<string>>>, j: nat)
    requires j < |results|
    requires forall m :: 0 <= m < j ==> results[m].Ok?
    requires results[j].Err?
    ensures Sequence(results) == Run(Sequence(results[..j]).output, Some(results[j].error))
  {
    var front := results[..j];
    SequenceCompletes(front);
    SequenceSnoc(front, results[j]);
    assert results[..j + 1] == front + [results[j]];
    FailureIsFinal(results, j + 1);
  }

  /** A data line whose field count differs from the key count makes the
      loop raise. */
  lemma RowsMismatchAborts(keys: seq<string>, rows: seq<string>, k: nat)
    requires k < |rows|
    requires |RowFields(rows[k])| != |keys|
    ensures Sequence(Outcomes(Renderer(keys), rows)).failure.Some?
  {
    RowBlockOutcome(keys, rows[k]);
    OutcomeAt(Renderer(keys), rows, k);
    SequenceCompletes(Outcomes(Renderer(keys), rows));
  }

  /** A data line whose field count differs from the key count ends the run
      with an exception; no line is padded or skipped. */
  lemma FieldCountMismatchAborts(keys: seq<string>, rows: seq<string>, emitPrefixes: bool, k: nat)
    requires k < |rows|
    requires |RowFields(rows[k])| != |keys|
    ensures AfterHeader(keys, rows, emitPrefixes).failure.Some?
  {
    RowsMismatchAborts(keys, rows, k);
  }

  /** Under a header with a `mapped_trait_uri` column, data lines with one
      field per key all succeed: the loop completes with one block per line. */
  lemma RowsComplete(keys: seq<string>, rows: seq<string>)
    requires MappedTraitUri in keys
    requires forall m :: 0 <= m < |rows| ==> |RowFields(rows[m])| == |keys|
    ensures Sequence(Outcomes(Renderer(keys), rows)).failure.None?
    ensures |Sequence(Outcomes(Renderer(keys), rows)).output| == 13 * |rows|
  {
    var results := Outcomes(Renderer(keys), rows);
    forall m | 0 <= m < |results| ensures results[m].Ok? && |results[m].value| == 13 {
      RowBlockOutcome(keys, rows[m]);
      RowOutcomeAt(keys, rows, m);
    }
    SequenceBlocks(results);
  }

  /** When every outcome is a thirteen-line block, the `j`-th block (counting
      from one) follows the preamble and the `j - 1` blocks before it. */
  lemma BlockAfterPreamble(pre: seq<string>, results: seq<Result<seq<string>>>, j: nat)
    requires forall m :: 0 <= m < |results| ==> results[m].Ok? && |results[m].value| == 13
    requires 1 <= j <= |results|
    ensures var out := pre + Sequence(results).output;
      |pre| + 13 * j <= |out| && out[|pre| + 13 * (j - 1) .. |pre| + 13 * j] == results[j - 1].value
  {
    SequenceBlocks(results);
    var blocks := Sequence(results).output;
    assert 13 * (j - 1) + 13 == 13 * j;
    assert forall k :: 13 * (j - 1) <= k < 13 * j ==> (pre + blocks)[|pre| + k] == blocks[k];
  }

  /** A file whose header has a `mapped_trait_uri` column and whose data
      lines all have one field per key is converted completely: the
      directives (when asked for), then one block per data line. */
  lemma ConvertCompletes(file: seq<string>, emitPrefixes: bool)
    requires |file| >= 1 && MappedTraitUri in ParseHeader(file[0])
    requires forall m :: 1 <= m < |file| ==> |RowFields(file[m])| == |ParseHeader(file[0])|
    ensures Convert(file, emitPrefixes).failure.None?
    ensures |Convert(file, emitPrefixes).output| == |Preamble(emitPrefixes)| + 13 * (|file| - 1)
    ensures Convert(file, emitPrefixes).output[..|Preamble(emitPrefixes)|] == Preamble(emitPrefixes)
  {
    var keys, rows := ParseHeader(file[0]), file[1..];
    forall m | 0 <= m < |rows| ensures |RowFields(rows[m])| == |keys| {
      assert rows[m] == file[m + 1];
    }
    RowsComplete(keys, rows);
    var pre, blocks := Preamble(emitPrefixes), Sequence(Outcomes(Renderer(keys), rows)).output;
    assert (pre + blocks)[..|pre|] == pre;
  }

  /** Under a header without a `mapped_trait_uri` column, the first data line
      with one field per key raises NoMethodError on `nil.size`, and only
      the directives have been printed. */
  lemma MissingMappedTraitColumn(file: seq<string>, emitPrefixes: bool)
    requires |file| >= 2
    requires MappedTraitUri !in ParseHeader(file[0])
    requires |RowFields(file[1])| == |ParseHeader(file[0])|
    ensures Convert(file, emitPrefixes) == Run(Preamble(emitPrefixes), Some(NoMethodError("size")))
  {
    var keys, rows := ParseHeader(file[0]), file[1..];
    DataLineAt(file, 1);
    RowBlockOutcome(keys, file[1]);
    RowOutcomeAt(keys, rows, 0);
    FirstLineRaises(Outcomes(Renderer(keys), rows), NoMethodError("size"));
  }

  /** A first data line whose field count differs from the key count raises
      IndexError in `transpose`, and only the directives have been printed. */
  lemma FirstLineWrongCount(file: seq<string>, emitPrefixes: bool)
    requires |file| >= 2
    requires |RowFields(file[1])| != |ParseHeader(file[0])|
    ensures Convert(file, emitPrefixes)
         == Run(Preamble(emitPrefixes), Some(IndexError(|RowFields(file[1])|, |ParseHeader(file[0])|)))
  {
    var keys, rows := ParseHeader(file[0]), file[1..];
    DataLineAt(file, 1);
    RowBlockOutcome(keys, file[1]);
    RowOutcomeAt(keys, rows, 0);
    FirstLineRaises(Outcomes(Renderer(keys), rows), IndexError(|RowFields(file[1])|, |keys|));
  }

  /** Data line `j` of the file is line `j - 1` of the rows after the header. */
  lemma DataLineAt(file: seq<string>, j: nat)
    requires 1 <= j < |file|
    ensures file[1..][j - 1] == file[j]
  {
  }

  /** When the first line raises, nothing is printed and the run reports its exception. */
  lemma FirstLineRaises(results: seq<Result<seq<string>>>, e: Error)
    requires |results| >= 1 && results[0] == Err(e)
    ensures Sequence(results) == Run([], Some(e))
  {
    assert results[..1] == [results[0]];
    assert Sequence(results[..1]) == Run([], Some(e));
    FailureIsFinal(results, 1);
  }

}
