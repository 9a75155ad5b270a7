/** The row-to-record step of `GWASCatalog::Study.rdf`:
    `[keys, line.chomp.split("\t")].transpose.to_h`. */
module StudyRecord {
  import opened RubyString
  import opened RubyErrors

  /** A study record: the Hash from header keys to raw field text. */
  type Record = map<string, string>

  /** Column `i` is the last one carrying its key. */
  predicate LastWithKey(keys: seq<string>, i: nat)
    requires i < |keys|
  {
    forall j :: i < j < |keys| ==> keys[j] != keys[i]
  }

  /** `[keys, values].transpose.to_h` for rows of equal length: pair `i`
      binds `keys[i]` to `values[i]`, and a later pair overwrites an earlier
      one with the same key. */
  function Zip(keys: seq<string>, values: seq<string>): (r: Record)
    requires |keys| == |values|
    ensures forall k :: k in r <==> k in keys
    ensures forall i {:trigger r[keys[i]]} :: 0 <= i < |keys| && LastWithKey(keys, i) ==> r[keys[i]] == values[i]
    decreases |keys|
  {
    if keys == [] then map[]
    else
      var n := |keys| - 1;
      var front := Zip(keys[..n], values[..n]);
      assert keys == keys[..n] + [keys[n]];
      assert forall i :: 0 <= i < n && LastWithKey(keys, i) ==> LastWithKey(keys[..n], i);
      front[keys[n] := values[n]]
  }

  /** The fields of one data line: `line.chomp.split("\t")`. */
  function RowFields(line: string): (fields: seq<string>)
    ensures forall i :: 0 <= i < |fields| ==> FreeOf(fields[i], "\t")
    ensures fields == [] || fields[|fields| - 1] != ""
  {
    SplitFreeOfSeparator(Chomp(line), "\t");
    Split(Chomp(line), "\t")
  }

  /** One data line becomes a record when it has exactly as many fields as
      there are keys; otherwise `transpose` raises IndexError. No padding. */
  function ToRecord(keys: seq<string>, line: string): (r: Result<Record>)
    ensures r.Ok? <==> |RowFields(line)| == |keys|
    ensures r.Err? ==> r.error == IndexError(|RowFields(line)|, |keys|)
    ensures r.Ok? ==> forall k :: k in r.value <==> k in keys
    ensures r.Ok? ==> forall i {:trigger r.value[keys[i]]} :: 0 <= i < |keys| && LastWithKey(keys, i) ==> r.value[keys[i]] == RowFields(line)[i]
  {
    var values := RowFields(line);
    if |values| != |keys| then Err(IndexError(|values|, |keys|))
    else Ok(Zip(keys, values))
  }

  /** A line written as tab-separated fields (none holding a tab) and a
      line ending ("\n", "\r\n", a final lone "\r" or none) is accepted
      exactly when, after its trailing empty fields are dropped, it has one
      field per key; then each key that occurs once is bound to its own
      column. A short row, or a full-length row whose last
      fields are empty, is rejected rather than padded. */
  lemma ToRecordOfFields(keys: seq<string>, fields: seq<string>, eol: string)
    requires forall k :: 0 <= k < |fields| ==> '\t' !in fields[k]
    requires LineEnding(Join(fields, "\t"), eol)
    ensures var r := ToRecord(keys, Join(fields, "\t") + eol);
      && (r.Ok? <==> |DropTrailingEmpty(fields)| == |keys|)
      && (r.Ok? ==> forall i {:trigger r.value[keys[i]]} :: 0 <= i < |keys| && LastWithKey(keys, i) ==> r.value[keys[i]] == fields[i])
  {
    ChompLine(Join(fields, "\t"), eol);
    SplitTabJoin(fields);
  }

  /** With the key count equal to the number of fields written, a row whose
      last field is empty is an error: `split` drops it and nothing pads it back. */
  lemma TrailingEmptyFieldRejected(keys: seq<string>, fields: seq<string>, eol: string)
    requires forall k :: 0 <= k < |fields| ==> '\t' !in fields[k]
    requires |fields| == |keys| >= 1 && fields[|fields| - 1] == ""
    requires eol == "\n" || eol == "\r\n" || eol == "\r" || eol == ""
    ensures ToRecord(keys, Join(fields, "\t") + eol).Err?
  {
    var line := Join(fields, "\t");
    if |fields| == 1 {
      assert line == "";
    } else {
      JoinEndsWithSeparatorAndLast(fields, "\t");
      assert line[|line| - 1] == '\t';
    }
    ToRecordOfFields(keys, fields, eol);
    assert DropTrailingEmpty(fields) == DropTrailingEmpty(fields[..|fields| - 1]);
  }

  /** With a repeated key, the record holds the value of the last column carrying it. */
  lemma DuplicateKeyLastWins()
    ensures ToRecord(["a", "a"], "x\ty\n") == Ok(map["a" := "y"])
  {
    var keys, fields := ["a", "a"], ["x", "y"];
    TwoFieldLine();
    var z := Zip(keys, fields);
    assert LastWithKey(keys, 1);
    assert z["a"] == "y";
    assert z.Keys == {"a"};
    assert z == map["a" := "y"];
  }

  /** The line `x<TAB>y` with its line feed has the fields `x` and `y`. */
  lemma TwoFieldLine()
    ensures RowFields("x\ty\n") == ["x", "y"]
  {
    var fields := ["x", "y"];
    assert Join(fields, "\t") == "x\ty" by {
      assert Join(fields[1..], "\t") == "y";
    }
    ChompLine("x\ty", "\n");
    SplitTabJoin(fields);
    assert DropTrailingEmpty(fields) == fields;
    assert "x\ty" + "\n" == "x\ty\n";
  }

}
