/** The aligned CSV table of a model results dictionary: five metadata columns, one
    column per residue key seen (1 to 128 always), and one row per result, written at
    once (`write_csv`) or in two passes over a stream of result dictionaries
    (`_stream_csv_to_file`). The table is the header and the row dicts handed to the CSV
    writer; a cell missing from a row is written as `-`. */
module CsvOutput {
  import opened Wrappers
  import opened Dicts
  import opened PyStr
  import opened Records
  import opened ResidueOrder

  const MetadataColumns: seq<string> := ["Name", "Chain", "Score", "Query start", "Query end"]

  /** What `csv.DictWriter` is handed: the field names and the rows. */
  datatype Table = Table(header: seq<string>, rows: seq<Dict<string, Value>>)

  /** The `restval` written for a column a row has no entry for. */
  const Absent: Value := Text("-")

  /** The value the writer puts in column `column` of a row. */
  function Cell(row: Dict<string, Value>, column: string): (v: Value)
    ensures column !in Keys(row) ==> v == Absent
    ensures column in Keys(row) ==> Get(row, column) == Some(v)
  {
    match Get(row, column)
    case Some(v) => v
    case None => Absent
  }

  /** `zip(range(1, 129), repeat(" "))`. */
  function RequiredResidueNumbers(): (ks: seq<ResidueKey>)
    ensures |ks| == 128
    ensures forall i :: 0 <= i < 128 ==> ks[i] == ResidueKey(i + 1, ' ')
  {
    seq(128, i requires 0 <= i < 128 => ResidueKey(i + 1, ' '))
  }

  /** `result.get("numbering", [])`. */
  function NumberingOf(r: Record): Numbering {
    match r.numbering
    case Some(n) => n
    case None => []
  }

  /** `number for number, _ in numbering`. */
  function NumberingKeys(numbering: Numbering): (ks: seq<ResidueKey>)
    ensures |ks| == |numbering| && forall i :: 0 <= i < |ks| ==> ks[i] == numbering[i].0
  {
    seq(|numbering|, i requires 0 <= i < |numbering| => numbering[i].0)
  }

  /** `residue_numbers` after the loop over `items`: the sorted set of 1 to 128, updated
      with the keys of each numbering in turn. */
  function ResidueNumbers(items: seq<(string, Record)>): seq<ResidueKey> {
    if items == [] then InsertAll([], RequiredResidueNumbers())
    else InsertAll(ResidueNumbers(items[..|items| - 1]), NumberingKeys(NumberingOf(items[|items| - 1].1)))
  }

  /** A residue key is a required one or one of a numbering of the items. */
  predicate SeenKey(items: seq<(string, Record)>, k: ResidueKey) {
    || (k.ins == ' ' && 1 <= k.n <= 128)
    || exists i :: 0 <= i < |items| && k in NumberingKeys(NumberingOf(items[i].1))
  }

  /** The residue numbers are sorted and hold exactly the required keys and the keys of
      every numbering. */
  lemma {:induction false} ResidueNumbersSpec(items: seq<(string, Record)>)
    ensures StrictlySorted(ResidueNumbers(items))
    ensures forall k :: k in ResidueNumbers(items) <==> SeenKey(items, k)
  {
    if items == [] {
      var req := RequiredResidueNumbers();
      forall k | SeenKey(items, k)
        ensures k in req
      {
        assert req[k.n - 1] == k;
      }
    } else {
      var init := items[..|items| - 1];
      ResidueNumbersSpec(init);
      forall k
        ensures SeenKey(items, k) <==> SeenKey(init, k) || k in NumberingKeys(NumberingOf(items[|items| - 1].1))
      {
        if SeenKey(items, k) && !(k.ins == ' ' && 1 <= k.n <= 128) {
          var i :| 0 <= i < |items| && k in NumberingKeys(NumberingOf(items[i].1));
          if i < |items| - 1 {
            assert init[i] == items[i];
          }
        }
        if SeenKey(init, k) && !(k.ins == ' ' && 1 <= k.n <= 128) {
          var i :| 0 <= i < |init| && k in NumberingKeys(NumberingOf(init[i].1));
          assert init[i] == items[i];
        }
      }
    }
  }

  /** `str(num) + ins.strip()` for every key, in order. */
  function ColumnNames(ks: seq<ResidueKey>): (cs: seq<string>)
    ensures |cs| == |ks| && forall i :: 0 <= i < |ks| ==> cs[i] == KeyString(ks[i])
  {
    seq(|ks|, i requires 0 <= i < |ks| => KeyString(ks[i]))
  }

  /** `result.get(key)`: `None` when absent. */
  function MetaGet(meta: Dict<string, Value>, key: string): (v: Value)
    ensures key !in Keys(meta) ==> v == Null
    ensures key in Keys(meta) ==> Get(meta, key) == Some(v)
  {
    match Get(meta, key)
    case Some(v) => v
    case None => Null
  }

  /** The residue letters as cell values. */
  function TextValues(d: Dict<string, string>): (r: Dict<string, Value>)
    ensures |r| == |d| && forall i :: 0 <= i < |d| ==> r[i] == (d[i].0, Text(d[i].1))
  {
    seq(|d|, i requires 0 <= i < |d| => (d[i].0, Text(d[i].1)))
  }

  /** The row of one result: the dict display with its five metadata entries, then the
      numbered sequence dict unpacked into it. `chain_type` and `score` are looked up
      first and raise `KeyError` when missing. */
  function RowFor(item: (string, Record)): (r: Result<Dict<string, Value>>)
    ensures r.Ok? <==> "chain_type" in Keys(item.1.meta) && "score" in Keys(item.1.meta)
    ensures r.Err? ==> r.error == KeyError(if "chain_type" in Keys(item.1.meta) then "score" else "chain_type")
  {
    var (name, r) := item;
    var chain :- Lookup(r.meta, "chain_type");
    var score :- Lookup(r.meta, "score");
    Ok(MakeRow(name, chain, score, r))
  }

  /** The row once the chain type and the score are found. */
  function MakeRow(name: string, chain: Value, score: Value, r: Record): Dict<string, Value> {
    Update(RowHead(name, chain, score, r), TextValues(NumberedSequenceDict(NumberingOf(r))))
  }

  /** The five metadata entries of a row. */
  function RowHead(name: string, chain: Value, score: Value, r: Record): Dict<string, Value> {
    [("Name", Text(name)), ("Chain", chain), ("Score", score),
     ("Query start", MetaGet(r.meta, "query_start")),
     ("Query end", MetaGet(r.meta, "query_end"))]
  }

  /** The rows of the items, in order; the first result that cannot make a row stops
      the loop with its error. */
  function Rows(items: seq<(string, Record)>): Result<seq<Dict<string, Value>>> {
    MapResult(items, RowFor)
  }

  /** The residue keys in column order: IMGT order when the scheme is `"imgt"`, sorted
      order otherwise. */
  function ColumnOrder(numbers: seq<ResidueKey>, scheme: Value): seq<ResidueKey> {
    if scheme == Text("imgt") then ImgtOrder(numbers) else numbers
  }

  /** The table `write_csv` writes. The scheme is read from the last result, after the
      loop; the source reads it from the loop variable, so empty input is excluded. */
  function CsvTable(items: seq<(string, Record)>): (r: Result<Table>)
    requires |items| > 0
    ensures r.Ok? ==> |r.value.rows| == |items|
  {
    MapResultOk(items, RowFor);
    var rows :- Rows(items);
    var scheme :- Lookup(items[|items| - 1].1.meta, "scheme");
    Ok(Table(MetadataColumns + ColumnNames(ColumnOrder(ResidueNumbers(items), scheme)), rows))
  }

  /** `write_csv`: one pass over the results, growing the residue set and the rows, then
      the header from the last result's scheme. */
  method WriteCsv(items: seq<(string, Record)>) returns (r: Result<Table>)
    requires |items| > 0
    ensures r == CsvTable(items)
  {
    var residueNumbers, rows := CollectRows(items);
    if rows.Err? {
      return Err(rows.error);
    }
    var last := items[|items| - 1].1;
    var scheme := Lookup(last.meta, "scheme");
    if scheme.Err? {
      return Err(scheme.error);
    }
    var ordered := if scheme.value == Text("imgt") then ImgtOrder(residueNumbers) else residueNumbers;
    r := Ok(Table(MetadataColumns + ColumnNames(ordered), rows.value));
  }

  /** The loop of `write_csv`: each result's residue keys go into the sorted set and its
      row is appended; a result without a chain type or score stops the loop. */
  method CollectRows(items: seq<(string, Record)>)
    returns (residueNumbers: seq<ResidueKey>, rows: Result<seq<Dict<string, Value>>>)
    ensures rows == Rows(items)
    ensures rows.Ok? ==> residueNumbers == ResidueNumbers(items)
  {
    residueNumbers := InsertAll([], RequiredResidueNumbers());
    var acc: seq<Dict<string, Value>> := [];
    var i := 0;
    while i < |items|
      invariant 0 <= i <= |items|
      invariant residueNumbers == ResidueNumbers(items[..i])
      invariant Rows(items[..i]) == Ok(acc)
    {
      CollectStep(items, i);
      residueNumbers := InsertAll(residueNumbers, NumberingKeys(NumberingOf(items[i].1)));
      var row := RowFor(items[i]);
      if row.Err? {
        MapResultPrefixError(items, RowFor, i + 1);
        return residueNumbers, Err(row.error);
      }
      acc := acc + [row.value];
      i := i + 1;
    }
    assert items[..i] == items;
    rows := Ok(acc);
  }

  /** One more result extends the residue keys and the rows of the results before it. */
  lemma CollectStep(items: seq<(string, Record)>, i: nat)
    requires i < |items|
    ensures ResidueNumbers(items[..i + 1])
            == InsertAll(ResidueNumbers(items[..i]), NumberingKeys(NumberingOf(items[i].1)))
    ensures Rows(items[..i + 1]) ==
            match Rows(items[..i])
            case Err(e) => Err(e)
            case Ok(a) =>
              match RowFor(items[i])
              case Err(e) => Err(e)
              case Ok(row) => Ok(a + [row])
  {
    assert items[..i + 1][..i] == items[..i];
  }

  /** The value of the loop variable `result` after a loop over `items`, if it ran. */
  function LastRecord(items: seq<(string, Record)>): (r: Option<Record>)
    ensures r.Some? <==> |items| > 0
    ensures r.Some? ==> r.value == items[|items| - 1].1
  {
    if items == [] then None else Some(items[|items| - 1].1)
  }

  /** What the streaming writer leaves in the file: the header (empty when none was
      written), the rows written, and the exception that stopped it, if any. */
  datatype Written = Written(header: seq<string>, rows: seq<Dict<string, Value>>, failure: Option<Error>)

  /** The second pass: each result dict's rows are written once all of them are built;
      the first result dict with a result that cannot make a row stops the pass, with
      the rows of the result dicts before it already written. */
  function BatchRows(batches: seq<seq<(string, Record)>>): (seq<Dict<string, Value>>, Option<Error>) {
    if batches == [] then ([], None)
    else
      var (written, failure) := BatchRows(batches[..|batches| - 1]);
      if failure.Some? then (written, failure)
      else
        match Rows(batches[|batches| - 1])
        case Ok(rows) => (written + rows, None)
        case Err(e) => (written, Some(e))
  }

  /** `_stream_csv_to_file` with the columns fixed after the first pass: the residue
      numbers of every result, the header from the scheme of the last result, then the
      rows result dict by result dict. */
  function StreamOutput(batches: seq<seq<(string, Record)>>): (w: Written)
    requires |Flatten(batches)| > 0
    ensures w.failure.None? ==> Rows(Flatten(batches)).Ok? && w.rows == Rows(Flatten(batches)).value
  {
    BatchRowsFlatten(batches);
    var items := Flatten(batches);
    match Lookup(items[|items| - 1].1.meta, "scheme")
    case Err(e) => Written([], [], Some(e))
    case Ok(scheme) =>
      var (rows, failure) := BatchRows(batches);
      Written(MetadataColumns + ColumnNames(ColumnOrder(ResidueNumbers(items), scheme)), rows, failure)
  }

  /** The message of the exception raised by `update` on an `itertools.chain`. */
  const ChainUpdateMessage: string := "'itertools.chain' object has no attribute 'update'"

  /** `_stream_csv_to_file` as written: once the IMGT branch has replaced the residue set
      by the chained `irange` segments, the `update` call of the second pass raises
      `AttributeError` at the first result, after the header and before any row. */
  function StreamOutputAsWritten(batches: seq<seq<(string, Record)>>): (w: Written)
    requires |Flatten(batches)| > 0
    ensures w.header == StreamOutput(batches).header
    ensures w.failure.None? ==> w == StreamOutput(batches)
  {
    var items := Flatten(batches);
    match Lookup(items[|items| - 1].1.meta, "scheme")
    case Err(e) => Written([], [], Some(e))
    case Ok(scheme) =>
      var header := MetadataColumns + ColumnNames(ColumnOrder(ResidueNumbers(items), scheme));
      if scheme == Text("imgt") then Written(header, [], Some(AttributeError(ChainUpdateMessage)))
      else
        var (rows, failure) := BatchRows(batches);
        Written(header, rows, failure)
  }

  /** `_stream_csv_to_file`: a first pass over every result dict collecting the residue
      numbers, the header, and a second pass building and writing each result dict's
      rows. */
  method StreamCsv(batches: seq<seq<(string, Record)>>) returns (w: Written)
    requires |Flatten(batches)| > 0
    ensures w == StreamOutput(batches)
  {
    var residueNumbers, result := FirstPass(batches);
    var scheme := Lookup(result.value.meta, "scheme");
    if scheme.Err? {
      return Written([], [], Some(scheme.error));
    }
    var ordered := if scheme.value == Text("imgt") then ImgtOrder(residueNumbers) else residueNumbers;
    var header := MetadataColumns + ColumnNames(ordered);
    var written, failure := SecondPass(batches);
    w := Written(header, written, failure);
  }

  /** The first pass: the residue numbers of every result of every result dict, and the
      last result seen. */
  method FirstPass(batches: seq<seq<(string, Record)>>)
    returns (residueNumbers: seq<ResidueKey>, result: Option<Record>)
    ensures residueNumbers == ResidueNumbers(Flatten(batches))
    ensures result == LastRecord(Flatten(batches))
  {
    residueNumbers := InsertAll([], RequiredResidueNumbers());
    result := None;
    var b := 0;
    while b < |batches|
      invariant 0 <= b <= |batches|
      invariant residueNumbers == ResidueNumbers(Flatten(batches[..b]))
      invariant result == LastRecord(Flatten(batches[..b]))
    {
      ghost var seen := Flatten(batches[..b]);
      var results := batches[b];
      var j := 0;
      while j < |results|
        invariant 0 <= j <= |results|
        invariant seen == Flatten(batches[..b]) + results[..j]
        invariant residueNumbers == ResidueNumbers(seen)
        invariant result == LastRecord(seen)
      {
        ResidueNumbersSnoc(seen, results[j]);
        residueNumbers := InsertAll(residueNumbers, NumberingKeys(NumberingOf(results[j].1)));
        result := Some(results[j].1);
        SnocSlice(Flatten(batches[..b]), results, j);
        seen := seen + [results[j]];
        j := j + 1;
      }
      assert results[..j] == results;
      assert batches[..b + 1][..b] == batches[..b];
      b := b + 1;
    }
    assert batches[..b] == batches;
  }

  /** The second pass: each result dict's rows are built (the residue set updated in
      this pass no longer reaches the header) and then written. */
  method SecondPass(batches: seq<seq<(string, Record)>>)
    returns (written: seq<Dict<string, Value>>, failure: Option<Error>)
    ensures (written, failure) == BatchRows(batches)
  {
    written := [];
    var b := 0;
    while b < |batches|
      invariant 0 <= b <= |batches|
      invariant BatchRows(batches[..b]) == (written, None)
    {
      var _, rows := CollectRows(batches[b]);
      assert batches[..b + 1][..b] == batches[..b];
      if rows.Err? {
        BatchRowsPrefixFailure(batches, b + 1);
        return written, Some(rows.error);
      }
      written := written + rows.value;
      b := b + 1;
    }
    assert batches[..b] == batches;
    failure := None;
  }

  lemma SnocSlice<T>(xs: seq<T>, ys: seq<T>, j: nat)
    requires j < |ys|
    ensures xs + ys[..j + 1] == (xs + ys[..j]) + [ys[j]]
  {
  }

  lemma ResidueNumbersSnoc(items: seq<(string, Record)>, item: (string, Record))
    ensures ResidueNumbers(items + [item]) == InsertAll(ResidueNumbers(items), NumberingKeys(NumberingOf(item.1)))
  {
    assert (items + [item])[..|items|] == items;
  }

  /** Once a prefix of the stream has failed, the pass ends with that failure. */
  lemma {:induction false} BatchRowsPrefixFailure(batches: seq<seq<(string, Record)>>, i: nat)
    requires i <= |batches| && BatchRows(batches[..i]).1.Some?
    ensures BatchRows(batches) == BatchRows(batches[..i])
    decreases |batches| - i
  {
    if i < |batches| {
      assert batches[..i + 1][..i] == batches[..i];
      BatchRowsPrefixFailure(batches, i + 1);
    } else {
      assert batches[..i] == batches;
    }
  }

  /** Building rows result dict by result dict fails exactly when building them over the
      concatenated results does, and otherwise gives the same rows. */
  lemma {:induction false} BatchRowsFlatten(batches: seq<seq<(string, Record)>>)
    ensures BatchRows(batches).1.None? <==> Rows(Flatten(batches)).Ok?
    ensures BatchRows(batches).1.None? ==> BatchRows(batches).0 == Rows(Flatten(batches)).value
  {
    if batches != [] {
      var init := batches[..|batches| - 1];
      BatchRowsFlatten(init);
      MapResultAppend(Flatten(init), batches[|batches| - 1], RowFor);
    }
  }

  /** A failed pass has written exactly the rows of the result dicts before the one that
      failed, and the failure is that result dict's. */
  lemma {:induction false} BatchRowsFailure(batches: seq<seq<(string, Record)>>)
    requires BatchRows(batches).1.Some?
    ensures exists k :: FailedAt(batches, k)
  {
    var init := batches[..|batches| - 1];
    var k := |batches| - 1;
    if BatchRows(init).1.Some? {
      BatchRowsFailure(init);
      var k' :| FailedAt(init, k');
      assert init[..k'] == batches[..k'] && init[k'] == batches[k'];
      assert FailedAt(batches, k');
    } else {
      BatchRowsFlatten(init);
      assert batches[..k] == init;
      assert FailedAt(batches, k);
    }
  }

  /** The pass stopped at result dict `k`: the rows written are those of the result
      dicts before it, and its failure is the failure of `k`'s own rows. */
  predicate FailedAt(batches: seq<seq<(string, Record)>>, k: int)
    requires BatchRows(batches).1.Some?
  {
    && 0 <= k < |batches|
    && Rows(Flatten(batches[..k])) == Ok(BatchRows(batches).0)
    && Rows(batches[k]) == Err(BatchRows(batches).1.value)
  }

  /** The streaming writer writes the header and rows `write_csv` writes for all results
      concatenated, and fails exactly when `write_csv` does. */
  lemma StreamMatchesWriteCsv(batches: seq<seq<(string, Record)>>)
    requires |Flatten(batches)| > 0
    ensures StreamOutput(batches).failure.None? <==> CsvTable(Flatten(batches)).Ok?
    ensures CsvTable(Flatten(batches)).Ok? ==>
              && StreamOutput(batches).header == CsvTable(Flatten(batches)).value.header
              && StreamOutput(batches).rows == CsvTable(Flatten(batches)).value.rows
  {
    BatchRowsFlatten(batches);
  }

  /** As written, a stream of IMGT results whose last result has a scheme fails with
      `AttributeError` having written the header and no row. */
  lemma StreamAsWrittenImgt(batches: seq<seq<(string, Record)>>)
    requires |Flatten(batches)| > 0
    requires var items := Flatten(batches); Get(items[|items| - 1].1.meta, "scheme") == Some(Text("imgt"))
    ensures StreamOutputAsWritten(batches).failure == Some(AttributeError(ChainUpdateMessage))
    ensures StreamOutputAsWritten(batches).rows == []
    ensures StreamOutputAsWritten(batches).header == StreamOutput(batches).header
  {
    var items := Flatten(batches);
    assert Lookup(items[|items| - 1].1.meta, "scheme") == Ok(Text("imgt"));
    var header := MetadataColumns + ColumnNames(ColumnOrder(ResidueNumbers(items), Text("imgt")));
    assert StreamOutputAsWritten(batches) == Written(header, [], Some(AttributeError(ChainUpdateMessage)));
    assert StreamOutput(batches).header == header;
  }

  /** As written, the streaming writer fails on a single well-formed IMGT result that
      `write_csv` writes. */
  lemma StreamAsWrittenCounterexample()
    ensures var batches := [[("seq", ImgtResult)]];
            && |Flatten(batches)| > 0
            && CsvTable(Flatten(batches)).Ok?
            && StreamOutput(batches).failure == None
            && StreamOutputAsWritten(batches).failure == Some(AttributeError(ChainUpdateMessage))
  {
    var batches := [[("seq", ImgtResult)]];
    var items := [("seq", ImgtResult)];
    assert batches[..0] == [];
    assert Flatten(batches) == items;
    ImgtResultMeta();
    CsvTableOk(items);
    StreamAsWrittenDiffers(batches);
  }

  /** Wherever `write_csv` succeeds on IMGT results, the as-written streaming writer
      fails where the corrected one does not. */
  lemma StreamAsWrittenDiffers(batches: seq<seq<(string, Record)>>)
    requires |Flatten(batches)| > 0 && CsvTable(Flatten(batches)).Ok?
    requires var items := Flatten(batches); Get(items[|items| - 1].1.meta, "scheme") == Some(Text("imgt"))
    ensures StreamOutput(batches).failure == None
    ensures StreamOutputAsWritten(batches).failure == Some(AttributeError(ChainUpdateMessage))
  {
    StreamMatchesWriteCsv(batches);
    StreamAsWrittenImgt(batches);
  }

  /** A well-formed IMGT result with an empty numbering. */
  const ImgtResult: Record := Record(Some([]), [("chain_type", Text("H")), ("score", Float(1.0)), ("scheme", Text("imgt"))])

  lemma ImgtResultMeta()
    ensures "chain_type" in Keys(ImgtResult.meta) && "score" in Keys(ImgtResult.meta)
    ensures "scheme" in Keys(ImgtResult.meta)
    ensures Get(ImgtResult.meta, "scheme") == Some(Text("imgt"))
  {
    assert Keys(ImgtResult.meta) == ["chain_type", "score", "scheme"];
    GetAt(ImgtResult.meta, 2);
  }

  /** A row can be made exactly when the result has a chain type and a score. */
  lemma RowForOk(item: (string, Record))
    ensures RowFor(item).Ok? <==> "chain_type" in Keys(item.1.meta) && "score" in Keys(item.1.meta)
  {
  }

  /** The table is written exactly when every result has a chain type and a score and
      the last one has a scheme. */
  lemma CsvTableOk(items: seq<(string, Record)>)
    requires |items| > 0
    ensures CsvTable(items).Ok? <==>
              && (forall i :: 0 <= i < |items| ==> "chain_type" in Keys(items[i].1.meta) && "score" in Keys(items[i].1.meta))
              && "scheme" in Keys(items[|items| - 1].1.meta)
  {
    MapResultOk(items, RowFor);
    forall i | 0 <= i < |items| {
      RowForOk(items[i]);
    }
  }

  /** The header: the five metadata columns, then one column per residue key seen (the
      required 1 to 128 and every key of every numbering, each once), in IMGT order when
      the last result's scheme is `"imgt"` and in ascending `(number, insertion)` order
      otherwise. */
  lemma CsvHeader(items: seq<(string, Record)>)
    requires |items| > 0 && CsvTable(items).Ok?
    ensures var t := CsvTable(items).value;
            var scheme := Lookup(items[|items| - 1].1.meta, "scheme").value;
            var ks := ColumnOrder(ResidueNumbers(items), scheme);
            && t.header == MetadataColumns + ColumnNames(ks)
            && (forall k :: k in ks <==> SeenKey(items, k))
            && (forall i, j :: 0 <= i < j < |ks| ==> ks[i] != ks[j])
            && (scheme == Text("imgt") ==> ImgtSorted(ks))
            && (scheme != Text("imgt") ==> StrictlySorted(ks))
  {
    var numbers := ResidueNumbers(items);
    var scheme := Lookup(items[|items| - 1].1.meta, "scheme").value;
    ResidueNumbersSpec(items);
    ColumnOrderSpec(numbers, scheme);
  }

  /** The column order keeps every residue key once, and puts them in IMGT order for the
      `"imgt"` scheme and leaves them sorted otherwise. */
  lemma ColumnOrderSpec(numbers: seq<ResidueKey>, scheme: Value)
    requires StrictlySorted(numbers)
    ensures forall k :: k in ColumnOrder(numbers, scheme) <==> k in numbers
    ensures var ks := ColumnOrder(numbers, scheme);
            forall i, j :: 0 <= i < j < |ks| ==> ks[i] != ks[j]
    ensures scheme == Text("imgt") ==> ImgtSorted(ColumnOrder(numbers, scheme))
    ensures scheme != Text("imgt") ==> StrictlySorted(ColumnOrder(numbers, scheme))
  {
    var ks := ColumnOrder(numbers, scheme);
    if scheme == Text("imgt") {
      ImgtOrderPermutation(numbers);
      ImgtOrderSorted(numbers);
      assert forall k :: k in ks <==> k in multiset(ks);
      assert forall k :: k in numbers <==> k in multiset(numbers);
      ImgtSortedDistinct(ks);
    } else {
      assert forall i, j :: 0 <= i < j < |ks| ==> KeyLess(ks[i], ks[j]);
    }
  }

  lemma ImgtSortedDistinct(ks: seq<ResidueKey>)
    requires ImgtSorted(ks)
    ensures forall i, j :: 0 <= i < j < |ks| ==> ks[i] != ks[j]
  {
    forall i, j | 0 <= i < j < |ks|
      ensures ks[i] != ks[j]
    {
      assert ImgtLess(ks[i], ks[j]);
    }
  }

  /** Row `i` belongs to result `i`: its name, chain type and score, the query bounds or
      `None`, and for every residue column the letter of that residue; no other column.
      A result without numbering has only the five metadata entries. */
  lemma CsvRow(items: seq<(string, Record)>, i: nat, column: string)
    requires |items| > 0 && CsvTable(items).Ok? && i < |items|
    ensures var t := CsvTable(items).value;
            var (name, r) := items[i];
            var nsd := NumberedSequenceDict(NumberingOf(r));
            && |t.rows| == |items|
            && Keys(t.rows[i]) == AppendNew(MetadataColumns, Keys(nsd))
            && Get(t.rows[i], "Name") == Some(Text(name))
            && Get(t.rows[i], "Chain") == Get(r.meta, "chain_type")
            && Get(t.rows[i], "Score") == Get(r.meta, "score")
            && Get(t.rows[i], "Query start") == Some(MetaGet(r.meta, "query_start"))
            && Get(t.rows[i], "Query end") == Some(MetaGet(r.meta, "query_end"))
            && (column !in MetadataColumns ==>
                  Cell(t.rows[i], column) == match Get(nsd, column) case Some(v) => Text(v) case None => Absent)
            && (r.numbering == None ==> Keys(t.rows[i]) == MetadataColumns)
  {
    var rows := Rows(items).value;
    assert CsvTable(items).value.rows == rows;
    MapResultOk(items, RowFor);
    var (name, r) := items[i];
    var chain := Lookup(r.meta, "chain_type").value;
    var score := Lookup(r.meta, "score").value;
    assert rows[i] == MakeRow(name, chain, score, r);
    MakeRowSpec(name, chain, score, r, column);
  }

  /** A row holds the five metadata entries, then one entry per residue column of the
      numbering, which never overwrites a metadata entry. */
  lemma MakeRowSpec(name: string, chain: Value, score: Value, r: Record, column: string)
    ensures var row := MakeRow(name, chain, score, r);
            var nsd := NumberedSequenceDict(NumberingOf(r));
            && Keys(row) == AppendNew(MetadataColumns, Keys(nsd))
            && Get(row, "Name") == Some(Text(name))
            && Get(row, "Chain") == Some(chain)
            && Get(row, "Score") == Some(score)
            && Get(row, "Query start") == Some(MetaGet(r.meta, "query_start"))
            && Get(row, "Query end") == Some(MetaGet(r.meta, "query_end"))
            && (column !in MetadataColumns ==>
                  Cell(row, column) == match Get(nsd, column) case Some(v) => Text(v) case None => Absent)
            && (r.numbering == None ==> Keys(row) == MetadataColumns)
  {
    RowHeadSpec(name, chain, score, r);
    MakeRowKeys(name, chain, score, r);
    MakeRowHead(name, chain, score, r);
    if column !in MetadataColumns {
      MakeRowCell(name, chain, score, r, column);
    }
  }

  lemma MakeRowKeys(name: string, chain: Value, score: Value, r: Record)
    ensures var row := MakeRow(name, chain, score, r);
            && Keys(row) == AppendNew(MetadataColumns, Keys(NumberedSequenceDict(NumberingOf(r))))
            && (r.numbering == None ==> Keys(row) == MetadataColumns)
  {
    var nsd := NumberedSequenceDict(NumberingOf(r));
    var tv := TextValues(nsd);
    var head := RowHead(name, chain, score, r);
    assert Keys(tv) == Keys(nsd);
    RowHeadSpec(name, chain, score, r);
    UpdateKeys(head, tv);
    if r.numbering == None {
      assert nsd == [];
    }
  }

  lemma MakeRowHead(name: string, chain: Value, score: Value, r: Record)
    ensures forall c :: c in MetadataColumns ==>
              Get(MakeRow(name, chain, score, r), c) == Get(RowHead(name, chain, score, r), c)
  {
    var nsd := NumberedSequenceDict(NumberingOf(r));
    NumberedSequenceDictSpec(NumberingOf(r));
    ResidueColumnShape(NumberingOf(r));
    var tv := TextValues(nsd);
    assert Keys(tv) == Keys(nsd);
    forall c | c in MetadataColumns
      ensures Get(MakeRow(name, chain, score, r), c) == Get(RowHead(name, chain, score, r), c)
    {
      ResidueColumnNotMetadata(nsd, c);
      UpdateWithDict(RowHead(name, chain, score, r), tv, c);
    }
  }

  lemma MakeRowCell(name: string, chain: Value, score: Value, r: Record, column: string)
    requires column !in MetadataColumns
    ensures var nsd := NumberedSequenceDict(NumberingOf(r));
            Cell(MakeRow(name, chain, score, r), column) == match Get(nsd, column) case Some(v) => Text(v) case None => Absent
  {
    var nsd := NumberedSequenceDict(NumberingOf(r));
    NumberedSequenceDictSpec(NumberingOf(r));
    var tv := TextValues(nsd);
    var head := RowHead(name, chain, score, r);
    assert Keys(tv) == Keys(nsd);
    RowHeadSpec(name, chain, score, r);
    UpdateWithDict(head, tv, column);
    TextValuesGet(nsd, column);
    assert column !in Keys(head);
  }

  /** The metadata column names are distinct. */
  lemma MetadataColumnsDistinct()
    ensures Distinct(MetadataColumns)
  {
    forall i, j | 0 <= i < j < 5
      ensures MetadataColumns[i] != MetadataColumns[j]
    {
      if i == 1 && j == 2 {
        assert MetadataColumns[i][0] != MetadataColumns[j][0];
      } else {
        assert |MetadataColumns[i]| != |MetadataColumns[j]|;
      }
    }
  }

  /** The five metadata entries are a dict with the metadata columns as keys. */
  lemma RowHeadSpec(name: string, chain: Value, score: Value, r: Record)
    ensures var head := RowHead(name, chain, score, r);
            && Keys(head) == MetadataColumns && IsDict(head)
            && Get(head, "Name") == Some(Text(name))
            && Get(head, "Chain") == Some(chain)
            && Get(head, "Score") == Some(score)
            && Get(head, "Query start") == Some(MetaGet(r.meta, "query_start"))
            && Get(head, "Query end") == Some(MetaGet(r.meta, "query_end"))
  {
    var head := RowHead(name, chain, score, r);
    RowHeadKeys(name, chain, score, r);
    GetAt(head, 0);
    GetAt(head, 1);
    GetAt(head, 2);
    GetAt(head, 3);
    GetAt(head, 4);
  }

  lemma RowHeadKeys(name: string, chain: Value, score: Value, r: Record)
    ensures var head := RowHead(name, chain, score, r);
            Keys(head) == MetadataColumns && IsDict(head)
  {
    assert Keys(RowHead(name, chain, score, r)) == MetadataColumns;
    MetadataColumnsDistinct();
  }

  /** Residue column names start with a digit or a minus sign, so no residue entry
      overwrites a metadata entry. */
  lemma ResidueColumnNotMetadata(nsd: Dict<string, string>, c: string)
    requires forall k :: k in Keys(nsd) ==> |k| >= 1 && (k[0] == '-' || IsDigit(k[0]))
    requires c in MetadataColumns
    ensures c !in Keys(nsd)
  {
  }

  /** Every key of a numbered sequence dict is a residue column name. */
  lemma ResidueColumnShape(numbering: Numbering)
    ensures forall k :: k in Keys(NumberedSequenceDict(numbering)) ==> |k| >= 1 && (k[0] == '-' || IsDigit(k[0]))
  {
    var ps := ResiduePairs(numbering);
    NumberedSequenceDictSpec(numbering);
    AppendNewMembers([], Keys(ps));
    forall k | k in Keys(NumberedSequenceDict(numbering))
      ensures |k| >= 1 && (k[0] == '-' || IsDigit(k[0]))
    {
      var i :| 0 <= i < |ps| && Keys(ps)[i] == k;
      assert k == KeyString(numbering[i].0);
    }
  }

  lemma {:induction false} TextValuesGet(d: Dict<string, string>, c: string)
    ensures Get(TextValues(d), c) == match Get(d, c) case Some(v) => Some(Text(v)) case None => None
  {
    if d != [] {
      TextValuesGet(d[1..], c);
      assert TextValues(d)[1..] == TextValues(d[1..]);
    }
  }
}
