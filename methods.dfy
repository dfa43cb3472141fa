/** The output methods of `Anarcii`: `to_list`, the choice each of `to_csv`, `to_json`
    and `to_imgt_regions` makes between the numbered output, the converted output and
    the text file of a long run, and the framing of the JSON array `to_json` streams from
    that text file. Opening, reading and writing files are left to the caller; the CSV
    and JSON writers and `return_imgt_regions` are not part of this module. */
module Methods {
  import opened Wrappers
  import opened Dicts
  import opened PyStr
  import opened Records
  import opened Pipeline
  import opened ListTo

  /** Python truthiness of an optional results dict: present and not empty. */
  predicate Truthy(results: Option<ResultSet>) {
    results.Some? && results.value != []
  }

  const NoOutputToSave := "No output to save. Run the model first."
  const NoOutput := "No output. Run the model first."
  /** The message of the `ValueError` for a converted output of a long run; `1024 * 100`
      written out. */
  const TooManyToConvert := "Cannot renumber more than 102400 sequences and convert to alternate scheme. Feature update coming soon!"

  /** One `to_list` element: the record's numbering, and a copy of the record without it
      and with `query_name` set to the sequence name. A record with no numbering raises
      `KeyError`. */
  function ListEntry(item: (string, Record)): Result<Element> {
    var (name, record) := item;
    if record.numbering.None? then Err(KeyError("numbering"))
    else Ok((record.numbering.value, Set(record.meta, "query_name", Text(name))))
  }

  /** The elements of one results dict, in its iteration order. */
  function ListItems(results: ResultSet): Result<seq<Element>> {
    MapResult(results, ListEntry)
  }

  /** `to_list`: `ValueError` without a numbered output; the converted output when it is
      truthy, the numbered output otherwise. */
  function ToListSpec(numbered: Option<ResultSet>, converted: Option<ResultSet>): Result<seq<Element>> {
    if numbered.None? then Err(ValueError(NoOutputToSave))
    else if Truthy(converted) then ListItems(converted.value)
    else ListItems(numbered.value)
  }

  /** `to_list`: an append loop over the chosen output; the object is left as it was. */
  method ToList(a: Anarcii) returns (r: Result<seq<Element>>)
    ensures r == ToListSpec(a.lastNumberedOutput, a.lastConvertedOutput)
  {
    if a.lastNumberedOutput.None? {
      return Err(ValueError(NoOutputToSave));
    }
    var source: ResultSet;
    if Truthy(a.lastConvertedOutput) {
      source := a.lastConvertedOutput.value;
    } else {
      source := a.lastNumberedOutput.value;
    }
    var ls: seq<Element> := [];
    for i := 0 to |source|
      invariant MapResult(source[..i], ListEntry) == Ok(ls)
    {
      assert source[..i + 1][..i] == source[..i];
      var (name, record) := source[i];
      if record.numbering.None? {
        MapResultPrefixError(source, ListEntry, i + 1);
        return Err(KeyError("numbering"));
      }
      ls := ls + [(record.numbering.value, Set(record.meta, "query_name", Text(name)))];
    }
    assert source[..|source|] == source;
    r := Ok(ls);
  }

  /** `to_list` fails with `ValueError` exactly when there is no numbered output, and
      otherwise with `KeyError` exactly when a record of the chosen output has no
      numbering; the chosen output is the converted one exactly when that is truthy. */
  lemma ToListErrors(numbered: Option<ResultSet>, converted: Option<ResultSet>)
    ensures numbered.None? <==> ToListSpec(numbered, converted) == Err(ValueError(NoOutputToSave))
    ensures numbered.Some? ==>
              var source := if Truthy(converted) then converted.value else numbered.value;
              && ToListSpec(numbered, converted) == ListItems(source)
              && (ToListSpec(numbered, converted).Err? <==>
                    exists i :: 0 <= i < |source| && source[i].1.numbering.None?)
              && (ToListSpec(numbered, converted).Err? ==>
                    ToListSpec(numbered, converted) == Err(KeyError("numbering")))
  {
    if numbered.Some? {
      var source := if Truthy(converted) then converted.value else numbered.value;
      MapResultOk(source, ListEntry);
      if ListItems(source).Err? {
        var i :| 0 <= i < |source| && ListEntry(source[i]).Err?;
        var j := FirstFailing(source, i);
        MapResultFirstError(source, ListEntry, j);
      }
    }
  }

  /** The first record with no numbering at or before `i`. */
  lemma FirstFailing(source: ResultSet, i: nat) returns (j: nat)
    requires i < |source| && source[i].1.numbering.None?
    ensures j <= i && source[j].1.numbering.None?
    ensures forall k :: 0 <= k < j ==> ListEntry(source[k]).Ok?
  {
    j := i;
    while j > 0 && exists k :: 0 <= k < j && source[k].1.numbering.None?
      invariant j <= i && source[j].1.numbering.None?
      decreases j
    {
      var k :| 0 <= k < j && source[k].1.numbering.None?;
      j := k;
    }
  }

  /** One element per entry, in order: the entry's numbering, and its metadata with
      `query_name` set to the entry's name (appended when the record had none) and every
      other field as it was. */
  lemma ListItemsSpec(results: ResultSet)
    requires ListItems(results).Ok?
    ensures |ListItems(results).value| == |results|
    ensures forall i :: 0 <= i < |results| ==>
              var (name, record) := results[i];
              var (numbering, meta) := ListItems(results).value[i];
              && record.numbering == Some(numbering)
              && Get(meta, "query_name") == Some(Text(name))
              && Keys(meta) == (if "query_name" in Keys(record.meta) then Keys(record.meta)
                                else Keys(record.meta) + ["query_name"])
              && forall k :: k != "query_name" ==> Get(meta, k) == Get(record.meta, k)
  {
    MapResultOk(results, ListEntry);
    forall i, k | 0 <= i < |results| && k != "query_name"
      ensures Get(ListItems(results).value[i].1, k) == Get(results[i].1.meta, k)
    {
      SetGetOther(results[i].1.meta, "query_name", Text(results[i].0), k);
    }
  }

  /** Where `to_csv` and `to_json` take their data from. */
  datatype SaveSource =
    | ConvertedOutput(results: ResultSet)
    | TextFile(path: string)
    | NumberedOutput(results: ResultSet)

  /** The branch dispatch shared by `to_csv` and `to_json`: `max_len_exceed` and `text_`
      are the attributes of a long run, which the constructor does not set. */
  function SaveDispatch(numbered: Option<ResultSet>, converted: Option<ResultSet>, maxLenExceed: bool, text: string)
    : (r: Result<SaveSource>)
    ensures r.Err? <==> numbered.None? || (Truthy(converted) && maxLenExceed)
    ensures r.Err? ==> r.error.ValueError?
  {
    if numbered.None? then Err(ValueError(NoOutputToSave))
    else if Truthy(converted) && !maxLenExceed then Ok(ConvertedOutput(converted.value))
    else if Truthy(converted) && maxLenExceed then Err(ValueError(TooManyToConvert))
    else if maxLenExceed then Ok(TextFile(text))
    else Ok(NumberedOutput(numbered.value))
  }

  /** Saving fails exactly when there is no numbered output or when a truthy converted
      output meets a long run; it saves the converted output whenever it succeeds with
      one, and otherwise the text file of a long run or the numbered output. */
  lemma SaveDispatchSpec(numbered: Option<ResultSet>, converted: Option<ResultSet>, maxLenExceed: bool, text: string)
    ensures var r := SaveDispatch(numbered, converted, maxLenExceed, text);
            && (r.Err? <==> numbered.None? || (Truthy(converted) && maxLenExceed))
            && (r.Err? ==> r.error.ValueError?)
            && (r.Ok? && Truthy(converted) ==> r.value == ConvertedOutput(converted.value))
            && (r.Ok? && !Truthy(converted) ==> r.value == if maxLenExceed then TextFile(text) else NumberedOutput(numbered.value))
            && (r.Ok? && r.value.NumberedOutput? ==> Some(r.value.results) == numbered)
  {
  }

  /** Where `to_imgt_regions` takes its data from: never the converted output. */
  datatype RegionsSource = RegionsOfText(path: string) | RegionsOfNumbered(results: ResultSet)

  function RegionsDispatch(numbered: Option<ResultSet>, maxLenExceed: bool, text: string): (r: Result<RegionsSource>)
    ensures r.Err? <==> numbered.None?
    ensures r.Err? ==> r == Err(ValueError(NoOutput))
    ensures r.Ok? && !maxLenExceed ==> r.value.RegionsOfNumbered? && Some(r.value.results) == numbered
  {
    if numbered.None? then Err(ValueError(NoOutput))
    else if maxLenExceed then Ok(RegionsOfText(text))
    else Ok(RegionsOfNumbered(numbered.value))
  }

  /** What `ast.literal_eval(line.strip())` does with one line inside the `try`: a value,
      a `ValueError` or `SyntaxError` that the `except` catches (the line is skipped), or
      any other exception (a `TypeError` for an unhashable dict key, say), which nothing
      catches. */
  datatype LineRead<J> = Literal(x: J) | Rejected | Raised(error: Error)

  /** The items read back from the lines of the text file, in order, skipping the
      rejected lines, and the uncaught exception of the first line that raises one, after
      which no line is read. */
  function ReadBack<J>(lines: seq<string>, read: string -> LineRead<J>): (r: (seq<J>, Option<Error>))
    ensures |r.0| <= |lines|
  {
    if lines == [] then ([], None)
    else
      var (items, failure) := ReadBack(lines[..|lines| - 1], read);
      if failure.Some? then (items, failure)
      else
        match read(lines[|lines| - 1])
        case Literal(x) => (items + [x], None)
        case Rejected => (items, None)
        case Raised(e) => (items, Some(e))
  }

  /** `ast.literal_eval(line.strip())`: the parser sees the stripped line. */
  function ReadLine<J>(parse: string -> LineRead<J>): string -> LineRead<J> {
    line => parse(Strip(line))
  }

  /** Whether some line reads back as `x`. */
  predicate ParsesTo<J(==)>(lines: seq<string>, read: string -> LineRead<J>, x: J) {
    exists j :: 0 <= j < |lines| && read(lines[j]) == Literal(x)
  }

  /** No line raises an exception the loop does not catch. */
  predicate NoneRaised<J>(lines: seq<string>, read: string -> LineRead<J>) {
    forall j :: 0 <= j < |lines| ==> !read(lines[j]).Raised?
  }

  /** Every item written was read from some line; when no line raised, every line that
      reads back as an item is written. */
  lemma {:induction false} ParsedMembers<J>(lines: seq<string>, read: string -> LineRead<J>, x: J)
    ensures x in ReadBack(lines, read).0 ==> ParsesTo(lines, read, x)
    ensures ReadBack(lines, read).1.None? && ParsesTo(lines, read, x) ==> x in ReadBack(lines, read).0
  {
    if lines != [] {
      ParsedMembers(lines[..|lines| - 1], read, x);
      ParsesToSnoc(lines, read, x);
    }
  }

  lemma ParsesToSnoc<J>(lines: seq<string>, read: string -> LineRead<J>, x: J)
    requires lines != []
    ensures ParsesTo(lines, read, x) <==>
              ParsesTo(lines[..|lines| - 1], read, x) || read(lines[|lines| - 1]) == Literal(x)
  {
    var init := lines[..|lines| - 1];
    if ParsesTo(lines, read, x) {
      var j :| 0 <= j < |lines| && read(lines[j]) == Literal(x);
      if j < |init| {
        assert init[j] == lines[j];
      }
    }
    if ParsesTo(init, read, x) {
      var j :| 0 <= j < |init| && read(init[j]) == Literal(x);
      assert init[j] == lines[j];
    }
  }

  /** The loop stops with an exception exactly when some line raises one the `except`
      does not catch, and then with the first such line's exception, having written the
      items of the lines before it. */
  lemma {:induction false} ReadBackFailure<J>(lines: seq<string>, read: string -> LineRead<J>)
    ensures ReadBack(lines, read).1.None? <==> NoneRaised(lines, read)
    ensures forall k :: 0 <= k < |lines| && read(lines[k]).Raised? && NoneRaised(lines[..k], read) ==>
              ReadBack(lines, read) == (ReadBack(lines[..k], read).0, Some(read(lines[k]).error))
  {
    if lines != [] {
      var init := lines[..|lines| - 1];
      ReadBackFailure(init, read);
      NoneRaisedSnoc(lines, read);
      forall k | 0 <= k < |lines| && read(lines[k]).Raised? && NoneRaised(lines[..k], read)
        ensures ReadBack(lines, read) == (ReadBack(lines[..k], read).0, Some(read(lines[k]).error))
      {
        if k < |init| {
          assert init[k] == lines[k];
          assert init[..k] == lines[..k];
        } else {
          assert lines[..k] == init;
        }
      }
    }
  }

  lemma NoneRaisedSnoc<J>(lines: seq<string>, read: string -> LineRead<J>)
    requires lines != []
    ensures NoneRaised(lines, read) <==>
              NoneRaised(lines[..|lines| - 1], read) && !read(lines[|lines| - 1]).Raised?
  {
    var init := lines[..|lines| - 1];
    if NoneRaised(init, read) && !read(lines[|lines| - 1]).Raised? {
      forall j | 0 <= j < |lines|
        ensures !read(lines[j]).Raised?
      {
        if j < |init| {
          assert init[j] == lines[j];
        }
      }
    }
    if NoneRaised(lines, read) {
      forall j | 0 <= j < |init|
        ensures !read(init[j]).Raised?
      {
        assert init[j] == lines[j];
      }
    }
  }

  /** Once a prefix of the lines has raised, the loop ends with that exception. */
  lemma {:induction false} ReadBackPrefixFailure<J>(lines: seq<string>, i: nat, read: string -> LineRead<J>)
    requires i <= |lines| && ReadBack(lines[..i], read).1.Some?
    ensures ReadBack(lines, read) == ReadBack(lines[..i], read)
    decreases |lines| - i
  {
    if i < |lines| {
      assert lines[..i + 1][..i] == lines[..i];
      ReadBackPrefixFailure(lines, i + 1, read);
    } else {
      assert lines[..i] == lines;
    }
  }

  /** One more line, after lines that raised nothing. */
  lemma ReadBackStep<J>(lines: seq<string>, i: nat, read: string -> LineRead<J>)
    requires i < |lines| && ReadBack(lines[..i], read).1.None?
    ensures ReadBack(lines[..i + 1], read) ==
            match read(lines[i])
            case Literal(x) => (ReadBack(lines[..i], read).0 + [x], None)
            case Rejected => (ReadBack(lines[..i], read).0, None)
            case Raised(e) => (ReadBack(lines[..i], read).0, Some(e))
  {
    assert lines[..i + 1][..i] == lines[..i];
  }

  /** The JSON text of each item. */
  function Dumps<J>(items: seq<J>, dump: J -> string): (r: seq<string>)
    ensures |r| == |items|
  {
    if items == [] then [] else Dumps(items[..|items| - 1], dump) + [dump(items[|items| - 1])]
  }

  /** The parts with the separator between each two neighbours. */
  function Join(sep: string, parts: seq<string>): string {
    if parts == [] then ""
    else if |parts| == 1 then parts[0]
    else parts[0] + sep + Join(sep, parts[1..])
  }

  /** Joining two non-empty runs of parts puts one separator between them. */
  lemma {:induction false} JoinAppend(sep: string, a: seq<string>, b: seq<string>)
    requires a != [] && b != []
    ensures Join(sep, a + b) == Join(sep, a) + sep + Join(sep, b)
    decreases |a|
  {
    if |a| == 1 {
      assert (a + b)[1..] == b;
    } else {
      assert (a + b)[1..] == a[1..] + b;
      JoinAppend(sep, a[1..], b);
    }
  }

  /** The streamed JSON array: an opening line, the items separated by `,\n` and a
      closing line. */
  function JsonArray<J>(items: seq<J>, dump: J -> string): string {
    "[\n" + Join(",\n", Dumps(items, dump)) + "\n]\n"
  }

  /** What the streaming branch of `to_json` leaves in the file, and the exception that
      ends it early, if any: the full array when no line raises an uncaught exception,
      and otherwise the opening line and the items before that line, with no closing
      line. */
  function JsonOutput<J>(lines: seq<string>, read: string -> LineRead<J>, dump: J -> string): (string, Option<Error>) {
    var (items, failure) := ReadBack(lines, read);
    if failure.None? then (JsonArray(items, dump), None)
    else ("[\n" + Join(",\n", Dumps(items, dump)), failure)
  }

  /** The streaming branch of `to_json`: each line of the text file stripped and parsed,
      lines the `except` catches skipped, a separator written before every item but the
      first, and the loop left with any other exception. */
  method JsonStream<J>(lines: seq<string>, parse: string -> LineRead<J>, dump: J -> string)
    returns (out: string, failure: Option<Error>)
    ensures (out, failure) == JsonOutput(lines, ReadLine(parse), dump)
  {
    out := "[\n";
    var first := true;
    ghost var items: seq<J> := [];
    for i := 0 to |lines|
      invariant ReadBack(lines[..i], ReadLine(parse)) == (items, None)
      invariant first <==> items == []
      invariant out == "[\n" + Join(",\n", Dumps(items, dump))
    {
      ReadBackStep(lines, i, ReadLine(parse));
      var data := parse(Strip(lines[i]));
      match data
      case Raised(e) =>
        ReadBackPrefixFailure(lines, i + 1, ReadLine(parse));
        return out, Some(e);
      case Rejected =>
      case Literal(x) =>
        ghost var before := out;
        if !first {
          out := out + ",\n";
        }
        first := false;
        out := out + dump(x);
        JsonStreamStep(items, x, dump, before, out);
        items := items + [x];
    }
    assert lines[..|lines|] == lines;
    out := out + "\n]\n";
    failure := None;
  }

  /** One item more: its text after a separator, or alone when it is the first. */
  lemma JsonStreamStep<J>(items: seq<J>, x: J, dump: J -> string, before: string, after: string)
    requires before == "[\n" + Join(",\n", Dumps(items, dump))
    requires after == if items == [] then before + dump(x) else before + ",\n" + dump(x)
    ensures after == "[\n" + Join(",\n", Dumps(items + [x], dump))
  {
    assert (items + [x])[..|items|] == items;
    if items != [] {
      JoinAppend(",\n", Dumps(items, dump), [dump(x)]);
    }
  }

  /** With no parsable line the array is empty; with one item there is no separator;
      every further item adds exactly one separator. */
  lemma JsonArrayShape<J>(items: seq<J>, dump: J -> string)
    ensures items == [] ==> JsonArray(items, dump) == "[\n\n]\n"
    ensures |items| == 1 ==> JsonArray(items, dump) == "[\n" + dump(items[0]) + "\n]\n"
    ensures |items| > 1 ==>
              JsonArray(items, dump) ==
                "[\n" + Join(",\n", Dumps(items[..|items| - 1], dump)) + ",\n" + dump(items[|items| - 1]) + "\n]\n"
  {
    if |items| == 1 {
      assert items[..0] == [];
    } else if |items| > 1 {
      var init := items[..|items| - 1];
      var before := "[\n" + Join(",\n", Dumps(init, dump));
      JsonStreamStep(init, items[|items| - 1], dump, before, before + ",\n" + dump(items[|items| - 1]));
      assert items[..|items| - 1] + [items[|items| - 1]] == items;
    }
  }
}
