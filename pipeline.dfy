/** The numbering pipeline: the normalised input split into chunks of `max_seqs_len`
    sequences, each chunk numbered (by one model, or by the model of each type the
    classifier finds), its results put back into the chunk's key order, and the last
    numbered and converted outputs kept on the `Anarcii` object. The classifier, the
    numbering models, `convert_output` and `convert_number_scheme` are parameters. */
module Pipeline {
  import opened Wrappers
  import opened Dicts
  import opened PyStr
  import opened Records
  import opened InputProcessing

  /** The batches `batched(xs, n)` yields for `n >= 1`: `n` items at a time, the last
      batch holding what is left. */
  function Chunks<T>(xs: seq<T>, n: nat): seq<seq<T>>
    requires n >= 1
    decreases |xs|
  {
    if xs == [] then []
    else if |xs| <= n then [xs]
    else [xs[..n]] + Chunks(xs[n..], n)
  }

  /** `batched(xs, n)`: `ValueError` when `n < 1`. */
  function BatchedSpec<T>(xs: seq<T>, n: int): (r: Result<seq<seq<T>>>)
    ensures r.Err? <==> n < 1
    ensures r.Err? ==> r.error.ValueError?
  {
    if n < 1 then Err(ValueError("n must be at least one"))
    else Ok(Chunks(xs, n))
  }

  /** `batched`: take up to `n` items from the iterator until a take comes back empty. */
  method Batched<T>(xs: seq<T>, n: int) returns (r: Result<seq<seq<T>>>)
    ensures r == BatchedSpec(xs, n)
  {
    if n < 1 {
      return Err(ValueError("n must be at least one"));
    }
    var batches: seq<seq<T>> := [];
    var pos := 0;
    var batch := xs[pos..if pos + n <= |xs| then pos + n else |xs|];
    while batch != []
      invariant 0 <= pos <= |xs|
      invariant batch == xs[pos..if pos + n <= |xs| then pos + n else |xs|]
      invariant batches + Chunks(xs[pos..], n) == Chunks(xs, n)
      decreases |xs| - pos
    {
      ChunksStep(xs, pos, n);
      var end := pos + |batch|;
      assert batches + [batch] + Chunks(xs[end..], n) == batches + ([batch] + Chunks(xs[end..], n));
      batches := batches + [batch];
      pos := pos + |batch|;
      batch := xs[pos..if pos + n <= |xs| then pos + n else |xs|];
    }
    assert xs[pos..] == [];
    assert batches + [] == batches;
    r := Ok(batches);
  }

  /** The chunks from a position inside the sequence: the next batch of at most `n`
      elements, then the chunks after it. */
  lemma ChunksStep<T>(xs: seq<T>, pos: nat, n: nat)
    requires n >= 1 && pos < |xs|
    ensures var end := if pos + n <= |xs| then pos + n else |xs|;
            Chunks(xs[pos..], n) == [xs[pos..end]] + Chunks(xs[end..], n)
  {
    if |xs[pos..]| > n {
      assert xs[pos..][..n] == xs[pos..pos + n];
      assert xs[pos..][n..] == xs[pos + n..];
    } else {
      assert xs[pos..] == xs[pos..|xs|];
      assert xs[|xs|..] == [];
    }
  }

  /** The batches concatenate back to the input. */
  lemma {:induction false} ChunksFlatten<T>(xs: seq<T>, n: nat)
    requires n >= 1
    ensures Flatten(Chunks(xs, n)) == xs
    decreases |xs|
  {
    if xs != [] && |xs| > n {
      ChunksFlatten(xs[n..], n);
      FlattenCons(xs[..n], Chunks(xs[n..], n));
      assert xs[..n] + xs[n..] == xs;
    } else if xs != [] {
      assert [xs][..0] == [];
    }
  }

  lemma {:induction false} FlattenCons<T>(b: seq<T>, bs: seq<seq<T>>)
    ensures Flatten([b] + bs) == b + Flatten(bs)
    decreases |bs|
  {
    if bs == [] {
      assert ([b] + bs)[..0] == [];
      assert [b] + bs == [b];
    } else {
      var init := bs[..|bs| - 1];
      assert ([b] + bs)[..|bs|] == [b] + init;
      FlattenCons(b, init);
    }
  }

  /** No batch is empty or longer than `n`, and all but the last hold exactly `n`. */
  lemma {:induction false} ChunksSizes<T>(xs: seq<T>, n: nat)
    requires n >= 1
    ensures forall i :: 0 <= i < |Chunks(xs, n)| ==> 1 <= |Chunks(xs, n)[i]| <= n
    ensures forall i :: 0 <= i < |Chunks(xs, n)| - 1 ==> |Chunks(xs, n)[i]| == n
    decreases |xs|
  {
    if xs != [] && |xs| > n {
      ChunksSizes(xs[n..], n);
    }
  }

  /** There is more than one batch exactly when there are more than `n` items, and no
      batch exactly when there is no item. */
  lemma ChunksCount<T>(xs: seq<T>, n: nat)
    requires n >= 1
    ensures |Chunks(xs, n)| > 1 <==> |xs| > n
    ensures |Chunks(xs, n)| == 0 <==> xs == []
  {
    if |xs| > n {
      assert xs[n..] != [];
    }
  }

  /** A batch of a dict has no key twice. */
  lemma {:induction false} ChunksOfDict<V>(xs: Dict<string, V>, n: nat)
    requires n >= 1 && IsDict(xs)
    ensures forall i :: 0 <= i < |Chunks(xs, n)| ==> IsDict(Chunks(xs, n)[i])
    decreases |xs|
  {
    if xs != [] && |xs| > n {
      assert Keys(xs[..n]) == Keys(xs)[..n];
      assert Keys(xs[n..]) == Keys(xs)[n..];
      ChunksOfDict(xs[n..], n);
    }
  }

  /** `numbered[key]` for one key of the chunk. */
  function RekeyEntry(numbered: ResultSet, key: string): Result<(string, Record)> {
    var r :- Lookup(numbered, key);
    Ok((key, r))
  }

  /** `{key: numbered[key] for key in chunk}`: the results in the chunk's key order;
      the first key with no result raises `KeyError`. */
  function Rekey(keys: seq<string>, numbered: ResultSet): Result<ResultSet> {
    var pairs :- MapResult(keys, k => RekeyEntry(numbered, k));
    Ok(FromPairs(pairs))
  }

  /** Re-keying fails exactly when a key of the chunk has no result, with `KeyError` for
      the first such key. */
  lemma RekeyErrors(keys: seq<string>, numbered: ResultSet)
    ensures Rekey(keys, numbered).Ok? <==> forall i :: 0 <= i < |keys| ==> keys[i] in Keys(numbered)
    ensures forall i ::
              (0 <= i < |keys| && keys[i] !in Keys(numbered) && (forall j :: 0 <= j < i ==> keys[j] in Keys(numbered))) ==>
              Rekey(keys, numbered) == Err(KeyError(keys[i]))
  {
    var f := k => RekeyEntry(numbered, k);
    MapResultOk(keys, f);
    forall i | 0 <= i < |keys| && keys[i] !in Keys(numbered)
               && (forall j :: 0 <= j < i ==> keys[j] in Keys(numbered))
      ensures Rekey(keys, numbered) == Err(KeyError(keys[i]))
    {
      MapResultFirstError(keys, f, i);
    }
  }

  /** Re-keyed results have exactly the chunk's keys in the chunk's order, each with
      its result; results for keys outside the chunk are dropped. */
  lemma RekeyKeys(keys: seq<string>, numbered: ResultSet)
    requires Distinct(keys) && Rekey(keys, numbered).Ok?
    ensures Keys(Rekey(keys, numbered).value) == keys
    ensures forall k :: k in keys ==> Get(Rekey(keys, numbered).value, k) == Get(numbered, k)
  {
    var f := k => RekeyEntry(numbered, k);
    MapResultOk(keys, f);
    var pairs := MapResult(keys, f).value;
    assert Keys(pairs) == keys;
    FromPairsOfDistinct(pairs);
    forall k | k in keys
      ensures Get(pairs, k) == Get(numbered, k)
    {
      var i :| 0 <= i < |keys| && keys[i] == k;
      RekeyedGet(keys, numbered, pairs, i);
    }
  }

  /** In re-keyed pairs with distinct keys, key `i` holds its result. */
  lemma RekeyedGet(keys: seq<string>, numbered: ResultSet, pairs: seq<(string, Record)>, i: nat)
    requires Distinct(keys) && Keys(pairs) == keys && i < |keys|
    requires RekeyEntry(numbered, keys[i]).Ok? && pairs[i] == RekeyEntry(numbered, keys[i]).value
    ensures Get(pairs, keys[i]) == Get(numbered, keys[i])
  {
    GetAt(pairs, i);
  }

  /** The merged numbering of the classifier's groups: each group numbered with the
      model of its type, the results updated into one dict in group order. */
  function MergeNumbered(groups: Dict<string, SeqMap>, numberWithType: (SeqMap, string) -> ResultSet): ResultSet {
    if groups == [] then []
    else
      var (t, sequences) := groups[|groups| - 1];
      Update(MergeNumbered(groups[..|groups| - 1], numberWithType), numberWithType(sequences, t))
  }

  /** Whether some group's numbering has a result for `k`. */
  predicate NumberedInSomeGroup(groups: Dict<string, SeqMap>, numberWithType: (SeqMap, string) -> ResultSet, k: string) {
    exists i :: 0 <= i < |groups| && k in Keys(numberWithType(groups[i].1, groups[i].0))
  }

  /** A name has a merged result exactly when some group's numbering has it. */
  lemma {:induction false} MergeNumberedKeys(groups: Dict<string, SeqMap>, numberWithType: (SeqMap, string) -> ResultSet, k: string)
    ensures k in Keys(MergeNumbered(groups, numberWithType)) <==> NumberedInSomeGroup(groups, numberWithType, k)
  {
    if groups != [] {
      var init := groups[..|groups| - 1];
      var last := numberWithType(groups[|groups| - 1].1, groups[|groups| - 1].0);
      MergeNumberedKeys(init, numberWithType, k);
      UpdateKeys(MergeNumbered(init, numberWithType), last);
      AppendNewMembers(Keys(MergeNumbered(init, numberWithType)), Keys(last));
      NumberedInSomeGroupSnoc(groups, numberWithType, k);
    }
  }

  lemma NumberedInSomeGroupSnoc(groups: Dict<string, SeqMap>, numberWithType: (SeqMap, string) -> ResultSet, k: string)
    requires groups != []
    ensures NumberedInSomeGroup(groups, numberWithType, k) <==>
              || NumberedInSomeGroup(groups[..|groups| - 1], numberWithType, k)
              || k in Keys(numberWithType(groups[|groups| - 1].1, groups[|groups| - 1].0))
  {
    var init := groups[..|groups| - 1];
    if NumberedInSomeGroup(groups, numberWithType, k) {
      var i :| 0 <= i < |groups| && k in Keys(numberWithType(groups[i].1, groups[i].0));
      if i < |init| {
        assert init[i] == groups[i];
      }
    }
    if NumberedInSomeGroup(init, numberWithType, k) {
      var i :| 0 <= i < |init| && k in Keys(numberWithType(init[i].1, init[i].0));
      assert init[i] == groups[i];
    }
  }

  /** The last group's numbering replaces what the earlier groups gave a name. */
  lemma MergeNumberedLast(groups: Dict<string, SeqMap>, numberWithType: (SeqMap, string) -> ResultSet, k: string)
    requires groups != []
    ensures var last := numberWithType(groups[|groups| - 1].1, groups[|groups| - 1].0);
            Get(MergeNumbered(groups, numberWithType), k) ==
              match LastValue(last, k)
              case Some(v) => Some(v)
              case None => Get(MergeNumbered(groups[..|groups| - 1], numberWithType), k)
  {
    var last := numberWithType(groups[|groups| - 1].1, groups[|groups| - 1].0);
    UpdateGet(MergeNumbered(groups[..|groups| - 1], numberWithType), last, k);
  }

  /** The numbered chunk before re-keying: merged over the classifier's groups in
      `"unknown"` mode, numbered by the model of the sequence type otherwise. */
  function NumberedChunk(chunk: SeqMap, seqType: string, classify: SeqMap -> Dict<string, SeqMap>,
                         numberWithType: (SeqMap, string) -> ResultSet): ResultSet {
    if seqType == "unknown" then MergeNumbered(classify(chunk), numberWithType)
    else numberWithType(chunk, seqType)
  }

  /** One chunk of `number`: `dict(chunk)`, numbered, then re-keyed to the chunk. */
  function ChunkResult(chunk: seq<(string, string)>, seqType: string, classify: SeqMap -> Dict<string, SeqMap>,
                       numberWithType: (SeqMap, string) -> ResultSet): Result<ResultSet> {
    var c := FromPairs(chunk);
    Rekey(Keys(c), NumberedChunk(c, seqType, classify, numberWithType))
  }

  /** Every successful chunk result has the chunk's keys in the chunk's order. */
  lemma ChunkResultKeys(chunk: seq<(string, string)>, seqType: string, classify: SeqMap -> Dict<string, SeqMap>,
                        numberWithType: (SeqMap, string) -> ResultSet)
    requires IsDict(chunk) && ChunkResult(chunk, seqType, classify, numberWithType).Ok?
    ensures Keys(ChunkResult(chunk, seqType, classify, numberWithType).value) == Keys(chunk)
  {
    FromPairsOfDistinct(chunk);
    RekeyKeys(Keys(chunk), NumberedChunk(chunk, seqType, classify, numberWithType));
  }

  /** The chunk loop: the last numbered output after each chunk (assigned only when not
      serialising) and the exception that stopped the loop, if any. */
  function RunChunks(chunks: seq<seq<(string, string)>>, last: Option<ResultSet>, serialise: bool, seqType: string,
                     classify: SeqMap -> Dict<string, SeqMap>, numberWithType: (SeqMap, string) -> ResultSet)
    : (Option<ResultSet>, Option<Error>)
  {
    if chunks == [] then (last, None)
    else
      var (before, failure) := RunChunks(chunks[..|chunks| - 1], last, serialise, seqType, classify, numberWithType);
      if failure.Some? then (before, failure)
      else
        match ChunkResult(chunks[|chunks| - 1], seqType, classify, numberWithType)
        case Err(e) => (before, Some(e))
        case Ok(numbered) => (if serialise then before else Some(numbered), None)
  }

  /** When serialising, the last numbered output is never assigned. */
  lemma {:induction false} RunChunksSerialise(chunks: seq<seq<(string, string)>>, last: Option<ResultSet>, seqType: string,
                                              classify: SeqMap -> Dict<string, SeqMap>, numberWithType: (SeqMap, string) -> ResultSet)
    ensures RunChunks(chunks, last, true, seqType, classify, numberWithType).0 == last
  {
    if chunks != [] {
      RunChunksSerialise(chunks[..|chunks| - 1], last, seqType, classify, numberWithType);
    }
  }

  /** `number`'s effect: the input normalised and split, batched by `max_seqs_len`, and
      the chunk loop run with serialisation chosen once, before the loop. In verbose
      mode the chunk count is printed first, dividing by `max_seqs_len`. */
  function NumberRun(input: Input, read: string -> seq<(string, string)>, maxSeqsLen: int, verbose: bool,
                     seqType: string, classify: SeqMap -> Dict<string, SeqMap>,
                     numberWithType: (SeqMap, string) -> ResultSet,
                     last: Option<ResultSet>): (Option<ResultSet>, Option<Error>)
  {
    match CoerceInput(input, read)
    case Err(e) => (last, Some(e))
    case Ok(coerced) =>
      var seqs := SplitSequences(coerced);
      if verbose && maxSeqsLen == 0 then (last, Some(ZeroDivisionError))
      else
        match BatchedSpec(seqs, maxSeqsLen)
        case Err(e) => (last, Some(e))
        case Ok(chunks) => RunChunks(chunks, last, |seqs| > maxSeqsLen, seqType, classify, numberWithType)
  }

  /** With more sequences than `max_seqs_len` the last numbered output is left as it
      was; with at most that many it becomes the numbering of all of them, in input
      order, or stays as it was when there are none. */
  lemma NumberRunOutput(input: Input, read: string -> seq<(string, string)>, maxSeqsLen: int, verbose: bool, seqType: string,
                        classify: SeqMap -> Dict<string, SeqMap>, numberWithType: (SeqMap, string) -> ResultSet,
                        last: Option<ResultSet>)
    requires maxSeqsLen >= 1 && CoerceInput(input, read).Ok?
    ensures var seqs := SplitSequences(CoerceInput(input, read).value);
            var (out, failure) := NumberRun(input, read, maxSeqsLen, verbose, seqType, classify, numberWithType, last);
            && (|seqs| > maxSeqsLen ==> out == last)
            && (seqs == [] ==> out == last && failure == None)
            && (0 < |seqs| <= maxSeqsLen && failure == None ==> out.Some? && Keys(out.value) == Keys(seqs))
  {
    var seqs := SplitSequences(CoerceInput(input, read).value);
    NumberRunChunks(input, read, maxSeqsLen, verbose, seqType, classify, numberWithType, last);
    ChunkLoopOutput(seqs, maxSeqsLen, seqType, classify, numberWithType, last);
  }

  /** With a usable `max_seqs_len` and an accepted input, `number` is the chunk loop over
      the batches of the split sequences. */
  lemma NumberRunChunks(input: Input, read: string -> seq<(string, string)>, maxSeqsLen: int, verbose: bool, seqType: string,
                        classify: SeqMap -> Dict<string, SeqMap>, numberWithType: (SeqMap, string) -> ResultSet,
                        last: Option<ResultSet>)
    requires maxSeqsLen >= 1 && CoerceInput(input, read).Ok?
    ensures var seqs := SplitSequences(CoerceInput(input, read).value);
            NumberRun(input, read, maxSeqsLen, verbose, seqType, classify, numberWithType, last) ==
            RunChunks(Chunks(seqs, maxSeqsLen), last, |seqs| > maxSeqsLen, seqType, classify, numberWithType)
  {
  }

  /** The chunk loop over the batches of a dict of sequences: serialising leaves the
      last output alone, no sequence leaves it alone, and a single chunk that succeeds
      becomes the output, with the dict's keys. */
  lemma ChunkLoopOutput(seqs: SeqMap, maxSeqsLen: nat, seqType: string,
                        classify: SeqMap -> Dict<string, SeqMap>, numberWithType: (SeqMap, string) -> ResultSet,
                        last: Option<ResultSet>)
    requires maxSeqsLen >= 1 && IsDict(seqs)
    ensures var (out, failure) := RunChunks(Chunks(seqs, maxSeqsLen), last, |seqs| > maxSeqsLen, seqType, classify, numberWithType);
            && (|seqs| > maxSeqsLen ==> out == last)
            && (seqs == [] ==> out == last && failure == None)
            && (0 < |seqs| <= maxSeqsLen && failure == None ==> out.Some? && Keys(out.value) == Keys(seqs))
  {
    var chunks := Chunks(seqs, maxSeqsLen);
    ChunksCount(seqs, maxSeqsLen);
    if |seqs| > maxSeqsLen {
      RunChunksSerialise(chunks, last, seqType, classify, numberWithType);
    } else if seqs != [] {
      assert chunks == [seqs];
      assert chunks[..0] == [];
      if ChunkResult(seqs, seqType, classify, numberWithType).Ok? {
        ChunkResultKeys(seqs, seqType, classify, numberWithType);
      }
    }
  }

  /** The `Anarcii` object: its configuration, lower-cased where the source lower-cases
      it, and the last outputs. */
  class Anarcii {
    const seqType: string
    const mode: string
    const batchSize: int
    const verbose: bool
    const maxSeqsLen: int
    const outputFormat: string
    var lastNumberedOutput: Option<ResultSet>
    var lastConvertedOutput: Option<ResultSet>
    var altScheme: Option<string>

    constructor(seqType: string, mode: string, batchSize: int, outputFormat: string, verbose: bool, maxSeqsLen: int)
      ensures this.seqType == Lower(seqType) && this.mode == Lower(mode)
      ensures this.outputFormat == Lower(outputFormat)
      ensures this.batchSize == batchSize && this.verbose == verbose && this.maxSeqsLen == maxSeqsLen
      ensures lastNumberedOutput == None && lastConvertedOutput == None && altScheme == None
    {
      this.seqType := Lower(seqType);
      this.mode := Lower(mode);
      this.batchSize := batchSize;
      this.verbose := verbose;
      this.maxSeqsLen := maxSeqsLen;
      this.outputFormat := Lower(outputFormat);
      lastNumberedOutput := None;
      lastConvertedOutput := None;
      altScheme := None;
    }

    /** `number`: normalise and split the input, number it chunk by chunk, keep the last
        chunk's results unless serialising, and return `convert_output` of the last
        numbered output. The converted output and the alternate scheme are untouched. */
    method Number<R>(input: Input, read: string -> seq<(string, string)>,
                     classify: SeqMap -> Dict<string, SeqMap>, numberWithType: (SeqMap, string) -> ResultSet,
                     convert: (Option<ResultSet>, string) -> R)
      returns (r: Result<R>)
      modifies this
      ensures (lastNumberedOutput, if r.Err? then Some(r.error) else None) ==
              NumberRun(input, read, maxSeqsLen, verbose, seqType, classify, numberWithType, old(lastNumberedOutput))
      ensures r.Ok? ==> r.value == convert(lastNumberedOutput, outputFormat)
      ensures lastConvertedOutput == old(lastConvertedOutput) && altScheme == old(altScheme)
    {
      var coerced := CoerceInput(input, read);
      if coerced.Err? {
        return Err(coerced.error);
      }
      var seqs := SplitSequences(coerced.value);
      var serialise := |seqs| > maxSeqsLen;
      if verbose && maxSeqsLen == 0 {
        return Err(ZeroDivisionError);
      }
      var chunks := Batched(seqs, maxSeqsLen);
      if chunks.Err? {
        return Err(chunks.error);
      }
      var failure := NumberChunks(chunks.value, serialise, classify, numberWithType);
      if failure.Some? {
        return Err(failure.value);
      }
      r := Ok(convert(lastNumberedOutput, outputFormat));
    }

    /** The chunk loop of `number`, stopping at the first exception. */
    method NumberChunks(chunks: seq<seq<(string, string)>>, serialise: bool,
                        classify: SeqMap -> Dict<string, SeqMap>, numberWithType: (SeqMap, string) -> ResultSet)
      returns (failure: Option<Error>)
      modifies this
      ensures (lastNumberedOutput, failure) ==
              RunChunks(chunks, old(lastNumberedOutput), serialise, seqType, classify, numberWithType)
      ensures lastConvertedOutput == old(lastConvertedOutput) && altScheme == old(altScheme)
    {
      var i := 0;
      while i < |chunks|
        invariant 0 <= i <= |chunks|
        invariant RunChunks(chunks[..i], old(lastNumberedOutput), serialise, seqType, classify, numberWithType)
                  == (lastNumberedOutput, None)
        invariant lastConvertedOutput == old(lastConvertedOutput) && altScheme == old(altScheme)
      {
        RunChunksStep(chunks, i, old(lastNumberedOutput), lastNumberedOutput, serialise, seqType, classify, numberWithType);
        var numbered := NumberChunk(chunks[i], classify, numberWithType);
        if numbered.Err? {
          RunChunksPrefixFailure(chunks, i + 1, old(lastNumberedOutput), serialise, seqType, classify, numberWithType);
          return Some(numbered.error);
        }
        if !serialise {
          lastNumberedOutput := Some(numbered.value);
        }
        i := i + 1;
      }
      assert chunks[..i] == chunks;
      failure := None;
    }

    /** The body of the chunk loop: number the chunk (merging the classifier's groups in
        `"unknown"` mode) and restore the chunk's key order. */
    method NumberChunk(chunk: seq<(string, string)>, classify: SeqMap -> Dict<string, SeqMap>,
                       numberWithType: (SeqMap, string) -> ResultSet)
      returns (r: Result<ResultSet>)
      ensures r == ChunkResult(chunk, seqType, classify, numberWithType)
    {
      var c := FromPairs(chunk);
      var numbered: ResultSet;
      if seqType == "unknown" {
        var classified := classify(c);
        numbered := [];
        var j := 0;
        while j < |classified|
          invariant 0 <= j <= |classified|
          invariant numbered == MergeNumbered(classified[..j], numberWithType)
        {
          assert classified[..j + 1][..j] == classified[..j];
          var (t, sequences) := classified[j];
          numbered := Update(numbered, numberWithType(sequences, t));
          j := j + 1;
        }
        assert classified[..j] == classified;
      } else {
        numbered := numberWithType(c, seqType);
      }
      r := Rekey(Keys(c), numbered);
    }

    /** `to_scheme`: `ValueError` with no numbered output; otherwise the converted output
        and the scheme are recorded and the numbered output is kept. */
    method ToScheme(scheme: string, convertScheme: (ResultSet, string) -> ResultSet) returns (r: Result<ResultSet>)
      modifies this
      ensures old(lastNumberedOutput).None? ==>
                && r == Err(ValueError("No output to convert. Run the model first."))
                && lastConvertedOutput == old(lastConvertedOutput) && altScheme == old(altScheme)
      ensures old(lastNumberedOutput).Some? ==>
                && r == Ok(convertScheme(old(lastNumberedOutput).value, scheme))
                && lastConvertedOutput == Some(r.value) && altScheme == Some(scheme)
      ensures lastNumberedOutput == old(lastNumberedOutput)
    {
      if lastNumberedOutput.None? {
        return Err(ValueError("No output to convert. Run the model first."));
      }
      var converted := convertScheme(lastNumberedOutput.value, scheme);
      lastConvertedOutput := Some(converted);
      altScheme := Some(scheme);
      r := Ok(converted);
    }
  }

  /** One more chunk, after chunks that all succeeded: its result is assigned unless
      serialising, or its exception stops the loop. */
  lemma RunChunksStep(chunks: seq<seq<(string, string)>>, i: nat, last: Option<ResultSet>, before: Option<ResultSet>,
                      serialise: bool, seqType: string,
                      classify: SeqMap -> Dict<string, SeqMap>, numberWithType: (SeqMap, string) -> ResultSet)
    requires i < |chunks| && RunChunks(chunks[..i], last, serialise, seqType, classify, numberWithType) == (before, None)
    ensures RunChunks(chunks[..i + 1], last, serialise, seqType, classify, numberWithType) ==
            match ChunkResult(chunks[i], seqType, classify, numberWithType)
            case Err(e) => (before, Some(e))
            case Ok(numbered) => (if serialise then before else Some(numbered), None)
  {
    assert chunks[..i + 1][..i] == chunks[..i];
  }

  /** Once a prefix of the chunks has failed, the loop ends with that failure. */
  lemma {:induction false} RunChunksPrefixFailure(chunks: seq<seq<(string, string)>>, i: nat, last: Option<ResultSet>,
                                                  serialise: bool, seqType: string,
                                                  classify: SeqMap -> Dict<string, SeqMap>,
                                                  numberWithType: (SeqMap, string) -> ResultSet)
    requires i <= |chunks| && RunChunks(chunks[..i], last, serialise, seqType, classify, numberWithType).1.Some?
    ensures RunChunks(chunks, last, serialise, seqType, classify, numberWithType)
            == RunChunks(chunks[..i], last, serialise, seqType, classify, numberWithType)
    decreases |chunks| - i
  {
    if i < |chunks| {
      assert chunks[..i + 1][..i] == chunks[..i];
      RunChunksPrefixFailure(chunks, i + 1, last, serialise, seqType, classify, numberWithType);
    } else {
      assert chunks[..i] == chunks;
    }
  }
}
