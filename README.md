# ANARCII data-shaping layer in Dafny

ANARCII numbers antibody and T-cell receptor sequences with a neural model. This
project models the deterministic code around that model. It covers:

- how user input is normalised into an ordered map of names to sequences;
- how that map is cut into chunks and every chunk's results are put back in input order;
- what the `Anarcii` object remembers between calls;
- how results are laid out as aligned CSV tables;
- the windowing and structure helpers.

Python dicts are insertion-ordered sequences of `(key, value)` pairs (`Dicts`):
- assigning to a present key updates it in place;
- assigning to a new key appends it;
- `update` assigns item by item.

Exceptions are the `Err` case of a `Result`. The model works on the data, not on the bytes.

Modules, by source file:

- `InputProcessing` (`input_data_processing/__init__.py`):
  - `coerce_input` as a dispatch over one constructor per input shape, with `dict(...)` tried first;
  - the suffix check and entry filter of `file_input`;
  - `split_sequence` and `split_sequences`.
- `InputUtils` (`input_data_processing/utils.py`): `split_seq` windows, and the token list of `pick_windows` built by an abstract encoder.
- `PdbUtils` (`pdb_process/utils.py`): the `THREE_TO_ONE` table, and `find_repeated_sequences` as a left-to-right greedy scan.
- `ResidueOrder` (`output_data_processing/__init__.py`):
  - `numbered_sequence_dict`;
  - the `SortedSet` of residue keys;
  - `imgt_order` and its seven segments.
- `CsvOutput` (`output_data_processing/__init__.py`):
  - the header and rows that `write_csv` hands to `csv.DictWriter`;
  - the two-pass `_stream_csv_to_file`.
- `ListTo` (`output_data_processing/list_to.py`): the legacy `write_csv` rows and its `split_key` column order.
- `Pipeline` (`pipeline/__init__.py`):
  - `batched`;
  - the class `Anarcii` with its three output fields, `number` and `to_scheme`.
- `Methods` (`pipeline/methods.py`):
  - `to_list`;
  - the branch dispatch of `to_csv`, `to_json` and `to_imgt_regions`;
  - the JSON-array framing loop of `to_json`.

The neural collaborators are function parameters, so every property about them holds whatever they return. They are:
- the classifier;
- `number_with_type`;
- `convert_output`;
- `convert_number_scheme`;
- the reader of sequence files;
- the token encoder;
- the window model.

Where the code and its surroundings disagree, the model follows the code:

- `pipeline/__init__.py:16-23` imports `to_text` and `to_dict` from `methods.py`, which defines neither.
- `methods.py:4-8` imports `return_imgt_regions` and `write_json` from `list_to.py`, which defines neither. `return_imgt_regions` and the JSON writer are therefore parameters or left out.
- `to_list` is not attached to the object in `__init__` (`pipeline/__init__.py:94-99`), yet `tests/test_shark.py:68` calls it. `Methods.ToList` takes the object as an argument.
- `methods.py` reads `max_len_exceed` and `text_`, which the constructor never sets. They are explicit inputs of the dispatch functions.
- `to_csv` passes the results dict to `list_to.write_csv` (`methods.py:71`, `:95`), which expects a list of `(numbering, meta)` pairs. Each function is modelled against its own input type. The dispatch only says which data is handed over.
- `write_csv:119` and `_stream_csv_to_file:169` read the loop variable `result` after the loop, so empty input raises there. Non-emptiness is a precondition of `CsvOutput.WriteCsv` and `CsvOutput.StreamCsv`.
- `_stream_csv_to_file:184` calls `update` on the residue set after the IMGT branch replaced it with an `itertools.chain`; see Findings.
- `coerce_input` names a lone string `Sequence` and list elements `Sequence 1`, ... (`input_data_processing/__init__.py:110`, `:122`). The tests expect `sequence` and `sequence-1` (`tests/test_input_data_processing.py:8-19`).
- Because `dict(...)` is tried first (`:93`), a list of two-character strings is read as one-character name/sequence pairs.

## Model

| member | source | states |
|---|---|---|
| Wrappers.MapResultOk | src/anarcii/pipeline/methods.py:42-51 | a loop that stops at the first exception succeeds iff every step does, with one result per element, in order |
| Wrappers.MapResultFirstError | src/anarcii/pipeline/__init__.py:150 | the first failing step's exception is the loop's exception |
| Dicts.Lookup | src/anarcii/output_data_processing/__init__.py:109-110 | `m[k]` raises `KeyError(k)` iff `k` is not a key, and otherwise returns the key's value |
| Dicts.Set | src/anarcii/output_data_processing/list_to.py:20-23 | assignment keeps the key order (a new key goes last) and the key then holds the new value |
| Dicts.SetGetOther | src/anarcii/pipeline/methods.py:47 | assigning to one key leaves every other key's value unchanged |
| Dicts.UpdateGet | src/anarcii/pipeline/__init__.py:144 | after `update`, a key holds the value of its last item, or its old value when no item names it |
| Dicts.UpdateKeys | src/anarcii/pipeline/__init__.py:144 | after `update`, the old keys keep their places and new keys follow in order of first appearance |
| Dicts.FromPairsOfDistinct | src/anarcii/input_data_processing/__init__.py:93 | `dict(items)` with distinct keys is the items themselves, in order |
| Dicts.FromPairsIsDict | src/anarcii/pipeline/__init__.py:126 | `dict(items)` never holds a key twice |
| PyStr.DigitsValueOfNatToString | src/anarcii/output_data_processing/list_to.py:42 | `int(str(n)) == n` |
| PyStr.ZeroPadValue | src/anarcii/input_data_processing/__init__.py:122 | `f"{i:0{w}d}"` reads back as `i` |
| PyStr.ZeroPadInjective | src/anarcii/input_data_processing/__init__.py:162 | different numbers give different zero-padded strings |
| PyStr.StripByShape | src/anarcii/input_data_processing/__init__.py:147 | `strip(chars)` keeps a contiguous slice of the input and removes only characters from the set before and after it |
| PyStr.StripByEnds | src/anarcii/input_data_processing/__init__.py:147 | what `strip(chars)` keeps, when non-empty, neither starts nor ends with one of those characters |
| InputProcessing.FileInput | src/anarcii/input_data_processing/__init__.py:51-62 | raises `ValueError` with the unsupported-extension message iff no suffix of the name is a FASTA or PIR suffix |
| InputProcessing.FileInputEntries | src/anarcii/input_data_processing/__init__.py:55 | every kept entry has a non-empty header and a non-empty sequence, and every such entry's header is a key; the keys are the kept headers in order of first appearance, each holding the sequence of the last kept entry with that header |
| InputProcessing.NonEmptyEntries | src/anarcii/input_data_processing/__init__.py:55 | exactly the entries with a non-empty header and sequence are kept |
| InputProcessing.UnsupportedSuffixRefused | src/anarcii/input_data_processing/__init__.py:57-62 | `a.txt` is refused with `ValueError` |
| InputProcessing.GzippedFastaAccepted | src/anarcii/input_data_processing/__init__.py:51 | `d/a.fa.gz` is accepted: any suffix may be the FASTA one |
| InputProcessing.CoerceDict | src/anarcii/input_data_processing/__init__.py:93 | a dict is returned with the same pairs in the same order |
| InputProcessing.CoerceListOfPairs | src/anarcii/input_data_processing/__init__.py:93 | a list of name-sequence tuples with distinct names is returned as those pairs, in order |
| InputProcessing.CoerceString | src/anarcii/input_data_processing/__init__.py:103-110 | a suffix-less string becomes `{"Sequence": s}`; any string whose file name has a suffix is taken for a path and read as a file, so it is refused with the unsupported-extension `ValueError` unless a suffix is FASTA or PIR |
| InputProcessing.DottedSequenceRefused | src/anarcii/input_data_processing/__init__.py:105-108 | the peptide `EVQL.VES` is taken for a file name and refused with `ValueError`, never numbered |
| InputProcessing.CoerceTuple | src/anarcii/input_data_processing/__init__.py:112-115 | a single `(name, seq)` tuple becomes a one-entry map unless both strings have two characters; then `dict()` reads it as `{name[0]: name[1], sequence[0]: sequence[1]}`, only `sequence[1]` kept when both first characters are equal |
| InputProcessing.TupleSharedKey | src/anarcii/input_data_processing/__init__.py:93 | `("ab", "ac")` becomes the one-entry map `{"a": "c"}` |
| InputProcessing.CoerceListOfStrings | src/anarcii/input_data_processing/__init__.py:117-123 | a list of strings is named `Sequence i`, with `i` zero-padded to the width of the list length, in list order |
| InputProcessing.SequenceNamesDistinct | src/anarcii/input_data_processing/__init__.py:122 | different list positions get different names |
| InputProcessing.LoneStringNameDiffersFromTests | src/anarcii/input_data_processing/__init__.py:110 | the code names a lone string `Sequence`, not the `sequence` the tests expect |
| InputProcessing.ListNamesDifferFromTests | src/anarcii/input_data_processing/__init__.py:121-123 | the code names list elements `Sequence 1`, not the `sequence-1` the tests expect |
| InputProcessing.TwoCharacterStringsReadAsPairs | src/anarcii/input_data_processing/__init__.py:93 | `["AB", "CD"]` is read as `{"A": "B", "C": "D"}` |
| InputProcessing.CoerceInputErrors | src/anarcii/input_data_processing/__init__.py:65-125 | coercion fails iff the input is of no recognised type (`TypeError("Invalid input type.")`), a path or suffixed string none of whose suffixes is FASTA or PIR (`ValueError` naming the file), or a list mixing tuples with strings that are not two characters long (`AttributeError`) |
| InputProcessing.CoerceInput | src/anarcii/input_data_processing/__init__.py:65-125 | `coerce_input`: `dict()` first, then the branch by type; its error cases are stated by `CoerceInputErrors` and its results by the `Coerce…` lemmas above |
| InputProcessing.SplitWhereParts | src/anarcii/input_data_processing/__init__.py:158 | `re.split` gives one part more than there are delimiters, no part holds one, and the parts concatenate to the string without delimiters |
| InputProcessing.SplitSequenceSpec | src/anarcii/input_data_processing/__init__.py:147-165 | without an inner delimiter one pair under the original name; otherwise one part per delimiter plus one, named `name-i` zero-padded to the part count's width, concatenating to the stripped sequence minus delimiters, empty parts kept |
| InputProcessing.StrippedEnds | src/anarcii/input_data_processing/__init__.py:147 | the stripped sequence neither starts nor ends with a delimiter |
| InputProcessing.PartNamesDistinct | src/anarcii/input_data_processing/__init__.py:162 | the parts of one sequence have distinct names |
| InputProcessing.SplitSequencesAppend | src/anarcii/input_data_processing/__init__.py:180-186 | the parts of a later entry are assigned after those of the earlier entries, in order |
| InputProcessing.SplitSequencesInOrder | src/anarcii/input_data_processing/__init__.py:180-186 | with no name clash, the result is each entry's parts in input order, at the entry's position |
| InputProcessing.SplitSequences | src/anarcii/input_data_processing/__init__.py:168-186 | the split parts of every entry gathered into one dict, which holds no name twice |
| InputUtils.FloorDiv | src/anarcii/input_data_processing/utils.py:8 | Python's `//` rounds towards minus infinity |
| InputUtils.SplitSeq | src/anarcii/input_data_processing/utils.py:6-10 | `ZeroDivisionError` iff `n_jump == 0` |
| InputUtils.SplitSeqWindows | src/anarcii/input_data_processing/utils.py:8-9 | `max(0, (len - window) // jump)` windows, window `x` is `seq[jump*x : jump*x + window]` and exactly `window` long |
| InputUtils.SplitSeqTooShort | src/anarcii/input_data_processing/utils.py:8-9 | a window longer than the sequence gives no window |
| InputUtils.Bookend | src/anarcii/input_data_processing/utils.py:21 | the start token, each residue as a one-letter token, the end token |
| InputUtils.TokenList | src/anarcii/input_data_processing/utils.py:20-27 | one entry per sequence, entry `i` depending only on sequence `i`: its bookended encoding, or empty when the encoder raises `KeyError` |
| InputUtils.PickWindows | src/anarcii/input_data_processing/utils.py:13-30 | the append loop builds exactly the token list, which is what the window model is asked about |
| PdbUtils.ThreeToOneIsDict | src/anarcii/pdb_process/utils.py:7-28 | twenty entries, three-letter keys, no key twice |
| PdbUtils.ThreeToOneInjective | src/anarcii/pdb_process/utils.py:7-28 | the one-letter codes are single letters and distinct, so the table is injective |
| PdbUtils.LongestFromSpec | src/anarcii/pdb_process/utils.py:34 | the greedy group finds the longest qualifying stretch (at least 50, repeated at or after its end) |
| PdbUtils.ScanGreedy | src/anarcii/pdb_process/utils.py:34-48 | every match is the longest qualifying stretch at its start |
| PdbUtils.ScanOrdered | src/anarcii/pdb_process/utils.py:48 | matches do not overlap and come left to right |
| PdbUtils.ScanMatches | src/anarcii/pdb_process/utils.py:31-34 | every counted stretch is at least 50 long and occurs again at or after its own end |
| PdbUtils.ScanLeftmost | src/anarcii/pdb_process/utils.py:48 | no qualifying stretch starts between the scan position and the first match |
| PdbUtils.ShortSequenceHasNoRepeat | src/anarcii/pdb_process/utils.py:31-34 | a sequence shorter than 100 residues has count 0 |
| PdbUtils.ScanCount | src/anarcii/pdb_process/utils.py:37-48 | the count is non-negative and at most a fiftieth of the length |
| PdbUtils.FindRepeatedSequences | src/anarcii/pdb_process/utils.py:37-48 | the count of greedy matches, each of which uses up at least 50 positions, so the count is at most a fiftieth of the length |
| ResidueOrder.KeyStringBlank | src/anarcii/output_data_processing/__init__.py:34 | a blank insertion gives the bare number string |
| ResidueOrder.KeyStringInsertion | src/anarcii/output_data_processing/__init__.py:34 | any other insertion code follows the number |
| ResidueOrder.NumberedSequenceDictSpec | src/anarcii/output_data_processing/__init__.py:18-34 | one key per distinct column name, in first-residue order, holding the letter of the last residue with that name |
| ResidueOrder.NumberedSequenceDict | src/anarcii/output_data_processing/__init__.py:18-34 | `numbered_sequence_dict`: the dict comprehension over the residues; its keys and values are stated by `NumberedSequenceDictSpec` |
| ResidueOrder.BlankResidueEntry | src/anarcii/output_data_processing/__init__.py:34 | residue `((n, " "), r)` gives the entry `str(n): r` |
| ResidueOrder.InsertAll | src/anarcii/output_data_processing/__init__.py:99-104 | `SortedSet.update` keeps the set sorted and holds exactly the old and new keys |
| ResidueOrder.SortedUnique | src/anarcii/output_data_processing/__init__.py:99 | a sorted set has one listing |
| ResidueOrder.FilterMembers | src/anarcii/output_data_processing/__init__.py:50-55 | `irange` selects exactly the keys between its 1-tuple bounds |
| ResidueOrder.ImgtOrderSegments | src/anarcii/output_data_processing/__init__.py:47-55 | the order is the seven segments <33, 33 reversed, 34-60, 61 reversed, 62-111, 112 reversed, >=113 |
| ResidueOrder.ImgtOrderPermutation | src/anarcii/output_data_processing/__init__.py:47-55 | `imgt_order` is a permutation of its input |
| ResidueOrder.ImgtOrder | src/anarcii/output_data_processing/__init__.py:58-69 | `imgt_order`: the segments chained; stated by `ImgtOrderSegments`, `ImgtOrderPermutation` and `ImgtOrderSorted` |
| ResidueOrder.ImgtOrderSorted | src/anarcii/output_data_processing/__init__.py:15-55 | grouped by ascending number; insertions descending with the blank key last at 33, 61 and 112, ascending with the blank key first elsewhere |
| ResidueOrder.ImgtOrderExample | src/anarcii/output_data_processing/__init__.py:15-55 | 111, 111A, 112, 112A, 112B, 113 come out as 111, 111A, 112B, 112A, 112, 113 |
| CsvOutput.ResidueNumbersSpec | src/anarcii/output_data_processing/__init__.py:98-104 | the residue set is sorted and holds exactly 1-128 and every key of every numbering |
| CsvOutput.ResidueNumbers | src/anarcii/output_data_processing/__init__.py:98-104 | the residue set after the loop; stated by `ResidueNumbersSpec` |
| CsvOutput.CsvHeader | src/anarcii/output_data_processing/__init__.py:97-124 | the header is the five metadata columns, then one distinct column per residue key; IMGT order iff the last result's scheme is `imgt`, tuple order otherwise |
| CsvOutput.ColumnOrderSpec | src/anarcii/output_data_processing/__init__.py:119-121 | the column order keeps every residue key once, in IMGT or tuple order |
| CsvOutput.CsvTableOk | src/anarcii/output_data_processing/__init__.py:109-119 | the table is written iff every result has a chain type and a score and the last one has a scheme |
| CsvOutput.CsvTable | src/anarcii/output_data_processing/__init__.py:72-129 | a written table has one row per result |
| CsvOutput.CsvRow | src/anarcii/output_data_processing/__init__.py:101-127 | one row per result in order: name, chain, score, query bounds or `None`, each residue column's letter, `-` for a missing residue, metadata only without numbering |
| CsvOutput.MakeRowSpec | src/anarcii/output_data_processing/__init__.py:107-114 | the five metadata entries first, then one entry per residue column, none of which clashes with a metadata column |
| CsvOutput.RowForOk | src/anarcii/output_data_processing/__init__.py:109-110 | a row is made iff the result has a chain type and a score |
| CsvOutput.RowFor | src/anarcii/output_data_processing/__init__.py:106-115 | a row is made iff the result has a chain type and a score; otherwise `KeyError` for the first of the two that is missing |
| CsvOutput.WriteCsv | src/anarcii/output_data_processing/__init__.py:72-129 | the loop builds exactly the table specified by the functions above |
| CsvOutput.BatchRowsFlatten | src/anarcii/output_data_processing/__init__.py:180-197 | the second pass fails iff the rows of all results concatenated fail, and otherwise writes those rows |
| CsvOutput.BatchRowsFailure | src/anarcii/output_data_processing/__init__.py:180-197 | a failing pass has written exactly the rows of the result dicts before the failing one |
| CsvOutput.StreamMatchesWriteCsv | src/anarcii/output_data_processing/__init__.py:163-197 | the streaming header and rows equal what `write_csv` builds over all results concatenated |
| CsvOutput.StreamOutput | src/anarcii/output_data_processing/__init__.py:132-197 | a streaming pass that ends without failure writes exactly the rows a single pass over all results builds |
| CsvOutput.StreamOutputAsWritten | src/anarcii/output_data_processing/__init__.py:163-197 | as written, the streaming writer emits the same header as the corrected one, and whenever it does not fail it writes the same output |
| CsvOutput.StreamCsv | src/anarcii/output_data_processing/__init__.py:132-197 | the two passes produce exactly the corrected streaming output |
| CsvOutput.StreamAsWrittenImgt | src/anarcii/output_data_processing/__init__.py:169-184 | as written, an IMGT stream fails with `AttributeError` after the header, writing no row |
| CsvOutput.StreamAsWrittenDiffers | src/anarcii/output_data_processing/__init__.py:169-184 | on any IMGT input that `write_csv` writes, the as-written streaming writer raises `AttributeError` where the corrected one raises nothing |
| CsvOutput.StreamAsWrittenCounterexample | src/anarcii/output_data_processing/__init__.py:184 | one well-formed IMGT result makes the as-written streaming writer fail |
| ListTo.LegacyRowOk | src/anarcii/output_data_processing/list_to.py:15-18 | a row is made iff the metadata has `query_name`, `chain_type` and `score` |
| ListTo.LegacyRow | src/anarcii/output_data_processing/list_to.py:15-32 | a row is made iff the metadata has `query_name`, `chain_type` and `score`, and the failure is a `KeyError` |
| ListTo.LegacyRowSpec | src/anarcii/output_data_processing/list_to.py:20-32 | Name, Chain and Score come from the metadata; an `F` row holds only them; otherwise the residue keys follow, each holding the last residue's stripped letter |
| ListTo.AddResidues | src/anarcii/output_data_processing/list_to.py:29-32 | the loop assigns every residue entry in turn, a later duplicate key overwriting an earlier one |
| ListTo.SplitKey | src/anarcii/output_data_processing/list_to.py:39-49 | a column starting with digits gets `(int(digits), letter)`, where the digits are its whole leading digit run and the letter is the capital right after them, or none when the next character is not a capital; any other column gets `(inf, column)` |
| ListTo.SplitKeyOfResidue | src/anarcii/output_data_processing/list_to.py:40-44 | a residue key with a non-negative number gets its number and its capital insertion letter, or no letter |
| ListTo.KeyLessTransitive | src/anarcii/output_data_processing/list_to.py:52-55 | the key order is transitive |
| ListTo.KeyLessTotal | src/anarcii/output_data_processing/list_to.py:52-55 | any two keys are equal or ordered one way |
| ListTo.SortColumnsSorted | src/anarcii/output_data_processing/list_to.py:52-55 | the sorted columns are in key order |
| ListTo.SortColumnsStable | src/anarcii/output_data_processing/list_to.py:52-55 | columns with equal keys keep their relative order, as `sorted` is stable |
| ListTo.UnnumberedLast | src/anarcii/output_data_processing/list_to.py:46-49 | columns not starting with a digit come after every residue column |
| ListTo.LegacyOrderAscending | src/anarcii/output_data_processing/list_to.py:39-45 | at each number, the bare column comes before `A`, which comes before `B` |
| ListTo.LegacyFrameOk | src/anarcii/output_data_processing/list_to.py:9-58 | the frame exists iff there is an element and every element has a query name, chain type and score |
| ListTo.LegacyFrame | src/anarcii/output_data_processing/list_to.py:6-58 | the DataFrame of the rows; stated by `LegacyFrameOk`, `LegacyFrameRows` and `LegacyFrameColumns` |
| ListTo.LegacyFrameRows | src/anarcii/output_data_processing/list_to.py:9-36 | one row per element, in input order, each that element's row |
| ListTo.FrameColumnsSpec | src/anarcii/output_data_processing/list_to.py:36 | every key of every row is a DataFrame column exactly once |
| ListTo.LegacyFrameColumns | src/anarcii/output_data_processing/list_to.py:52-58 | the columns are Name, Chain, Score, then every other key once, sorted by `split_key` |
| ListTo.LegacyRowOf | src/anarcii/output_data_processing/list_to.py:15-34 | one row: `KeyError` for the first missing of `query_name`, `chain_type`, `score`; otherwise the three entries, then the residues unless the chain is `F` |
| ListTo.LegacyWriteCsv | src/anarcii/output_data_processing/list_to.py:6-63 | the row loop builds exactly the specified frame |
| Pipeline.BatchedSpec | src/anarcii/pipeline/__init__.py:30-38 | `batched` raises `ValueError` iff `n < 1`, and otherwise yields the `Chunks` batches |
| Pipeline.Chunks | src/anarcii/pipeline/__init__.py:34-38 | the batches `batched` yields; their sizes and concatenation are stated by `ChunksSizes`, `ChunksFlatten` and `ChunksCount` |
| Pipeline.Batched | src/anarcii/pipeline/__init__.py:30-38 | the draining loop yields exactly the specified batches |
| Pipeline.ChunksFlatten | src/anarcii/pipeline/__init__.py:34-38 | the batches concatenate back to the input |
| Pipeline.ChunksSizes | src/anarcii/pipeline/__init__.py:34-38 | every batch holds 1 to n items, and all but the last exactly n |
| Pipeline.ChunksCount | src/anarcii/pipeline/__init__.py:111-125 | more than one batch iff more than n items; no batch iff no item |
| Pipeline.ChunksOfDict | src/anarcii/pipeline/__init__.py:125-126 | every batch of a dict's items has distinct keys |
| Pipeline.RekeyErrors | src/anarcii/pipeline/__init__.py:150 | re-keying fails iff a chunk key has no result, with `KeyError` for the first one |
| Pipeline.RekeyKeys | src/anarcii/pipeline/__init__.py:150 | the re-keyed result has exactly the chunk's keys in the chunk's order, each with its result; other results are dropped |
| Pipeline.Rekey | src/anarcii/pipeline/__init__.py:150 | `{key: numbered[key] for key in chunk}`; stated by `RekeyErrors` and `RekeyKeys` |
| Pipeline.MergeNumberedKeys | src/anarcii/pipeline/__init__.py:141-144 | a name has a merged result iff some group's numbering has it |
| Pipeline.MergeNumbered | src/anarcii/pipeline/__init__.py:141-144 | the classifier's groups numbered and updated into one dict in group order; stated by `MergeNumberedKeys` and `MergeNumberedLast` |
| Pipeline.MergeNumberedLast | src/anarcii/pipeline/__init__.py:143-144 | the last group's result replaces what the earlier groups gave a name |
| Pipeline.ChunkResultKeys | src/anarcii/pipeline/__init__.py:126-150 | in both modes a successful chunk result has the chunk's keys in the chunk's order |
| Pipeline.RunChunksSerialise | src/anarcii/pipeline/__init__.py:152-156 | when serialising, the last numbered output is never assigned |
| Pipeline.RunChunks | src/anarcii/pipeline/__init__.py:125-156 | the chunk loop; stated by `RunChunksSerialise`, `RunChunksStep` and `RunChunksPrefixFailure` |
| Pipeline.NumberRunOutput | src/anarcii/pipeline/__init__.py:107-156 | serialising leaves the last output as it was; no sequence leaves it as it was; one chunk sets it to a result with the input's keys in input order |
| Pipeline.ChunkLoopOutput | src/anarcii/pipeline/__init__.py:110-156 | over the batches of a dict of sequences, serialising leaves the last output alone, no sequence leaves it alone, and one successful chunk becomes the output with the dict's keys |
| Pipeline.NumberRun | src/anarcii/pipeline/__init__.py:106-156 | `number`'s effect on the last numbered output; stated by `NumberRunOutput` |
| Pipeline.Anarcii.constructor | src/anarcii/pipeline/__init__.py:67-91 | configuration stored, type, mode and format lower-cased, all three outputs `None` |
| Pipeline.Anarcii.Number | src/anarcii/pipeline/__init__.py:106-167 | the new state and the exception are those of the specified run; the converted output and the scheme are untouched; the return value converts the last numbered output |
| Pipeline.Anarcii.NumberChunk | src/anarcii/pipeline/__init__.py:126-150 | one pass of the chunk loop gives exactly the specified chunk result |
| Pipeline.Anarcii.ToScheme | src/anarcii/pipeline/__init__.py:169-184 | `ValueError` with no numbered output; otherwise sets the converted output and the scheme and keeps the numbered output |
| Methods.ToList | src/anarcii/pipeline/methods.py:32-62 | the append loop returns exactly the specified list and changes nothing |
| Methods.ToListErrors | src/anarcii/pipeline/methods.py:38-52 | `ValueError` iff there is no numbered output; then the converted output is read iff it is truthy; `KeyError` iff a record lacks a numbering |
| Methods.ToListSpec | src/anarcii/pipeline/methods.py:32-62 | `to_list`'s result; stated by `ToListErrors` and `ListItemsSpec` |
| Methods.ListItemsSpec | src/anarcii/pipeline/methods.py:43-61 | one element per entry in order: its numbering, and its metadata with `query_name` set to the name and every other field unchanged |
| Methods.SaveDispatchSpec | src/anarcii/pipeline/methods.py:65-95 | the dispatch of `to_csv`/`to_json` raises `ValueError` iff there is no output or a truthy converted output meets `max_len_exceed`; the converted output is saved whenever it is truthy and the call succeeds |
| Methods.SaveDispatch | src/anarcii/pipeline/methods.py:65-95 | the dispatch raises `ValueError` iff there is no numbered output or a truthy converted output meets a long run |
| Methods.RegionsDispatch | src/anarcii/pipeline/methods.py:146-159 | `ValueError` iff there is no numbered output; never reads the converted output |
| Methods.ParsedMembers | src/anarcii/pipeline/methods.py:122-128 | every item written was parsed from some line; when no line raises an uncaught exception, every line that parses to an item has it written |
| Methods.ReadBack | src/anarcii/pipeline/methods.py:122-128 | each line gives at most one item |
| Methods.ReadBackFailure | src/anarcii/pipeline/methods.py:122-128 | the loop ends with an exception iff some line raises one other than `ValueError`/`SyntaxError`, and then with the first such line's exception and the items of the lines before it |
| Methods.JoinAppend | src/anarcii/pipeline/methods.py:131-133 | joining two runs of items puts exactly one separator between them |
| Methods.JsonStream | src/anarcii/pipeline/methods.py:117-137 | the loop with the `first` flag writes exactly `[\n`, the items joined by `,\n`, then `\n]\n` when no line raises an uncaught exception; otherwise it leaves `[\n` and the earlier items, without the closing line, and passes the exception on |
| Methods.JsonArrayShape | src/anarcii/pipeline/methods.py:119-137 | no item gives `[\n\n]\n`; one item has no separator; each further item adds exactly one |
| Methods.JsonArray | src/anarcii/pipeline/methods.py:117-137 | the JSON array text; its shape is stated by `JsonArrayShape` |
| Methods.JsonOutput | src/anarcii/pipeline/methods.py:117-137 | the text the streaming branch leaves in the file and the exception that ends it, if any; stated by `JsonStream`, `ReadBackFailure` and `JsonArrayShape` |

## Left out

- Reading files: FASTA and PIR parsing by gemmi, gzip, `open`, the text file of a long run. The reader is a parameter of `InputProcessing.FileInput`, and the lines of the text file are a parameter of `Methods.JsonStream`.
- Methods.JsonStream: `json.dump` is a total parameter `dump`; a parsed literal it cannot encode (a set, bytes, a complex number) makes the source raise `TypeError` after the separator and possibly part of the item are written, which the model does not represent.
- Text encoding: CSV quoting by `csv.DictWriter`, `json.dump`, `ast.literal_eval` and pandas' `to_csv`. The tables, items and lines are modelled; the JSON item text is a parameter.
- The neural and inference collaborators (`ModelRunner`, `WindowFinder`, `SequenceProcessor`, `Classifii`, `convert_output`, `convert_number_scheme`), which are function parameters. A classifier that raises, or the verbose-only `classified["antibody"]` lookup, is not modelled.
- Device and CPU configuration, `print_initial_configuration`, verbose printing and timing. The one verbose effect kept is the `ZeroDivisionError` of `n_seqs // max_seqs_len` when `max_seqs_len` is 0.
- The serialise branch of `number`, which has no behaviour beyond not assigning the output.
- `pipeline/batch_process.py`, `cli.py` and the tests.
- Scores are floats carried as opaque values and never computed with.
- `Pipeline.Batched`: the `strict` flag of the fallback `batched` is never set by the code and is not modelled.
- `_stream_csv_to_file` iterates its input twice. A one-shot iterator would give an empty second pass; the model takes a re-iterable sequence of result dicts.
- A `numbering` key present with a `None` value is not distinguished from an absent one.
- `ListTo.LegacyFrame`: for empty input pandas raises `KeyError` with a message naming all three columns; the model gives `KeyError("Name")`.
- `Records.ResidueKey`: the insertion code is one character, so an empty insertion code (which Python sorts before `" "` and which gives the same column name) and multi-character codes are not represented; `ResidueOrder.KeyString` and `ListTo.ResidueEntries` inherit this.
- `ListTo.SplitKey`: `\d` in Python matches every Unicode decimal digit; the model takes ASCII digits only.
- `PyStr.Lower` lower-cases ASCII letters only.
- A list mixing pairs with strings that are not two characters long makes Python's `dict()` fail later, in `split_sequences`; `InputProcessing.CoerceInput` returns that `AttributeError` directly.
- `PdbUtils.FindRepeatedSequences` treats `.` as any character but a newline, as in Python; sequences are not otherwise restricted.
- The `list_to.py` functions `return_imgt_regions` and `write_json`, which `methods.py` imports, are not part of this model: the file does not define them. `Methods.RegionsDispatch` and `Methods.SaveDispatch` only choose the data handed to them.

## Findings

| source | as written | input that shows it | evidently intended | confidence | as-written member | corrected member |
|---|---|---|---|---|---|---|
| src/anarcii/output_data_processing/__init__.py:184 | after the IMGT branch at :171 rebinds `residue_numbers` to an `itertools.chain`, the second pass calls `residue_numbers.update(...)` on it, which raises `AttributeError` after the header is written | one result dict `{"seq": {"numbering": [], "chain_type": "H", "score": 1.0, "scheme": "imgt"}}` | the columns are fixed after the first pass, so the second pass only builds and writes rows | not executed | CsvOutput.StreamAsWrittenCounterexample | CsvOutput.StreamCsv |
