/** The values the pipeline passes around: numbered residues, model result records and
    the name-to-sequence maps built from user input. */
module Records {
  import opened Wrappers
  import opened Dicts

  /** A residue number with its insertion code; `' '` is the blank insertion. */
  datatype ResidueKey = ResidueKey(n: int, ins: char)

  /** `((number, insertion), residue letter)`. */
  type NumberedResidue = (ResidueKey, string)

  type Numbering = seq<NumberedResidue>

  /** A metadata value of a result record. Scores are floats; they are carried, never
      computed with. */
  datatype Value = Text(s: string) | Int(i: int) | Float(x: real) | Null

  /** One model result: the numbering when the record has one, and every other field
      (`chain_type`, `score`, `scheme`, `query_start`, `query_end`, ...) in order. */
  datatype Record = Record(numbering: Option<Numbering>, meta: Dict<string, Value>)

  /** The sequences to number: names to peptide strings. */
  type SeqMap = Dict<string, string>

  /** A model results dictionary: sequence names to result records. */
  type ResultSet = Dict<string, Record>
}
