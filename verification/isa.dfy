/**
 * What the assembler needs from the instruction-set library: the directive
 * grammars, the instruction mnemonics and the instruction parser. Their
 * internals live in that library and are parameters of this model.
 */
module Isa {
  import opened Cursor
  import opened Directive

  /** An encoded instruction: one 16-bit word. */
  type Word = w: int | 0 <= w < 65536

  /** The keyword of the data directive (src/raw.rs:93). */
  const BytesKeyword: string := ".bytes"

  /**
   * What `Instruction::parse` reports: an instruction and how much of the
   * view it used, or a failure of one of the kinds the assembler tells
   * apart (src/raw.rs:377-398).
   */
  datatype InstrOutcome =
    | Parsed(word: Word, consumed: Consumed)
    | NoMatch
    | UnknownSymbol(fragment: string)
    | OutOfBound(value: int, min: int, max: int)

  /** The instruction set: directive grammars, mnemonics and instruction parser. */
  datatype Syntax = Syntax(
    directive: Grammar,
    mnemonics: set<string>,
    instruction: (seq<string>, Resolver) -> InstrOutcome)
}
