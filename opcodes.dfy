/**
 * The ILOC opcodes and the three constant tables indexed by them
 * (include/Opcode.hpp): the mnemonic, the mnemonic padded for aligned
 * printing, and the latency in cycles.
 */
module Opcodes {

  datatype Opcode = LOAD | STORE | LOADI | ADD | SUB | MULT | LSHIFT | RSHIFT | OUTPUT | NOP

  /** Number of opcodes, and so the length of every table below. */
  const OpcodeCount: nat := 10

  /** Width every padded mnemonic is brought to. */
  const PaddedWidth: nat := 7

  /** The underlying integer of the enum, which the tables are indexed by. */
  function Ordinal(op: Opcode): (n: nat)
    ensures n < OpcodeCount
  {
    match op
    case LOAD => 0
    case STORE => 1
    case LOADI => 2
    case ADD => 3
    case SUB => 4
    case MULT => 5
    case LSHIFT => 6
    case RSHIFT => 7
    case OUTPUT => 8
    case NOP => 9
  }

  /** The cast from an integer back to the enum, for the integers it covers. */
  function FromOrdinal(n: nat): (op: Opcode)
    requires n < OpcodeCount
    ensures Ordinal(op) == n
  {
    [LOAD, STORE, LOADI, ADD, SUB, MULT, LSHIFT, RSHIFT, OUTPUT, NOP][n]
  }

  /** The enum's integers are distinct: the cast back recovers the opcode. */
  lemma OrdinalRoundTrip(op: Opcode)
    ensures FromOrdinal(Ordinal(op)) == op
  {
  }

  const OpcodeNames: seq<string> :=
    ["load", "store", "loadI", "add", "sub", "mult", "lshift", "rshift", "output", "nop"]

  const OpcodeNamesPadded: seq<string> :=
    ["load   ", "store  ", "loadI  ", "add    ", "sub    ",
     "mult   ", "lshift ", "rshift ", "output ", "nop    "]

  const LatencyTable: seq<int> := [6, 6, 1, 1, 1, 3, 1, 1, 1, 1]

  /** A run of `n` spaces. */
  function Spaces(n: nat): (s: string)
    ensures |s| == n && forall k :: 0 <= k < n ==> s[k] == ' '
  {
    if n == 0 then "" else Spaces(n - 1) + " "
  }

  /** `OpcodeNames[(int) op]`. */
  function Name(op: Opcode): (s: string)
    ensures 0 < |s| <= PaddedWidth - 1
  {
    OpcodeNames[Ordinal(op)]
  }

  /** `OpcodeNamesPadded[(int) op]`: the mnemonic right-padded to a fixed width. */
  function PaddedName(op: Opcode): (s: string)
    ensures |s| == PaddedWidth
    ensures s == Name(op) + Spaces(PaddedWidth - |Name(op)|)
  {
    OpcodeNamesPadded[Ordinal(op)]
  }

  /** `Latency[(int) op]`: loads and stores take 6 cycles, a multiply 3, everything else 1. */
  function Latency(op: Opcode): (cycles: int)
    ensures cycles >= 1
    ensures cycles == 6 <==> op == LOAD || op == STORE
    ensures cycles == 3 <==> op == MULT
    ensures cycles == 1 <==> op !in {LOAD, STORE, MULT}
  {
    LatencyTable[Ordinal(op)]
  }

  /** No two opcodes share a mnemonic, so a mnemonic identifies its opcode. */
  lemma NamesDistinct(a: Opcode, b: Opcode)
    ensures Name(a) == Name(b) <==> a == b
  {
  }

  /** No two opcodes share a padded mnemonic either. */
  lemma PaddedNamesDistinct(a: Opcode, b: Opcode)
    ensures PaddedName(a) == PaddedName(b) <==> a == b
  {
  }
}
