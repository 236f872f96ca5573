// Instruction words as the block scanner and the block linker build them:
// src/instructionEmu/scanner.c, src/instructionEmu/translator/translator.c and
// src/instructionEmu/translator/blockCopy.c.  Bit fields that do not overlap are
// added; a field is read with division and remainder.
module MachineWords {

  /** u32int */
  type Word = w: int | 0 <= w < 0x1_0000_0000

  const AL: int := 14

  /** The condition field, bits 28 to 31. */
  function Cond(w: Word): int {
    w / 0x1000_0000
  }

  function WithCond(w: Word, cond: int): Word
    requires 0 <= cond < 16
  {
    cond * 0x1000_0000 + w % 0x1000_0000
  }

  /** INSTR_SWI | (index + 0x100) */
  function Hypercall(index: nat): (w: Word)
    requires index < 0x1_0000
    ensures Cond(w) == AL
  {
    0xEF00_0000 + index + 0x100
  }

  /** isBranch */
  predicate IsBranch(w: Word) {
    w / 0x200_0000 % 8 == 5
  }

  /** branchLinks */
  predicate BranchLinks(w: Word) {
    w / 0x100_0000 % 2 == 1
  }

  /** isConditional */
  predicate IsConditional(w: Word) {
    Cond(w) != AL
  }

  /** isServiceCall */
  predicate IsServiceCall(w: Word) {
    w / 0x100_0000 % 16 == 15 && Cond(w) != 15
  }

  /** The word putBranch writes at position loc of the code store, a word index. */
  function Branch(loc: nat, target: nat, cond: int): (w: Word)
    requires 0 <= cond < 16
    ensures Cond(w) == cond
  {
    cond * 0x1000_0000 + 0x0A00_0000 + (target - loc - 2) % 0x100_0000
  }

  /** Where the processor goes when it takes the branch w at position loc: the
      offset is a signed 24-bit number of words, relative to the word after next. */
  function BranchTarget(w: Word, loc: nat): int {
    var offset := w % 0x100_0000;
    loc + 2 + if offset < 0x80_0000 then offset else offset - 0x100_0000
  }

  /** Inside a pool of 32 MB the branch reaches its target, under its condition. */
  lemma BranchReaches(loc: nat, target: nat, cond: int)
    requires 0 <= cond < 16
    requires loc < 0x80_0000 - 2 && target < 0x80_0000
    ensures var w := Branch(loc, target, cond);
      BranchTarget(w, loc) == target && IsBranch(w) && !BranchLinks(w) && Cond(w) == cond
  {
    var w := Branch(loc, target, cond);
    var offset := (target - loc - 2) % 0x100_0000;
    assert w % 0x100_0000 == offset;
    assert w / 0x100_0000 == cond * 16 + 10;
    assert w / 0x200_0000 == cond * 8 + 5;
  }

  /** The words armWritePCToRegister emits for the link register. */
  function LinkWords(cond: int, pc: Word): seq<Word>
    requires 0 <= cond < 16
  {
    var v := (pc + 8) % 0x1_0000_0000;
    [MoveWord(cond, 0x30, v % 0x1_0000), MoveWord(cond, 0x34, v / 0x1_0000)]
  }

  function MoveWord(cond: int, opcode: int, half: int): Word
    requires 0 <= cond < 16 && 0 <= opcode < 0x100 && 0 <= half < 0x1_0000
  {
    cond * 0x1000_0000 + opcode * 0x10_0000 + half / 0x1000 * 0x1_0000 + 14 * 0x1000 + half % 0x1000
  }
}
