// What the processor does when it executes the words of a translated block, and the
// branches that link blocks: src/instructionEmu/scanner.c,
// src/instructionEmu/translator/blockCopy.c, src/instructionEmu/blockLinker.c and
// src/instructionEmu/interpreter/arm/branchInstructions.c.
module BlockRuns {

  import opened MachineWords
  import opened ExecBitmap
  import opened CodeCache
  import opened CacheSteps
  import opened TranslationStores
  import opened GuestMemory

  // ----- The processor -----

  type Registers = r: seq<Word> | |r| == 16 witness seq(16, _ => 0)

  datatype Cpu = Cpu(regs: Registers, flags: int)

  /** Which conditions the flags fulfil, what a word does that is neither MOVW nor MOVT,
      and what the instruction w at the address pc does to the guest that executes it. */
  datatype Processor = Processor(passes: (int, int) -> bool, other: (Word, Cpu) -> Cpu,
                                 guest: (Word, Word, Cpu) -> Cpu)

  /** Bits 12 to 15, and the immediate value in bits 0 to 11 and 16 to 19. */
  function Destination(w: Word): int {
    w / 0x1000 % 16
  }

  function Half(w: Word): int {
    w / 0x1_0000 % 16 * 0x1000 + w % 0x1000
  }

  /** The encodings of MOVW and MOVT, sections A8.6.96 and A8.6.99 of the ARM
      Architecture Reference Manual: bits 20 to 27. */
  predicate IsMovw(w: Word) {
    w / 0x10_0000 % 0x100 == 0x30 && Cond(w) != 15
  }

  predicate IsMovt(w: Word) {
    w / 0x10_0000 % 0x100 == 0x34 && Cond(w) != 15
  }

  function SetRegister(c: Cpu, n: int, v: Word): Cpu
    requires 0 <= n < 16
  {
    c.(regs := c.regs[n := v])
  }

  function Execute(m: Processor, w: Word, c: Cpu): Cpu {
    if IsMovw(w) then
      if m.passes(Cond(w), c.flags) then SetRegister(c, Destination(w), Half(w)) else c
    else if IsMovt(w) then
      if m.passes(Cond(w), c.flags) then
        SetRegister(c, Destination(w), Half(w) * 0x1_0000 + c.regs[Destination(w)] % 0x1_0000)
      else c
    else m.other(w, c)
  }

  function ExecuteAll(m: Processor, ws: seq<Word>, c: Cpu): Cpu {
    if ws == [] then c else ExecuteAll(m, ws[1..], Execute(m, ws[0], c))
  }

  lemma {:induction false} ExecuteBoth(m: Processor, v: seq<Word>, w: seq<Word>, c: Cpu)
    ensures ExecuteAll(m, v + w, c) == ExecuteAll(m, w, ExecuteAll(m, v, c))
  {
    if v == [] {
      assert v + w == w;
    } else {
      assert (v + w)[0] == v[0] && (v + w)[1..] == v[1..] + w;
      ExecuteBoth(m, v[1..], w, Execute(m, v[0], c));
    }
  }

  // ----- The link register -----

  lemma MoveWordFields(cond: int, opcode: int, half: int)
    requires 0 <= cond < 16 && 0 <= opcode < 0x100 && 0 <= half < 0x1_0000
    ensures var w := MoveWord(cond, opcode, half);
      Cond(w) == cond && w / 0x10_0000 % 0x100 == opcode && Destination(w) == 14 && Half(w) == half
  {
    var w, high, low := MoveWord(cond, opcode, half), half / 0x1000, half % 0x1000;
    var x: int := cond * 0x100 + opcode;
    FieldsOf(w, x, high, low);
    assert x / 0x100 == cond && x % 0x100 == opcode;
    assert w / 0x1000_0000 == x / 0x100;
  }

  /** The fields of a word, from the top: twelve bits, four, the register 14 and twelve. */
  lemma FieldsOf(w: int, x: int, high: int, low: int)
    requires 0 <= high < 16 && 0 <= low < 0x1000 && w == 0x10_0000 * x + 0x1_0000 * high + 14 * 0x1000 + low
    ensures w / 0x10_0000 == x && w / 0x1_0000 % 16 == high && w / 0x1000 % 16 == 14 && w % 0x1000 == low
  {
    Divides(w, 0x1000, 256 * x + 16 * high + 14, low);
    Divides(256 * x + 16 * high + 14, 16, 16 * x + high, 14);
    Divides(w, 0x1_0000, 16 * x + high, 14 * 0x1000 + low);
    Divides(16 * x + high, 16, x, high);
    Divides(w, 0x10_0000, x, 0x1_0000 * high + 14 * 0x1000 + low);
  }

  lemma Divides(w: int, m: int, q: int, r: int)
    requires m > 0 && w == m * q + r && 0 <= r < m
    ensures w / m == q && w % m == r
  {
    var d := w / m - q;
    assert w == m * (w / m) + w % m;
    assert m * d == m * (w / m) - m * q;
    assert -m < m * d < m;
    NoMultiple(m, d);
  }

  lemma NoMultiple(m: int, d: int)
    requires -m < m * d < m
    ensures d == 0
  {
  }

  /** What a branch with link leaves in register 14: the address behind it. */
  function Linked(m: Processor, instruction: Word, pc: Word, c: Cpu): Cpu {
    if IsBranch(instruction) && BranchLinks(instruction) && m.passes(Cond(instruction), c.flags) then
      SetRegister(c, 14, (pc + 4) % 0x1_0000_0000)
    else c
  }

  lemma Halves(v: Word)
    ensures v / 0x1_0000 < 0x1_0000 && v / 0x1_0000 * 0x1_0000 + (v % 0x1_0000) % 0x1_0000 == v
  {
  }

  /** The two words load register 14, under their condition. */
  lemma PairRuns(m: Processor, cond: int, v: Word, c: Cpu)
    requires 0 <= cond < 15
    ensures v / 0x1_0000 < 0x1_0000
    ensures ExecuteAll(m, [MoveWord(cond, 0x30, v % 0x1_0000), MoveWord(cond, 0x34, v / 0x1_0000)], c) ==
      if m.passes(cond, c.flags) then SetRegister(c, 14, v) else c
  {
    hide MoveWord, Cond, Destination, Half;
    Halves(v);
    var low, high := MoveWord(cond, 0x30, v % 0x1_0000), MoveWord(cond, 0x34, v / 0x1_0000);
    MoveWordFields(cond, 0x30, v % 0x1_0000);
    MoveWordFields(cond, 0x34, v / 0x1_0000);
    TwoExecuted(m, low, high, c);
    if m.passes(cond, c.flags) {
      assert c.regs[14 := v % 0x1_0000][14 := v] == c.regs[14 := v];
    }
  }

  lemma TwoExecuted(m: Processor, v: Word, w: Word, c: Cpu)
    ensures ExecuteAll(m, [v, w], c) == Execute(m, w, Execute(m, v, c))
  {
    hide Execute;
    assert [v, w][1..] == [w] && [w][1..] == [];
    var c1 := Execute(m, v, c);
    assert ExecuteAll(m, [w], c1) == ExecuteAll(m, [], Execute(m, w, c1)) == Execute(m, w, c1);
    assert ExecuteAll(m, [v, w], c) == ExecuteAll(m, [w], c1);
  }

  lemma AddressBehind(end: Word)
    ensures ((end - 4) % 0x1_0000_0000 + 8) % 0x1_0000_0000 == (end + 4) % 0x1_0000_0000
  {
  }

  /** The words for the link register set it to the address behind the instruction, under
      its condition, and nothing else. */
  lemma LinkPartRuns(m: Processor, mem: Memory, end: Word, c: Cpu)
    requires IsBranch(mem(end)) ==> Cond(mem(end)) != 15
    ensures ExecuteAll(m, LinkPart(mem, end), c) == Linked(m, mem(end), end, c)
    ensures !(IsBranch(mem(end)) && BranchLinks(mem(end))) ==> LinkPart(mem, end) == []
  {
    hide IsBranch, BranchLinks, MoveWord, Execute;
    AddressBehind(end);
    if IsBranch(mem(end)) && BranchLinks(mem(end)) {
      PairRuns(m, Cond(mem(end)), (end + 4) % 0x1_0000_0000, c);
    }
  }

  /** The immediate form of BLX links too, but its condition field says that it is
      unconditional: under it the two words are no moves. */
  lemma BlxIsNotLinked(mem: Memory, end: Word, w: Word)
    requires IsBranch(mem(end)) && Cond(mem(end)) == 15 && w in LinkPart(mem, end)
    ensures Cond(w) == 15 && !IsMovw(w) && !IsMovt(w)
  {
    var v: Word := ((end - 4) % 0x1_0000_0000 + 8) % 0x1_0000_0000;
    MoveWordFields(15, 0x30, v % 0x1_0000);
    MoveWordFields(15, 0x34, v / 0x1_0000);
  }

  // ----- A whole block -----

  /** The tables of the decoder are right: a word that is copied does what the instruction
      does at any address, so do the words that take its place, and an instruction that is
      dropped does nothing.  The condition AL is always fulfilled. */
  ghost predicate Faithful(m: Processor, d: Decoder) {
    && (forall pc: Word, w: Word, c: Cpu | d.code(w).Safe? :: m.guest(pc, w, c) == Execute(m, w, c))
    && (forall pc: Word, w: Word, c: Cpu | d.code(w).PatchPc? :: m.guest(pc, w, c) == ExecuteAll(m, d.patch(pc, w), c))
    && (forall pc: Word, w: Word, c: Cpu | d.code(w).Remove? :: m.guest(pc, w, c) == c)
    && (forall flags :: m.passes(AL, flags))
  }

  /** The guest executes the instructions from pc up to but not including end. */
  function GuestRun(m: Processor, mem: Memory, pc: Word, end: Word, c: Cpu): Cpu
    requires Aligned(pc) && Aligned(end)
    decreases end - pc
  {
    if pc >= end then c else GuestRun(m, mem, pc + 4, end, m.guest(pc, mem(pc), c))
  }

  lemma {:induction false} BodyRuns(m: Processor, d: Decoder, mem: Memory, pc: Word, end: Word, c: Cpu)
    requires Faithful(m, d) && Aligned(pc) && Aligned(end)
    requires forall a: Word | pc <= a < end && Aligned(a) :: !d.code(mem(a)).Replace?
    ensures ExecuteAll(m, Body(d, mem, pc, end), c) == GuestRun(m, mem, pc, end, c)
    decreases end - pc
  {
    if pc < end {
      EmitRuns(m, d, mem, pc, c);
      ExecuteBoth(m, Emit(d, mem, pc), Body(d, mem, pc + 4, end), c);
      BodyRuns(m, d, mem, pc + 4, end, m.guest(pc, mem(pc), c));
    }
  }

  lemma EmitRuns(m: Processor, d: Decoder, mem: Memory, pc: Word, c: Cpu)
    requires Faithful(m, d) && !d.code(mem(pc)).Replace?
    ensures ExecuteAll(m, Emit(d, mem, pc), c) == m.guest(pc, mem(pc), c)
  {
    if d.code(mem(pc)).Safe? {
      var w := mem(pc);
      assert [w][1..] == [];
      assert ExecuteAll(m, [w], c) == ExecuteAll(m, [], Execute(m, w, c));
    }
  }

  /** How the processor leaves the code of a block: a hypercall with an index, or a branch
      to a position, each taken at the position loc. */
  datatype Exit = Trap(index: int, loc: nat) | Jump(target: int, loc: nat) | Lost

  datatype Left = Left(cpu: Cpu, exit: Exit)

  /** The processor executes the code store from loc on. */
  function RunFrom(m: Processor, code: seq<Word>, loc: nat, c: Cpu): Left
    decreases |code| - loc
  {
    if loc >= |code| then Left(c, Lost)
    else
      var w := code[loc];
      if !IsServiceCall(w) && !IsBranch(w) then RunFrom(m, code, loc + 1, Execute(m, w, c))
      else if !m.passes(Cond(w), c.flags) then RunFrom(m, code, loc + 1, c)
      else if IsServiceCall(w) then
        var number: int := w % 0x100_0000;
        Left(c, Trap(number - 0x100, loc))
      else Left(c, Jump(BranchTarget(w, loc), loc))
  }

  /** Words without branches and hypercalls are executed one after the other. */
  lemma {:induction false} RunOver(m: Processor, code: seq<Word>, loc: nat, ws: seq<Word>, c: Cpu)
    requires loc + |ws| <= |code| && forall k | 0 <= k < |ws| :: code[loc + k] == ws[k]
    requires forall w | w in ws :: !IsBranch(w) && !IsServiceCall(w)
    ensures RunFrom(m, code, loc, c) == RunFrom(m, code, loc + |ws|, ExecuteAll(m, ws, c))
    decreases |ws|
  {
    if ws != [] {
      assert ws[0] in ws && code[loc + 0] == ws[0];
      forall k | 0 <= k < |ws[1..]| ensures code[loc + 1 + k] == ws[1..][k] {
        assert code[loc + (k + 1)] == ws[k + 1];
      }
      RunOver(m, code, loc + 1, ws[1..], Execute(m, ws[0], c));
    }
  }

  /** Where the hypercalls of a block start. */
  function TailStart(b: Block): int {
    b.codeStart + b.codeSize - if b.oneHypercall then 2 else 3
  }

  /** The words before the hypercalls are those of the instructions and of the link
      register, and have not been patched. */
  lemma BeforeTail(d: Decoder, s: Cache, i: nat)
    requires Valid(s, i) && BlockOk(d, s, i)
    ensures var b := s.blocks[i];
      var ws := Body(d, s.mem, b.guestStart, b.guestEnd) + LinkPart(s.mem, b.guestEnd);
      && b.codeStart + |ws| == TailStart(b) <= |s.code|
      && forall k | 0 <= k < |ws| :: s.code[b.codeStart + k] == ws[k]
  {
    var b := s.blocks[i];
    var ws := Body(d, s.mem, b.guestStart, b.guestEnd) + LinkPart(s.mem, b.guestEnd);
    var planted := Planted(d, s.mem, b.guestStart, b.guestEnd, i);
    assert planted == ws + HypercallPart(s.mem, b.guestEnd, i);
    forall k | 0 <= k < |ws| ensures s.code[b.codeStart + k] == ws[k] {
      assert Inside(b, b.codeStart + k) && WordAt(s, b, planted, b.codeStart + k);
    }
  }

  lemma NoControlBefore(d: Decoder, mem: Memory, b: Block, w: Word)
    requires NoControl(d, mem, b) && w in Body(d, mem, b.guestStart, b.guestEnd) + LinkPart(mem, b.guestEnd)
    ensures !IsBranch(w) && !IsServiceCall(w)
  {
    if w in LinkPart(mem, b.guestEnd) {
      LinkWordsAreNoControl(Cond(mem(b.guestEnd)), (b.guestEnd - 4) % 0x1_0000_0000, w);
    }
  }

  /** The condition of the instruction that ends the block. */
  predicate Taken(m: Processor, instruction: Word, c: Cpu) {
    m.passes(Cond(instruction), c.flags)
  }

  /** The hypercall that is reached: the first of two under the condition, else the last. */
  function SlotReached(m: Processor, b: Block, instruction: Word, c: Cpu): int {
    if !b.oneHypercall && Taken(m, instruction, c) then b.codeStart + b.codeSize - 3 else b.codeStart + b.codeSize - 2
  }

  /** What happens at the hypercall at loc of block i: it traps, or the branch in its
      place is taken. */
  function Leaving(s: Cache, i: nat, loc: nat): Exit {
    if loc in s.links then Jump(s.links[loc].target, loc) else Trap(i, loc)
  }

  /** The condition of the hypercall at loc. */
  predicate SlotCondition(s: Cache, b: Block, loc: nat, cond: int) {
    0 <= cond < 15 && cond == if loc == b.codeStart + b.codeSize - 2 then AL else Cond(s.mem(b.guestEnd))
  }

  /** The word at a hypercall, under its condition. */
  lemma SlotWord(d: Decoder, s: Cache, i: nat, loc: nat, cond: int)
    requires Inv(d, s) && Valid(s, i) && IsSlot(s.blocks[i], loc) && loc < |s.code|
    requires SlotCondition(s, s.blocks[i], loc, cond)
    ensures i < STORE && s.code[loc] ==
      if loc in s.links then Branch(loc, s.links[loc].target, cond) else WithCond(Hypercall(i), cond)
  {
    var b := s.blocks[i];
    assert BlockOk(d, s, i);
    BlockFits(d, s, i);
    var planted := Planted(d, s.mem, b.guestStart, b.guestEnd, i);
    PlantedEnds(d, s.mem, b.guestStart, b.guestEnd, i);
    assert WordAt(s, b, planted, loc);
    LastHypercall(i);
    WithItsCondition(i, cond);
  }

  lemma WithItsCondition(i: nat, cond: int)
    requires i < STORE && 0 <= cond < 16
    ensures Cond(WithCond(Hypercall(i), cond)) == cond
  {
  }

  lemma SlotRuns(m: Processor, d: Decoder, s: Cache, i: nat, loc: nat, cond: int, c: Cpu)
    requires Inv(d, s) && Valid(s, i) && IsSlot(s.blocks[i], loc) && loc < |s.code|
    requires SlotCondition(s, s.blocks[i], loc, cond)
    ensures RunFrom(m, s.code, loc, c) ==
      if m.passes(cond, c.flags) then Left(c, Leaving(s, i, loc)) else RunFrom(m, s.code, loc + 1, c)
  {
    hide Branch, WithCond, Hypercall, Cond, IsBranch, IsServiceCall, BranchTarget, IsSlot, WordsOk, HeaderOk;
    SlotWord(d, s, i, loc, cond);
    HypercallIsService(i, cond);
    WithItsCondition(i, cond);
    if loc in s.links {
      var l := s.links[loc];
      assert LinkOk(s, l) && BlockOk(d, s, l.dest);
      BlockFits(d, s, l.dest);
      BranchReaches(loc, l.target, cond);
      BranchIsNoService(s.code[loc]);
    }
  }

  /** Executing a translated block does what its instructions do to the guest, sets the
      link register if the last one links, and ends at the hypercall of the block for the
      outcome of its condition, or at the branch that has taken its place. */
  lemma BlockRuns(m: Processor, d: Decoder, s: Cache, i: nat, c: Cpu)
    requires Faithful(m, d) && Inv(d, s) && Valid(s, i) && NoControl(d, s.mem, s.blocks[i])
    requires var w := s.mem(s.blocks[i].guestEnd); IsBranch(w) ==> Cond(w) != 15
    ensures var b := s.blocks[i];
      var w, g := s.mem(b.guestEnd), GuestRun(m, s.mem, b.guestStart, b.guestEnd, c);
      var slot := SlotReached(m, b, w, g);
      slot >= 0 && RunFrom(m, s.code, b.codeStart, c) == Left(Linked(m, w, b.guestEnd, g), Leaving(s, i, slot))
  {
    var b := s.blocks[i];
    assert BlockOk(d, s, i);
    BlockFits(d, s, i);
    var w, body, link := s.mem(b.guestEnd), Body(d, s.mem, b.guestStart, b.guestEnd), LinkPart(s.mem, b.guestEnd);
    BeforeTail(d, s, i);
    forall x | x in body + link ensures !IsBranch(x) && !IsServiceCall(x) {
      NoControlBefore(d, s.mem, b, x);
    }
    RunOver(m, s.code, b.codeStart, body + link, c);
    ExecuteBoth(m, body, link, c);
    BodyRuns(m, d, s.mem, b.guestStart, b.guestEnd, c);
    var g := GuestRun(m, s.mem, b.guestStart, b.guestEnd, c);
    LinkPartRuns(m, s.mem, b.guestEnd, g);
    TailRuns(m, d, s, i, Linked(m, w, b.guestEnd, g));
  }

  lemma TailRuns(m: Processor, d: Decoder, s: Cache, i: nat, c: Cpu)
    requires Faithful(m, d) && Inv(d, s) && Valid(s, i)
    requires var w := s.mem(s.blocks[i].guestEnd); IsBranch(w) ==> Cond(w) != 15
    ensures var b := s.blocks[i];
      var slot := SlotReached(m, b, s.mem(b.guestEnd), c);
      TailStart(b) >= 0 && slot >= 0 && RunFrom(m, s.code, TailStart(b), c) == Left(c, Leaving(s, i, slot))
  {
    var b := s.blocks[i];
    assert BlockOk(d, s, i);
    BlockFits(d, s, i);
    var last := b.codeStart + b.codeSize - 2;
    assert m.passes(AL, c.flags);
    if !b.oneHypercall {
      SlotRuns(m, d, s, i, last - 1, Cond(s.mem(b.guestEnd)), c);
    }
    SlotRuns(m, d, s, i, last, AL, c);
  }

  // ----- Linked blocks -----

  /** Where the guest goes from a branch at pc: armBInstruction and armBlInstruction. */
  function GuestNext(instruction: Word, pc: Word, taken: bool): Word {
    var offset := instruction % 0x100_0000;
    if taken then (pc + 8 + 4 * if offset < 0x80_0000 then offset else offset - 0x100_0000) % 0x1_0000_0000
    else (pc + 4) % 0x1_0000_0000
  }

  /** The hypercall at loc is reached if the condition of the last instruction holds: it
      is the first of two, or the only one. */
  predicate TakenSlot(b: Block, loc: int) {
    b.oneHypercall || loc != b.codeStart + b.codeSize - 2
  }

  /** A link stands for the address to which the guest goes from there. */
  ghost predicate LinkFollows(s: Cache, loc: nat, l: Link) {
    l.owner < |s.blocks| &&
    var b := s.blocks[l.owner];
    IsBranch(s.mem(b.guestEnd)) && l.pc == GuestNext(s.mem(b.guestEnd), b.guestEnd, TakenSlot(b, loc))
  }

  ghost predicate LinksFollow(s: Cache) {
    forall loc | loc in s.links :: LinkFollows(s, loc, s.links[loc])
  }

  ghost predicate NoneReached(s: Cache, fault: Word, address: Word, n: nat) {
    forall i: nat | Valid(s, i) :: !Reached(s.blocks[i], fault, address, n)
  }

  /** softwareInterrupt links a block that ends with a branch to where its handler has
      led the guest. A store clears the links, if its first page holds code; otherwise it
      must not reach any. */
  ghost predicate Led(d: Decoder, s: Cache, step: Step) {
    Enabled(d, s, step) &&
    match step
    case LinkStep(i, loc, nextPC) =>
      var b := s.blocks[i];
      IsBranch(s.mem(b.guestEnd)) && nextPC == GuestNext(s.mem(b.guestEnd), b.guestEnd, TakenSlot(b, loc))
    case WriteStep(fault, address, bytes) =>
      PageBit(s.bitmap, Page(fault)) || NoneReached(s, fault, address, |bytes|)
    case _ => true
  }

  predicate SameButType(b: Block, b': Block) {
    b' == b.(typ := b'.typ)
  }

  /** The link is one of s, and its owner ends as it did. */
  ghost predicate LinkStays(s: Cache, r: Cache, loc: nat, l: Link) {
    && loc in s.links && s.links[loc] == l && l.owner < |s.blocks| && l.owner < |r.blocks|
    && var b := s.blocks[l.owner];
       SameButType(b, r.blocks[l.owner]) && r.mem(b.guestEnd) == s.mem(b.guestEnd)
  }

  ghost predicate FewerLinks(s: Cache, r: Cache) {
    forall loc | loc in r.links :: LinkStays(s, r, loc, r.links[loc])
  }

  lemma FewerFollow(s: Cache, r: Cache)
    requires LinksFollow(s) && FewerLinks(s, r)
    ensures LinksFollow(r)
  {
    hide GuestNext, IsBranch;
    forall loc | loc in r.links ensures LinkFollows(r, loc, r.links[loc]) {
      assert LinkStays(s, r, loc, r.links[loc]) && LinkFollows(s, loc, s.links[loc]);
    }
  }

  lemma ScanFollows(d: Decoder, s: Cache, start: Word, end: Word, index: nat)
    requires LinksOwned(s) && Scannable(d, s, start, end, index) && !Valid(s, index)
    ensures FewerLinks(s, Scan(d, s, start, end, index))
  {
    hide Planted, SetExec, IsSlot, OneHypercall, Scans;
    var r := Scan(d, s, start, end, index);
    if Below(d, s, start, end, index) {
      forall loc | loc in r.links ensures LinkStays(s, r, loc, r.links[loc]) {
        assert Valid(s, s.links[loc].owner);
      }
    }
  }

  lemma LinkStepFollows(d: Decoder, s: Cache, i: nat, loc: nat, nextPC: Word)
    requires Inv(d, s) && LinksFollow(s) && Led(d, s, LinkStep(i, loc, nextPC))
    ensures LinksFollow(LinkBlock(s, i, loc, nextPC))
  {
    hide Inv, GuestNext, IsBranch, Home, Branch, Cond, AllFit;
    var r := LinkBlock(s, i, loc, nextPC);
    forall l | l in r.links ensures LinkFollows(r, l, r.links[l]) {
      assert l in s.links ==> LinkFollows(s, l, s.links[l]);
    }
  }

  lemma ClearFollows(d: Decoder, s: Cache, address: Word)
    requires Inv(d, s)
    ensures AllFit(s)
    ensures var r := ClearAddress(s, address); if PageBit(s.bitmap, Page(address)) then r.links == map[] else r == s
  {
    StructureFits(d, s);
    if PageBit(s.bitmap, Page(address)) {
      ClearFromKeeps(d, s, 0, address);
      NoGroupsNoLinks(d, ClearAddress(s, address));
    }
  }

  lemma WriteFollows(d: Decoder, s: Cache, fault: Word, address: Word, bytes: seq<Byte>)
    requires Inv(d, s) && (PageBit(s.bitmap, Page(fault)) || NoneReached(s, fault, address, |bytes|))
    ensures AllFit(s) && FewerLinks(s, GuestWrite(s, fault, address, bytes))
  {
    hide Inv, NoneReached, Stored, PageBit, ClearAddress, Fits, LinkStays;
    ClearFollows(d, s, fault);
    if !PageBit(s.bitmap, Page(fault)) {
      WriteLinks(d, s, fault, address, bytes);
    }
  }

  lemma WriteLinks(d: Decoder, s: Cache, fault: Word, address: Word, bytes: seq<Byte>)
    requires Inv(d, s) && !PageBit(s.bitmap, Page(fault)) && NoneReached(s, fault, address, |bytes|)
    ensures FewerLinks(s, s.(mem := Stored(s.mem, address, bytes)))
  {
    hide Stored, Reached, Covers, PageBit, Page, AllApart, WordsOk, LinkOk, IsSlot;
    var r := s.(mem := Stored(s.mem, address, bytes));
    forall loc | loc in r.links ensures LinkStays(s, r, loc, r.links[loc]) {
      var i := s.links[loc].owner;
      assert Valid(s, i) && BlockOk(d, s, i);
      NotCovered(s, s.blocks[i], fault);
      EndUntouched(s, s.blocks[i], fault, address, bytes);
    }
  }

  /** No block has instructions on a page without its mark. */
  lemma NotCovered(s: Cache, b: Block, fault: Word)
    requires AllMarked(s.bitmap, b.guestStart, b.guestEnd) && !PageBit(s.bitmap, Page(fault))
    ensures !Covers(b, fault)
  {
  }

  lemma EndUntouched(s: Cache, b: Block, fault: Word, address: Word, bytes: seq<Byte>)
    requires !Covers(b, fault) && !Reached(b, fault, address, |bytes|)
    requires b.guestStart <= b.guestEnd && Aligned(b.guestEnd)
    ensures Stored(s.mem, address, bytes)(b.guestEnd) == s.mem(b.guestEnd)
  {
    assert Covers(b, b.guestEnd);
    UntouchedStays(s.mem, address, bytes, b.guestEnd);
  }

  lemma StepFollows(d: Decoder, s: Cache, step: Step)
    requires Inv(d, s) && LinksFollow(s) && Led(d, s, step)
    ensures LinksFollow(Next(d, s, step))
  {
    hide FewerLinks, GuestNext, LinkBlock, UnlinkAll, ClearAddress, GuestWrite, Scan, CanScan, Harmless, LinkFollows;
    var r := Next(d, s, step);
    match step
    case ScanStep(pc, end) => ScanStepFollows(d, s, pc, end);
    case LinkStep(i, loc, nextPC) => LinkStepFollows(d, s, i, loc, nextPC);
    case UnlinkStep(i) => UnlinkFollows(s, i);
    case UnlinkAllStep => UnlinkAllKeepsInv(d, s);
    case ClearStep(address) => ClearFollows(d, s, address);
    case ClearAllStep =>
    case WriteStep(fault, address, bytes) =>
      WriteFollows(d, s, fault, address, bytes);
      FewerFollow(s, r);
  }

  lemma ScanStepFollows(d: Decoder, s: Cache, pc: Word, end: Word)
    requires Inv(d, s) && LinksFollow(s) && Led(d, s, ScanStep(pc, end))
    ensures LinksFollow(ScanAt(d, s, pc, end))
  {
    hide LinksFollow, FewerLinks, Scan, AllOk, AllApart, LinksOk, LinksOwned;
    var p := Probe(s.blocks, pc, Home(pc));
    if p.Free? {
      ScanFollows(d, s, pc, end, p.index);
      FewerFollow(s, Scan(d, s, pc, end, p.index));
    }
  }

  lemma UnlinkFollows(s: Cache, i: nat)
    requires Fits(s, i) && LinksFollow(s)
    ensures LinksFollow(Unlink(s, i))
  {
    hide GuestNext, Hypercall, WithCond, Cond;
    var r := Unlink(s, i);
    forall loc | loc in r.links ensures LinkStays(s, r, loc, r.links[loc]) {
      assert LinkFollows(s, loc, s.links[loc]);
    }
    FewerFollow(s, Unlink(s, i));
  }

  /** In every state of every run in which the guest leads the links, they stand for where
      the guest goes. */
  lemma {:induction false} RunFollows(d: Decoder, states: seq<Cache>, steps: seq<Step>, k: nat)
    requires IsRun(d, states, steps) && k < |states|
    requires forall j | 0 <= j < |steps| :: Led(d, states[j], steps[j])
    ensures Inv(d, states[k]) && LinksFollow(states[k])
    decreases k
  {
    hide Led, Inv, LinkFollows, Enabled, Next;
    RunKeepsInv(d, states, steps, k);
    if k > 0 {
      RunFollows(d, states, steps, k - 1);
      StepFollows(d, states[k - 1], steps[k - 1]);
    }
  }

  /** So executing a block either traps into its handler or arrives at the code of a block
      for the very address to which the guest goes, with the guest's registers. */
  lemma LinkedBlocksFollow(m: Processor, d: Decoder, s: Cache, i: nat, c: Cpu) returns (k: nat)
    requires Faithful(m, d) && Inv(d, s) && LinksFollow(s) && Valid(s, i) && NoControl(d, s.mem, s.blocks[i])
    requires var w := s.mem(s.blocks[i].guestEnd); IsBranch(w) ==> Cond(w) != 15
    ensures var b := s.blocks[i];
      var w, g := s.mem(b.guestEnd), GuestRun(m, s.mem, b.guestStart, b.guestEnd, c);
      var left := RunFrom(m, s.code, b.codeStart, c);
      && left.cpu == Linked(m, w, b.guestEnd, g)
      && !left.exit.Lost?
      && (left.exit.Trap? ==> left.exit.index == i)
      && (left.exit.Jump? ==> IsBranch(w) && Valid(s, k) && left.exit.target == s.blocks[k].codeStart)
      && (left.exit.Jump? ==> s.blocks[k].guestStart == GuestNext(w, b.guestEnd, Taken(m, w, g)))
  {
    var b := s.blocks[i];
    assert BlockOk(d, s, i);
    BlockFits(d, s, i);
    BlockRuns(m, d, s, i, c);
    var w, g := s.mem(b.guestEnd), GuestRun(m, s.mem, b.guestStart, b.guestEnd, c);
    var slot := SlotReached(m, b, w, g);
    k := 0;
    if slot in s.links {
      k := s.links[slot].dest;
      OwnSlot(d, s, i, slot);
      assert LinkOk(s, s.links[slot]) && LinkFollows(s, slot, s.links[slot]);
      assert m.passes(AL, g.flags);
    }
  }

  /** A link at a hypercall of a block is owned by that block. */
  lemma OwnSlot(d: Decoder, s: Cache, i: nat, loc: nat)
    requires Inv(d, s) && Valid(s, i) && IsSlot(s.blocks[i], loc) && loc in s.links
    ensures s.links[loc].owner == i
  {
    var j := s.links[loc].owner;
    assert Valid(s, j) && IsSlot(s.blocks[j], loc) && BlockOk(d, s, i) && BlockOk(d, s, j);
    BlockFits(d, s, i);
    BlockFits(d, s, j);
  }
}
