// The translation store of a guest context, updated in place.
module TranslationStores {
  import opened Options
  import opened MachineWords
  import opened ExecBitmap
  import opened CodeCache
  import opened GuestMemory
  import opened CacheSteps
  import opened GuestStores

  // ----- Emitting words into a block -----

  /** ws written at the free pointer, and counted in the block being emitted. */
  function Append(s: Cache, i: nat, ws: seq<Word>): Cache
    requires i < |s.blocks| && s.free + |ws| <= |s.code|
  {
    s.(code := s.code[..s.free] + ws + s.code[s.free + |ws|..], free := s.free + |ws|,
       blocks := s.blocks[i := s.blocks[i].(codeSize := s.blocks[i].codeSize + |ws|)])
  }

  lemma AppendTwice(s: Cache, i: nat, v: seq<Word>, w: seq<Word>)
    requires i < |s.blocks| && s.free + |v| + |w| <= |s.code|
    ensures Append(Append(s, i, v), i, w) == Append(s, i, v + w)
  {
  }

  lemma AppendNothing(s: Cache, i: nat)
    requires i < |s.blocks| && s.free <= |s.code|
    ensures Append(s, i, []) == s
  {
  }

  /** What reaching the end of the pool leaves: the block being emitted, its words
      moved to the front, and nothing else. */
  function Wrapped(s: Cache, i: nat): Cache
    requires i < |s.blocks| && s.free == |s.code|
    requires s.blocks[i].codeStart + s.blocks[i].codeSize == s.free
  {
    var b := s.blocks[i];
    var words := s.code[b.codeStart..];
    s.(code := words + s.code[|words|..], free := |words|,
       blocks := seq(|s.blocks|, _ => EMPTY)[i := b.(codeStart := 0, oneHypercall := false)], links := map[])
  }

  /** The moved block is the only valid one, holds its words in order, and the free
      pointer is just after it; but whether it had one hypercall is forgotten. */
  lemma WrappedKeepsBlock(s: Cache, i: nat)
    requires i < |s.blocks| && s.free == |s.code| && s.blocks[i].codeStart + s.blocks[i].codeSize == s.free
    ensures var r, b := Wrapped(s, i), Wrapped(s, i).blocks[i];
      && |r.code| == |s.code|
      && r.code[b.codeStart..b.codeStart + b.codeSize] == s.code[s.blocks[i].codeStart..s.free]
      && r.free == b.codeStart + b.codeSize
      && (forall j: nat | Valid(r, j) :: j == i)
      && b == s.blocks[i].(codeStart := 0, oneHypercall := false)
  {}

  lemma {:induction false} BodySplit(d: Decoder, mem: Memory, start: Word, pc: Word, end: Word)
    requires Aligned(start) && Aligned(pc) && Aligned(end) && start <= pc <= end
    ensures Body(d, mem, start, end) == Body(d, mem, start, pc) + Body(d, mem, pc, end)
    decreases pc - start
  {
    if start < pc {
      BodySplit(d, mem, start + 4, pc, end);
    }
  }

  lemma BodyStep(d: Decoder, mem: Memory, start: Word, pc: Word)
    requires Aligned(start) && Aligned(pc) && start <= pc && pc + 4 < 0x1_0000_0000
    ensures Body(d, mem, start, pc + 4) == Body(d, mem, start, pc) + Emit(d, mem, pc)
  {
    BodySplit(d, mem, start, pc, pc + 4);
    assert Body(d, mem, pc + 4, pc + 4) == [];
  }

  lemma BodyStepWithin(d: Decoder, mem: Memory, start: Word, pc: Word, end: Word)
    requires Aligned(start) && Aligned(pc) && Aligned(end) && start <= pc < end
    ensures Body(d, mem, start, pc + 4) == Body(d, mem, start, pc) + Emit(d, mem, pc)
    ensures |Body(d, mem, start, pc + 4)| <= |Body(d, mem, start, end)|
  {
    BodyStep(d, mem, start, pc);
    BodySplit(d, mem, start, pc + 4, end);
  }

  /** addInstructionToBlock while writing. */
  function Push(s: Cache, i: nat, w: Word): Cache
    requires i < |s.blocks| && s.free < |s.code| && s.blocks[i].codeStart + s.blocks[i].codeSize == s.free
  {
    var r := Append(s, i, [w]);
    if r.free < |r.code| then r else Wrapped(r, i)
  }

  /** The entry of a block whose scan begins. */
  function Opened(s: Cache, i: nat, start: Word): Cache
    requires i < |s.blocks|
  {
    s.(blocks := s.blocks[i := Block(BasicArm, start, start, s.free, 0, s.blocks[i].oneHypercall)])
  }

  predicate CanOpen(s: Cache, i: nat) {
    i < |s.blocks| && i < STORE && |s.code| == POOL && s.free < POOL
  }

  predicate IsOpened(s: Cache, i: nat) {
    && CanOpen(s, i)
    && s.blocks[i].codeStart == s.free && s.blocks[i].codeSize == 0
  }

  /** The state once ws have been emitted into the block opened in s. */
  function Emitting(s: Cache, i: nat, ws: seq<Word>): Cache
    requires IsOpened(s, i) && |ws| < POOL
  {
    if s.free + |ws| < POOL then Append(s, i, ws) else Moved(s, i, ws)
  }

  /** The pool was filled on the way and the words start at the front now. */
  function Moved(s: Cache, i: nat, ws: seq<Word>): Cache
    requires IsOpened(s, i) && |ws| < POOL <= s.free + |ws|
  {
    var filled := s.code[..s.free] + ws[..POOL - s.free];
    s.(code := ws + filled[|ws|..], free := |ws|,
       blocks := seq(|s.blocks|, _ => EMPTY)[
         i := s.blocks[i].(codeStart := 0, codeSize := |ws|, oneHypercall := false)],
       links := map[])
  }

  lemma EmittingPlace(s: Cache, i: nat, ws: seq<Word>)
    requires IsOpened(s, i) && |ws| < POOL
    ensures var r := Emitting(s, i, ws);
      && |r.code| == POOL && |r.blocks| == |s.blocks| && r.free < POOL
      && r.blocks[i].codeStart + r.blocks[i].codeSize == r.free
      && (|ws| + 1 < POOL ==> r.free + 1 < POOL || 0 < r.blocks[i].codeStart)
  {
  }

  lemma EmittingNothing(s: Cache, i: nat)
    requires IsOpened(s, i)
    ensures Emitting(s, i, []) == s
  {
    AppendNothing(s, i);
  }

  /** One more word, before the end of the pool, at its end or after the move. */
  lemma PushEmitting(s: Cache, i: nat, ws: seq<Word>, w: Word)
    requires IsOpened(s, i) && |ws| + 1 < POOL
    ensures var r := Emitting(s, i, ws);
      && r.free < |r.code| && r.blocks[i].codeStart + r.blocks[i].codeSize == r.free
      && Push(r, i, w) == Emitting(s, i, ws + [w])
  {
    EmittingPlace(s, i, ws);
    if s.free + |ws| + 1 <= POOL {
      AppendTwice(s, i, ws, [w]);
      if s.free + |ws| + 1 == POOL {
        PushFills(s, i, ws, w);
      }
    } else {
      PushMoved(s, i, ws, w);
    }
  }

  lemma PushFills(s: Cache, i: nat, ws: seq<Word>, w: Word)
    requires IsOpened(s, i) && |ws| + 1 < POOL && s.free + |ws| + 1 == POOL
    ensures Wrapped(Append(s, i, ws + [w]), i) == Moved(s, i, ws + [w])
  {
    var all := ws + [w];
    var full := Append(s, i, all);
    assert full.code == s.code[..s.free] + all;
    assert full.code[s.free..] == all;
    assert all[..POOL - s.free] == all;
  }

  lemma PushMoved(s: Cache, i: nat, ws: seq<Word>, w: Word)
    requires IsOpened(s, i) && |ws| + 1 < POOL <= s.free + |ws|
    ensures Push(Moved(s, i, ws), i, w) == Moved(s, i, ws + [w])
  {
    var r := Moved(s, i, ws);
    var filled := s.code[..s.free] + ws[..POOL - s.free];
    assert (ws + [w])[..POOL - s.free] == ws[..POOL - s.free];
    assert r.code[..|ws|] == ws;
    assert r.code[|ws| + 1..] == filled[|ws| + 1..];
  }

  /** The flag as scanArmBlock sets it. */
  function Flagged(s: Cache, i: nat, one: bool): Cache
    requires i < |s.blocks|
  {
    s.(blocks := s.blocks[i := s.blocks[i].(oneHypercall := one)])
  }

  /** The end of scanArmBlock. */
  function Closed(s: Cache, i: nat, start: Word, end: Word): Cache
    requires i < |s.blocks|
  {
    s.(blocks := s.blocks[i := s.blocks[i].(guestEnd := end)], bitmap := SetExec(s.bitmap, start, end))
  }

  /** The words planted before the index. */
  function BeforeIndex(d: Decoder, mem: Memory, start: Word, end: Word, index: nat): (ws: seq<Word>)
    requires Aligned(start) && Aligned(end) && index < STORE
    ensures ws + [index] == Planted(d, mem, start, end, index)
  {
    Body(d, mem, start, end) + LinkPart(mem, end) + Hypercalls(mem, end, index)
  }

  function Hypercalls(mem: Memory, end: Word, index: nat): (ws: seq<Word>)
    requires index < STORE
    ensures ws + [index] == HypercallPart(mem, end, index)
  {
    if OneHypercall(mem(end)) then [Hypercall(index)]
    else [WithCond(Hypercall(index), Cond(mem(end))), Hypercall(index)]
  }

  /** A word that fills the pool leaves nothing of the flag. */
  lemma PushFlagged(s: Cache, i: nat, w: Word, one: bool)
    requires i < |s.blocks| && s.free < |s.code| && s.blocks[i].codeStart + s.blocks[i].codeSize == s.free
    ensures Push(Flagged(s, i, one), i, w) ==
            if s.free + 1 < |s.code| then Flagged(Push(s, i, w), i, one) else Push(s, i, w)
  {
    assert Append(Flagged(s, i, one), i, [w]) == Flagged(Append(s, i, [w]), i, one);
  }

  lemma ClosedInPlace(s: Cache, start: Word, end: Word, i: nat, ws: seq<Word>, one: bool)
    requires CanOpen(s, i) && s.free + |ws| < POOL
    ensures Closed(Flagged(Emitting(Opened(s, i, start), i, ws), i, one), i, start, end)
         == InPlace(s, start, end, i, ws, one)
  {
  }

  lemma ClosedAtFront(s: Cache, start: Word, end: Word, i: nat, ws: seq<Word>, one: bool)
    requires CanOpen(s, i) && |ws| < POOL <= s.free + |ws|
    ensures var r := Emitting(Opened(s, i, start), i, ws);
      && Closed(Flagged(r, i, one), i, start, end) == AtFront(s, start, end, i, ws, one)
      && Closed(r, i, start, end) == AtFront(s, start, end, i, ws, false)
  {
  }

  /** The words but the index, then the flag, and then the index. */
  lemma IndexLast(s: Cache, start: Word, end: Word, i: nat, ws: seq<Word>, one: bool)
    requires CanOpen(s, i) && |ws| + 1 < POOL
    ensures var r, n := Flagged(Emitting(Opened(s, i, start), i, ws), i, one), s.free + |ws| + 1;
      && r.free < |r.code| && r.blocks[i].codeStart + r.blocks[i].codeSize == r.free
      && Closed(Push(r, i, i), i, start, end) ==
           if n < POOL then InPlace(s, start, end, i, ws + [i], one)
           else AtFront(s, start, end, i, ws + [i], one && n != POOL)
  {
    var o := Opened(s, i, start);
    PushEmitting(o, i, ws, i);
    PushFlagged(Emitting(o, i, ws), i, i, one);
    if s.free + |ws| + 1 < POOL {
      ClosedInPlace(s, start, end, i, ws + [i], one);
    } else {
      ClosedAtFront(s, start, end, i, ws + [i], one);
    }
  }

  lemma EmittedIsScan(d: Decoder, s: Cache, start: Word, end: Word, i: nat)
    requires Scannable(d, s, start, end, i)
    ensures var o, ws := Opened(s, i, start), BeforeIndex(d, s.mem, start, end, i);
      && IsOpened(o, i) && |ws| + 1 < POOL
      && var r := Flagged(Emitting(o, i, ws), i, OneHypercall(s.mem(end)));
         && r.free < |r.code| && r.blocks[i].codeStart + r.blocks[i].codeSize == r.free
         && Closed(Push(r, i, i), i, start, end) == Scan(d, s, start, end, i)
  {
    IndexLast(s, start, end, i, BeforeIndex(d, s.mem, start, end, i), OneHypercall(s.mem(end)));
  }

  /** hostPC lies in the words emitted for the instruction at pc. */
  ghost predicate EmittedAt(d: Decoder, mem: Memory, b: Block, pc: Word, hostPC: nat)
    requires Aligned(b.guestStart)
  {
    && Aligned(pc) && b.guestStart <= pc < b.guestEnd && pc + 4 < 0x1_0000_0000
    && b.codeStart + |Body(d, mem, b.guestStart, pc)| <= hostPC < b.codeStart + |Body(d, mem, b.guestStart, pc + 4)|
  }

  /** No two instructions share a host position. */
  lemma EmittedAtUnique(d: Decoder, mem: Memory, b: Block, pc: Word, pc': Word, hostPC: nat)
    requires Aligned(b.guestStart)
    requires EmittedAt(d, mem, b, pc, hostPC) && EmittedAt(d, mem, b, pc', hostPC)
    ensures pc == pc'
  {
    if pc < pc' {
      BodySplit(d, mem, b.guestStart, pc + 4, pc');
    } else if pc' < pc {
      BodySplit(d, mem, b.guestStart, pc' + 4, pc);
    }
  }

  // ----- From a host position to the entry -----

  /** findBlockIndexNumber, reading the words from pc on. */
  function FindIndex(code: seq<Word>, pc: nat): (r: Option<nat>)
    decreases |code| - pc
  {
    if pc >= |code| then None
    else if IsServiceCall(code[pc]) then
      if code[pc] % 0x100_0000 >= 0x100 then Some(code[pc] % 0x100_0000 - 0x100) else None
    else if IsBranch(code[pc]) then
      if pc + 1 >= |code| then None
      else if IsBranch(code[pc + 1]) then (if pc + 2 < |code| then Some(code[pc + 2]) else None)
      else if IsServiceCall(code[pc + 1]) then
        if code[pc + 1] % 0x100_0000 >= 0x100 then Some(code[pc + 1] % 0x100_0000 - 0x100) else None
      else Some(code[pc + 1])
    else FindIndex(code, pc + 1)
  }

  /** The body of the block has no branch and no service call. */
  ghost predicate NoControl(d: Decoder, mem: Memory, b: Block) {
    Aligned(b.guestStart) && Aligned(b.guestEnd) &&
    forall w | w in Body(d, mem, b.guestStart, b.guestEnd) :: !IsBranch(w) && !IsServiceCall(w)
  }

  lemma LinkWordsAreNoControl(cond: int, pc: Word, w: Word)
    requires 0 <= cond < 16 && w in LinkWords(cond, pc)
    ensures !IsBranch(w) && !IsServiceCall(w)
  {
    var v := (pc + 8) % 0x1_0000_0000;
    MoveWordIsNoControl(cond, 0x30, v % 0x1_0000);
    MoveWordIsNoControl(cond, 0x34, v / 0x1_0000);
  }

  lemma MoveWordIsNoControl(cond: int, opcode: int, half: int)
    requires 0 <= cond < 16 && 0x30 <= opcode < 0x40 && 0 <= half < 0x1_0000
    ensures !IsBranch(MoveWord(cond, opcode, half)) && !IsServiceCall(MoveWord(cond, opcode, half))
  {
    assert MoveWord(cond, opcode, half) / 0x100_0000 == cond * 16 + 3;
    assert MoveWord(cond, opcode, half) / 0x200_0000 == cond * 8 + 1;
  }

  /** Words before the hypercalls are passed over. */
  lemma BeforeSlots(d: Decoder, s: Cache, i: nat, loc: nat)
    requires Valid(s, i) && BlockOk(d, s, i) && NoControl(d, s.mem, s.blocks[i])
    requires var b := s.blocks[i];
      Inside(b, loc) && loc < b.codeStart + b.codeSize - |HypercallPart(s.mem, b.guestEnd, i)|
    ensures !IsBranch(s.code[loc]) && !IsServiceCall(s.code[loc])
  {
    var b := s.blocks[i];
    var body, link := Body(d, s.mem, b.guestStart, b.guestEnd), LinkPart(s.mem, b.guestEnd);
    var k := loc - b.codeStart;
    assert WordAt(s, b, Planted(d, s.mem, b.guestStart, b.guestEnd, i), loc);
    if k < |body| {
      assert s.code[loc] == body[k];
    } else {
      assert s.code[loc] == link[k - |body|];
      LinkWordsAreNoControl(Cond(s.mem(b.guestEnd)), (b.guestEnd - 4) % 0x1_0000_0000, s.code[loc]);
    }
  }

  lemma HypercallIsService(i: nat, cond: int)
    requires i < STORE && 0 <= cond < 16
    ensures var w := WithCond(Hypercall(i), cond);
      && (IsServiceCall(w) <==> cond != 15) && w % 0x100_0000 == i + 0x100 && !IsBranch(w)
  {
    var w := WithCond(Hypercall(i), cond);
    assert Hypercall(i) % 0x1000_0000 == 0xF00_0000 + i + 0x100;
    assert w == cond * 0x1000_0000 + 0xF00_0000 + i + 0x100;
    assert w / 0x100_0000 == cond * 16 + 15;
    assert w / 0x1000_0000 == cond;
    assert w / 0x200_0000 == cond * 8 + 7;
  }

  lemma LastHypercall(i: nat)
    requires i < STORE
    ensures WithCond(Hypercall(i), AL) == Hypercall(i)
    ensures !IsBranch(i) && !IsServiceCall(i)
  {
    assert Hypercall(i) % 0x1000_0000 == 0xF00_0000 + i + 0x100;
  }

  lemma BranchIsNoService(w: Word)
    requires IsBranch(w)
    ensures !IsServiceCall(w)
  {
  }

  /** Each hypercall is in place or has been replaced by a branch. */
  predicate TailAt(code: seq<Word>, last: nat, i: nat, one: bool, cond: int)
    requires i < STORE && 0 <= cond < 16
  {
    && last + 1 < |code| && code[last + 1] == i
    && (code[last] == Hypercall(i) || IsBranch(code[last]))
    && (!one ==> last > 0 && (code[last - 1] == WithCond(Hypercall(i), cond) || IsBranch(code[last - 1])))
  }

  lemma FindAtLast(code: seq<Word>, last: nat, i: nat, one: bool, cond: int)
    requires i < STORE && 0 <= cond < 16 && TailAt(code, last, i, one, cond)
    ensures FindIndex(code, last) == Some(i)
  {
    hide IsBranch, IsServiceCall, Hypercall, WithCond;
    LastHypercall(i);
    HypercallIsService(i, AL);
    if IsBranch(code[last]) {
      BranchIsNoService(code[last]);
    }
  }

  lemma FindAtFirst(code: seq<Word>, last: nat, i: nat, cond: int)
    requires i < STORE && 0 <= cond < 16 && TailAt(code, last, i, false, cond)
    ensures FindIndex(code, last - 1) == Some(i)
  {
    hide IsBranch, IsServiceCall, Hypercall, WithCond;
    FindAtLast(code, last, i, false, cond);
    HypercallIsService(i, cond);
    LastHypercall(i);
    HypercallIsService(i, AL);
    if IsBranch(code[last - 1]) {
      BranchIsNoService(code[last - 1]);
    }
    if IsBranch(code[last]) {
      BranchIsNoService(code[last]);
    }
  }

  lemma TailOfBlock(d: Decoder, s: Cache, i: nat)
    requires Inv(d, s) && Valid(s, i)
    ensures var b := s.blocks[i];
      && i < STORE && b.codeSize >= 2
      && b.oneHypercall == OneHypercall(s.mem(b.guestEnd))
      && TailAt(s.code, b.codeStart + b.codeSize - 2, i, b.oneHypercall, Cond(s.mem(b.guestEnd)))
  {
    var b := s.blocks[i];
    assert BlockOk(d, s, i);
    BlockFits(d, s, i);
    PlantedEnds(d, s.mem, b.guestStart, b.guestEnd, i);
    var planted := Planted(d, s.mem, b.guestStart, b.guestEnd, i);
    var last := b.codeStart + b.codeSize - 2;
    SlotIsSafe(d, s, i, last);
    assert WordAt(s, b, planted, last) && WordAt(s, b, planted, last + 1);
    if !b.oneHypercall {
      SlotIsSafe(d, s, i, last - 1);
      assert WordAt(s, b, planted, last - 1);
    }
  }

  /** Found in the words at the end of the block, patched or not. */
  lemma FindInTail(d: Decoder, s: Cache, i: nat)
    requires Inv(d, s) && Valid(s, i)
    ensures i < STORE
    ensures var b := s.blocks[i];
      b.codeSize >= |HypercallPart(s.mem, b.guestEnd, i)|
      && FindIndex(s.code, b.codeStart + b.codeSize - |HypercallPart(s.mem, b.guestEnd, i)|) == Some(i)
  {
    var b := s.blocks[i];
    TailOfBlock(d, s, i);
    var last, cond := b.codeStart + b.codeSize - 2, Cond(s.mem(b.guestEnd));
    if b.oneHypercall {
      FindAtLast(s.code, last, i, true, cond);
    } else {
      BlockFits(d, s, i);
      FindAtFirst(s.code, last, i, cond);
    }
  }

  /** From any position in the body the search arrives at the block's own entry. */
  lemma {:induction false} FindIndexFinds(d: Decoder, s: Cache, i: nat, loc: nat)
    requires Inv(d, s) && Valid(s, i) && NoControl(d, s.mem, s.blocks[i])
    requires var b := s.blocks[i];
      Inside(b, loc) && loc <= b.codeStart + b.codeSize - |HypercallPart(s.mem, b.guestEnd, i)|
    ensures FindIndex(s.code, loc) == Some(i)
    decreases s.blocks[i].codeStart + s.blocks[i].codeSize - loc
  {
    var b := s.blocks[i];
    assert BlockOk(d, s, i);
    if loc == b.codeStart + b.codeSize - |HypercallPart(s.mem, b.guestEnd, i)| {
      FindInTail(d, s, i);
    } else {
      BeforeSlots(d, s, i, loc);
      FindIndexFinds(d, s, i, loc + 1);
    }
  }

  class TranslationStore {
    const codeStore: array<Word>
    const basicBlockStore: array<Block>
    const execBitmap: array<bv8>
    var codeStoreFreePtr: nat
    var write: bool
    const decoder: Decoder
    var mem: Memory
    // Which words linkBlock has patched.
    ghost var links: map<nat, Link>

    ghost predicate Shape()
      reads this
    {
      codeStore.Length == POOL && basicBlockStore.Length == STORE && execBitmap.Length == BITMAP_SIZE
    }

    ghost function State(): Cache
      requires Shape()
      reads this, codeStore, basicBlockStore, execBitmap
    {
      Cache(codeStore[..], codeStoreFreePtr, basicBlockStore[..], execBitmap[..], mem, links)
    }

    /** initialiseTranslationStore */
    constructor (decoder: Decoder, mem: Memory)
      ensures this.decoder == decoder && this.mem == mem
      ensures Shape() && write && Initial(State())
      ensures fresh(codeStore) && fresh(basicBlockStore) && fresh(execBitmap)
    {
      codeStore := new Word[POOL](_ => 0);
      basicBlockStore := new Block[STORE](_ => EMPTY);
      execBitmap := new bv8[BITMAP_SIZE](_ => 0);
      codeStoreFreePtr, write, links := 0, true, map[];
      this.decoder, this.mem := decoder, mem;
    }

    /** getBlockInfo.  The probe must end inside the table. */
    method GetBlockInfo(address: Word) returns (found: bool, index: nat)
      requires Shape()
      requires !Probe(basicBlockStore[..], address, Home(address)).RanOff?
      ensures index < STORE
      ensures Probe(basicBlockStore[..], address, Home(address)) == if found then Found(index) else Free(index)
    {
      index := Home(address);
      while true
        invariant index < STORE
        invariant Probe(basicBlockStore[..], address, index) == Probe(basicBlockStore[..], address, Home(address))
        decreases STORE - index
      {
        var block := basicBlockStore[index];
        if block.typ.Invalid? {
          return false, index;
        } else if block.guestStart == address {
          return true, index;
        } else {
          index := index + 1;
        }
      }
    }

    /** linkBlock: block is an entry whose hypercall at lastPC was executed. */
    method LinkBlockTo(nextPC: Word, lastPC: nat, block: nat)
      requires Shape() && block < STORE && lastPC < POOL
      requires !Probe(basicBlockStore[..], nextPC, Home(nextPC)).RanOff?
      modifies this`links, codeStore, basicBlockStore
      ensures State() == LinkBlock(old(State()), block, lastPC, nextPC)
    {
      var found, next := GetBlockInfo(nextPC);
      if !found {
        return;
      }
      var lastBlock := basicBlockStore[block];
      var eobInstruction := mem(lastBlock.guestEnd);
      var lastInstrOfHostBlock := lastBlock.codeStart + lastBlock.codeSize - 2;
      var condition := AL;
      if lastPC != lastInstrOfHostBlock {
        condition := Cond(eobInstruction);
      }
      var target := basicBlockStore[next].codeStart;
      codeStore[lastPC] := Branch(lastPC, target, condition);
      basicBlockStore[block] := basicBlockStore[block].(typ := GroupArm);
      basicBlockStore[next] := basicBlockStore[next].(typ := GroupArm);
      links := links[lastPC := Link(block, nextPC, next, target)];
    }

    /** unlinkBlock */
    method UnlinkBlock(index: nat)
      requires Shape() && Fits(State(), index)
      modifies this`links, codeStore, basicBlockStore
      ensures State() == Unlink(old(State()), index)
    {
      var block := basicBlockStore[index];
      var hypercall := Hypercall(index);
      var last := block.codeStart + block.codeSize - 2;
      codeStore[last] := hypercall;
      links := links - {last};
      if !block.oneHypercall {
        var condition := Cond(codeStore[last - 1]);
        codeStore[last - 1] := WithCond(hypercall, condition);
        links := links - {last - 1};
      }
      basicBlockStore[index] := block.(typ := BasicArm);
      assert State().links == Unlink(old(State()), index).links;
    }

    /** unlinkAllBlocks */
    method UnlinkAllBlocks()
      requires Shape() && AllFit(State())
      modifies this`links, codeStore, basicBlockStore
      ensures State() == UnlinkAll(old(State()))
    {
      var i := 0;
      while i < STORE
        invariant i <= STORE && AllFit(State())
        invariant UnlinkFrom(State(), i) == UnlinkAll(old(State()))
      {
        if basicBlockStore[i].typ.GroupArm? {
          assert Valid(State(), i);
          UnlinkFits(State(), i);
          UnlinkBlock(i);
        }
        i := i + 1;
      }
    }

    /** clearTranslationsByAddress */
    method ClearTranslationsByAddress(address: Word)
      requires Shape() && AllFit(State())
      modifies this`links, codeStore, basicBlockStore
      ensures State() == ClearAddress(old(State()), address)
    {
      var executed := IsExecBitSet(execBitmap, address);
      if !executed {
        return;
      }
      var i := 0;
      while i < STORE
        invariant i <= STORE && AllFit(State())
        invariant ClearFrom(State(), i, address) == ClearAddress(old(State()), address)
      {
        ghost var s := State();
        if basicBlockStore[i].typ.GroupArm? {
          assert Valid(State(), i);
          UnlinkFits(State(), i);
          UnlinkBlock(i);
        }
        assert State() == UnlinkIfGroup(s, i);
        var block := basicBlockStore[i];
        ClearFits(State(), i);
        if block.guestStart <= address && block.guestEnd >= address {
          basicBlockStore[i] := EMPTY;
        }
        assert State() == ClearIfCovering(UnlinkIfGroup(s, i), i, address);
        i := i + 1;
      }
    }

    /** vmStore, for a byte, a halfword or a word: the lowest bytes of the value. */
    method VmStore(size: nat, address: Word, value: Word)
      requires size <= 4
      modifies this`mem
      ensures mem == Stored(old(mem), address, WordBytes(value)[..size])
    {
      mem := Stored(mem, address, WordBytes(value)[..size]);
    }

    /** emulateLoadStoreGeneric for a byte, a halfword or a word; fault is the address that
        the processor reports. */
    method GuestStore(fault: Word, size: nat, address: Word, value: Word)
      requires Shape() && AllFit(State()) && size <= 4
      modifies this`links, this`mem, codeStore, basicBlockStore
      ensures State() == GuestWrite(old(State()), fault, address, WordBytes(value)[..size])
    {
      ClearTranslationsByAddress(fault);
      VmStore(size, address, value);
    }

    /** The same for armStrdImmInstruction and armStrdRegInstruction. */
    method GuestStoreDouble(fault: Word, address: Word, value: Word, value2: Word)
      requires Shape() && AllFit(State())
      modifies this`links, this`mem, codeStore, basicBlockStore
      ensures State() == GuestWrite(old(State()), fault, address, WordBytes(value) + WordBytes(value2))
    {
      ClearTranslationsByAddress(fault);
      StoreWords(address, value, value2);
    }

    method StoreWords(address: Word, value: Word, value2: Word)
      modifies this`mem
      ensures mem == Stored(old(mem), address, WordBytes(value) + WordBytes(value2))
    {
      StoredTwice(mem, address, WordBytes(value), WordBytes(value2));
      assert WordBytes(value)[..4] == WordBytes(value) && WordBytes(value2)[..4] == WordBytes(value2);
      VmStore(4, address, value);
      VmStore(4, Plus(address, 4), value2);
    }

    method GuestStoreWord(address: Word, value: Word)
      requires Shape() && AllFit(State())
      modifies this`links, this`mem, codeStore, basicBlockStore
      ensures State() == GuestWrite(old(State()), address, address, WordBytes(value))
    {
      assert WordBytes(value)[..4] == WordBytes(value);
      GuestStore(address, 4, address, value);
    }

    /** The loop of armStmInstruction, over the values of the registers. */
    method GuestStoreMultiple(start: Word, values: seq<Word>)
      requires Shape() && AllFit(State())
      modifies this`links, this`mem, codeStore, basicBlockStore
      ensures State() == StoreMultiple(old(State()), start, values)
    {
      var address := start;
      for i := 0 to |values|
        invariant AllFit(State())
        invariant StoreMultiple(State(), address, values[i..]) == StoreMultiple(old(State()), start, values)
      {
        MultipleStep(State(), address, values, i);
        GuestStoreWord(address, values[i]);
        address := Plus(address, 4);
      }
    }

    /** clearTranslationsAll */
    method ClearTranslationsAll()
      requires Shape()
      modifies this`links, this`codeStoreFreePtr, this`write, codeStore, basicBlockStore
      ensures State() == ClearAll(old(State())) && write
    {
      forall i | 0 <= i < codeStore.Length {
        codeStore[i] := 0;
      }
      codeStoreFreePtr := 0;
      forall i | 0 <= i < basicBlockStore.Length {
        basicBlockStore[i] := EMPTY;
      }
      links := map[];
      write := true;
    }

    /** addInstructionToBlock, for the entry at index. */
    method AddInstructionToBlock(index: nat, instruction: Word)
      requires Shape() && index < STORE && codeStoreFreePtr < POOL
      requires write ==> basicBlockStore[index].codeStart + basicBlockStore[index].codeSize == codeStoreFreePtr
      requires codeStoreFreePtr + 1 < POOL || (write && 0 < basicBlockStore[index].codeStart)
      modifies this`codeStoreFreePtr, this`links, codeStore, basicBlockStore
      ensures !write ==> State() == old(State()).(free := old(codeStoreFreePtr) + 1)
      ensures write ==> State() == Push(old(State()), index, instruction)
    {
      if write {
        basicBlockStore[index] := basicBlockStore[index].(codeSize := basicBlockStore[index].codeSize + 1);
        codeStore[codeStoreFreePtr] := instruction;
      }
      codeStoreFreePtr := codeStoreFreePtr + 1;
      assert write ==> State().code == Append(old(State()), index, [instruction]).code;
      if codeStoreFreePtr >= POOL {
        MoveToFront(index);
      }
    }

    /** The part of addInstructionToBlock that runs at the end of the pool. */
    method MoveToFront(index: nat)
      requires Shape() && write && index < STORE && codeStoreFreePtr == POOL
      requires 0 < basicBlockStore[index].codeStart
      requires basicBlockStore[index].codeStart + basicBlockStore[index].codeSize == POOL
      modifies this`codeStoreFreePtr, this`links, codeStore, basicBlockStore
      ensures State() == Wrapped(old(State()), index)
    {
      var basicBlock := basicBlockStore[index];
      codeStoreFreePtr := 0;
      var instrPtr := basicBlock.codeStart;
      ghost var code := codeStore[..];
      for i := 0 to basicBlock.codeSize
        invariant codeStoreFreePtr == i && instrPtr == basicBlock.codeStart + i
        invariant forall k | 0 <= k < i :: codeStore[k] == code[basicBlock.codeStart + k]
        invariant forall k | i <= k < POOL :: codeStore[k] == code[k]
      {
        codeStore[codeStoreFreePtr] := codeStore[instrPtr];
        codeStoreFreePtr := codeStoreFreePtr + 1;
        instrPtr := instrPtr + 1;
      }
      assert codeStore[..] == Wrapped(old(State()), index).code;
      forall i | 0 <= i < basicBlockStore.Length {
        basicBlockStore[i] := EMPTY;
      }
      basicBlockStore[index] := EMPTY.(typ := basicBlock.typ, guestStart := basicBlock.guestStart,
        guestEnd := basicBlock.guestEnd, codeStart := 0, codeSize := basicBlock.codeSize);
      links := map[];
    }

    /** The block opened in s has been emitted up to the end of ws. */
    ghost predicate Emitted(s: Cache, index: nat, ws: seq<Word>)
      requires Shape()
      reads this, codeStore, basicBlockStore, execBitmap
    {
      write && IsOpened(s, index) && |ws| < POOL && State() == Emitting(s, index, ws)
    }

    /** addInstructionToBlock while a block is emitted. */
    method EmitWord(index: nat, instruction: Word, ghost s: Cache, ghost done: seq<Word>)
      requires Shape() && Emitted(s, index, done) && |done| + 1 < POOL
      modifies this`codeStoreFreePtr, this`links, codeStore, basicBlockStore
      ensures Emitted(s, index, done + [instruction])
    {
      EmittingPlace(s, index, done);
      PushEmitting(s, index, done, instruction);
      AddInstructionToBlock(index, instruction);
    }

    /** The calls a pcHandler makes to emit ws; without writing only the pointer moves. */
    method AddInstructions(index: nat, ws: seq<Word>, ghost s: Cache, ghost done: seq<Word>)
      requires Shape() && index < STORE
      requires if write then Emitted(s, index, done) && |done| + |ws| < POOL else codeStoreFreePtr + |ws| < POOL
      modifies this`codeStoreFreePtr, this`links, codeStore, basicBlockStore
      ensures if write then Emitted(s, index, done + ws)
              else State() == old(State()).(free := old(codeStoreFreePtr) + |ws|)
    {
      assert done + ws[..0] == done;
      for i := 0 to |ws|
        invariant if write then Emitted(s, index, done + ws[..i])
                  else State() == old(State()).(free := old(codeStoreFreePtr) + i)
      {
        if write {
          EmitWord(index, ws[i], s, done + ws[..i]);
        } else {
          AddInstructionToBlock(index, ws[i]);
        }
        assert done + ws[..i] + [ws[i]] == done + ws[..i + 1];
      }
      assert ws[..|ws|] == ws;
    }

    /** The words for one instruction; without writing only the pointer moves. */
    method EmitInstruction(index: nat, pc: Word, ghost s: Cache, ghost done: seq<Word>)
      requires Shape() && index < STORE
      requires var n := |Emit(decoder, mem, pc)|;
        if write then Emitted(s, index, done) && |done| + n < POOL else codeStoreFreePtr + n < POOL
      modifies this`codeStoreFreePtr, this`links, codeStore, basicBlockStore
      ensures var ws := Emit(decoder, mem, pc);
        if write then Emitted(s, index, done + ws)
        else State() == old(State()).(free := old(codeStoreFreePtr) + |ws|)
    {
      var instruction := mem(pc);
      if decoder.code(instruction).Safe? {
        AddInstructions(index, [instruction], s, done);
      } else if decoder.code(instruction).PatchPc? {
        AddInstructions(index, decoder.patch(pc, instruction), s, done);
      } else {
        assert done + [] == done;
      }
    }

    /** The loop of scanArmBlock. */
    method EmitBody(guestStart: Word, index: nat, ghost end: Word, ghost s: Cache) returns (instructionPtr: Word)
      requires Shape() && Emitted(s, index, []) && Scans(decoder, mem, guestStart, end)
      requires |Body(decoder, mem, guestStart, end)| < POOL
      modifies this`codeStoreFreePtr, this`links, codeStore, basicBlockStore
      ensures instructionPtr == end && Emitted(s, index, Body(decoder, mem, guestStart, end))
    {
      instructionPtr := guestStart;
      while !decoder.code(mem(instructionPtr)).Replace?
        invariant Aligned(instructionPtr) && guestStart <= instructionPtr <= end
        invariant Emitted(s, index, Body(decoder, mem, guestStart, instructionPtr))
        decreases end - instructionPtr
      {
        EmitNext(guestStart, index, instructionPtr, end, s);
        instructionPtr := instructionPtr + 4;
      }
    }

    /** The body of the loop. */
    method EmitNext(guestStart: Word, index: nat, pc: Word, ghost end: Word, ghost s: Cache)
      requires Shape() && Aligned(guestStart) && Aligned(pc) && Aligned(end) && guestStart <= pc < end
      requires |Body(decoder, mem, guestStart, end)| < POOL
      requires Emitted(s, index, Body(decoder, mem, guestStart, pc))
      modifies this`codeStoreFreePtr, this`links, codeStore, basicBlockStore
      ensures Emitted(s, index, Body(decoder, mem, guestStart, pc + 4))
    {
      BodyStepWithin(decoder, mem, guestStart, pc, end);
      EmitInstruction(index, pc, s, Body(decoder, mem, guestStart, pc));
    }

    /** The words that set the link register. */
    method EmitLink(index: nat, instructionPtr: Word, ghost s: Cache, ghost done: seq<Word>)
      requires Shape() && Emitted(s, index, done) && |done + LinkPart(mem, instructionPtr)| < POOL
      modifies this`codeStoreFreePtr, this`links, codeStore, basicBlockStore
      ensures Emitted(s, index, done + LinkPart(mem, instructionPtr))
    {
      var instruction := mem(instructionPtr);
      if IsBranch(instruction) && BranchLinks(instruction) {
        AddInstructions(index, LinkWords(Cond(instruction), (instructionPtr - 4) % 0x1_0000_0000), s, done);
      } else {
        assert done + [] == done;
      }
    }

    /** The hypercalls, and the flag. */
    method EmitHypercalls(index: nat, instructionPtr: Word, ghost s: Cache, ghost done: seq<Word>)
      requires Shape() && Emitted(s, index, done) && |done + Hypercalls(mem, instructionPtr, index)| < POOL
      modifies this`codeStoreFreePtr, this`links, codeStore, basicBlockStore
      ensures var ws := done + Hypercalls(mem, instructionPtr, index);
        && IsOpened(s, index) && |ws| < POOL
        && State() == Flagged(Emitting(s, index, ws), index, OneHypercall(mem(instructionPtr)))
    {
      var instruction := mem(instructionPtr);
      if IsBranch(instruction) && IsConditional(instruction) {
        var first := WithCond(Hypercall(index), Cond(instruction));
        EmitWord(index, first, s, done);
        EmitWord(index, Hypercall(index), s, done + [first]);
        assert done + [first] + [Hypercall(index)] == done + Hypercalls(mem, instructionPtr, index);
        SetFlag(index, false);
      } else {
        EmitWord(index, Hypercall(index), s, done);
        SetFlag(index, true);
      }
    }

    method SetFlag(index: nat, one: bool)
      requires Shape() && index < STORE
      modifies basicBlockStore
      ensures State() == Flagged(old(State()), index, one)
    {
      basicBlockStore[index] := basicBlockStore[index].(oneHypercall := one);
    }

    /** All of scanArmBlock before the index is planted. */
    method EmitBlock(guestStart: Word, index: nat, ghost end: Word) returns (instructionPtr: Word)
      requires Shape() && write && Scannable(decoder, State(), guestStart, end, index)
      modifies this`codeStoreFreePtr, this`links, codeStore, basicBlockStore
      ensures instructionPtr == end
      ensures var o, ws := Opened(old(State()), index, guestStart), BeforeIndex(decoder, mem, guestStart, end, index);
        && IsOpened(o, index) && |ws| < POOL
        && State() == Flagged(Emitting(o, index, ws), index, OneHypercall(mem(end)))
    {
      ghost var s := Opened(State(), index, guestStart);
      EmittingNothing(s, index);
      basicBlockStore[index] := basicBlockStore[index].(guestStart := guestStart, guestEnd := guestStart,
        codeStart := codeStoreFreePtr, codeSize := 0, typ := BasicArm);
      assert Emitted(s, index, []);
      instructionPtr := EmitBody(guestStart, index, end, s);
      ghost var body := Body(decoder, mem, guestStart, end);
      EmitLink(index, instructionPtr, s, body);
      EmitHypercalls(index, instructionPtr, s, body + LinkPart(mem, instructionPtr));
    }

    /** scanArmBlock; end is the first instruction that has to be replaced. */
    method ScanArmBlock(guestStart: Word, index: nat, ghost end: Word)
      requires Shape() && write && Scannable(decoder, State(), guestStart, end, index)
      modifies this`codeStoreFreePtr, this`links, codeStore, basicBlockStore, execBitmap
      ensures State() == Scan(decoder, old(State()), guestStart, end, index)
    {
      EmittedIsScan(decoder, State(), guestStart, end, index);
      var instructionPtr := EmitBlock(guestStart, index, end);
      EmittingPlace(Opened(old(State()), index, guestStart), index,
                    BeforeIndex(decoder, mem, guestStart, end, index));
      AddInstructionToBlock(index, index);
      basicBlockStore[index] := basicBlockStore[index].(guestEnd := instructionPtr);
      SetExecBitmap(execBitmap, guestStart, instructionPtr);
    }

    /** scanBlock: the position of the code for an address, scanned if need be. */
    method ScanBlock(startAddress: Word, ghost end: Word) returns (index: nat)
      requires Shape() && write
      requires ProbeReady(decoder, State(), startAddress, end)
      modifies this`codeStoreFreePtr, this`links, codeStore, basicBlockStore, execBitmap
      ensures State() == ScanAt(decoder, old(State()), startAddress, end)
      ensures Valid(State(), index) && basicBlockStore[index].guestStart == startAddress
    {
      var found;
      found, index := GetBlockInfo(startAddress);
      if !found {
        ScanArmBlock(startAddress, index, end);
      }
    }

    /** rescanBlock: the guest address whose emitted words contain hostPC. */
    method RescanBlock(index: nat, hostPC: nat) returns (guestPC: Word)
      requires Shape() && write && codeStoreFreePtr < POOL
      requires Valid(State(), index) && BlockOk(decoder, State(), index)
      requires var b := basicBlockStore[index];
        b.codeStart <= hostPC < b.codeStart + |Body(decoder, mem, b.guestStart, b.guestEnd)|
      modifies this`codeStoreFreePtr, this`links, this`write, codeStore, basicBlockStore
      ensures State() == old(State()) && write
      ensures EmittedAt(decoder, mem, basicBlockStore[index], guestPC, hostPC)
    {
      var csFreeBackup := codeStoreFreePtr;
      var block := basicBlockStore[index];
      codeStoreFreePtr := block.codeStart;
      write := false;
      guestPC := FindInstruction(index, block, hostPC);
      codeStoreFreePtr := csFreeBackup;
      write := true;
    }

    /** The loop of rescanBlock, until the pointer passes hostPC. */
    method FindInstruction(index: nat, block: Block, hostPC: nat) returns (guestPC: Word)
      requires Shape() && !write && index < STORE && Scans(decoder, mem, block.guestStart, block.guestEnd)
      requires codeStoreFreePtr == block.codeStart <= hostPC
      requires hostPC < block.codeStart + |Body(decoder, mem, block.guestStart, block.guestEnd)| < POOL
      modifies this`codeStoreFreePtr, this`links, codeStore, basicBlockStore
      ensures State() == old(State()).(free := codeStoreFreePtr)
      ensures EmittedAt(decoder, mem, block, guestPC, hostPC)
    {
      guestPC := block.guestStart;
      while !decoder.code(mem(guestPC)).Replace?
        invariant Aligned(guestPC) && block.guestStart <= guestPC <= block.guestEnd
        invariant codeStoreFreePtr == block.codeStart + |Body(decoder, mem, block.guestStart, guestPC)| <= hostPC
        invariant State() == old(State()).(free := codeStoreFreePtr)
        decreases block.guestEnd - guestPC
      {
        BodyStepWithin(decoder, mem, block.guestStart, guestPC, block.guestEnd);
        EmitInstruction(index, guestPC, State(), []);
        if codeStoreFreePtr > hostPC {
          return;
        }
        guestPC := guestPC + 4;
      }
      // The source stops here: every instruction before the end has been tried.
      assert false;
    }

    /** findBlockIndexNumber: from a position inside a block to the number of its entry. */
    method FindBlockIndexNumber(hostPC: nat) returns (index: nat)
      requires Shape() && hostPC < POOL && FindIndex(codeStore[..], hostPC).Some?
      ensures Some(index) == FindIndex(codeStore[..], hostPC)
    {
      var pc := hostPC;
      while true
        invariant pc < POOL && FindIndex(codeStore[..], pc) == FindIndex(codeStore[..], hostPC)
        decreases POOL - pc
      {
        var instr := codeStore[pc];
        if IsServiceCall(instr) {
          return instr % 0x100_0000 - 0x100;
        } else if IsBranch(instr) {
          pc := pc + 1;
          instr := codeStore[pc];
          if IsBranch(instr) {
            pc := pc + 1;
            return codeStore[pc];
          } else if IsServiceCall(instr) {
            return instr % 0x100_0000 - 0x100;
          } else {
            return instr;
          }
        }
        pc := pc + 1;
      }
    }

    /** hostpcToGuestpc, when hostPC is in the body of the valid block number which;
        lastEntry is the entry the guest went in by. */
    method HostpcToGuestpc(hostPC: nat, lastEntry: nat, ghost which: nat) returns (guestPC: Word)
      requires Shape() && write && Inv(decoder, State()) && lastEntry < STORE
      requires Valid(State(), which) && NoControl(decoder, mem, basicBlockStore[which])
      requires var b := basicBlockStore[which];
        b.codeStart <= hostPC < b.codeStart + |Body(decoder, mem, b.guestStart, b.guestEnd)|
      requires basicBlockStore[lastEntry].typ.GroupArm? || lastEntry == which
      modifies this`codeStoreFreePtr, this`links, this`write, codeStore, basicBlockStore
      ensures Inv(decoder, State()) && write
      ensures old(basicBlockStore[lastEntry].typ.GroupArm?) ==>
                Fits(old(State()), which) && State() == Unlink(old(State()), which)
      ensures !old(basicBlockStore[lastEntry].typ.GroupArm?) ==> State() == old(State())
      ensures var b := old(basicBlockStore[which]);
        if hostPC == b.codeStart then guestPC == b.guestStart
        else EmittedAt(decoder, mem, b, guestPC, hostPC)
    {
      var index := lastEntry;
      var block := basicBlockStore[index];
      FindIndexFinds(decoder, State(), which, hostPC);
      if block.typ.GroupArm? {
        index := FindBlockIndexNumber(hostPC);
        UnlinkKeepsInv(decoder, State(), index);
        UnlinkBlock(index);
        block := basicBlockStore[index];
      }
      if hostPC == block.codeStart {
        guestPC := block.guestStart;
      } else {
        assert Valid(State(), index) && BlockOk(decoder, State(), index);
        guestPC := RescanBlock(index, hostPC);
      }
    }
  }
}
