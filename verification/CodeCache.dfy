// The translation cache as a state machine: src/instructionEmu/scanner.c,
// src/instructionEmu/blockLinker.c, src/guestManager/translationStore.c and
// src/guestManager/basicBlockStore.c.
module CodeCache {
  import opened MachineWords
  import opened ExecBitmap

  /** The pool of 2048 KB between RAM_CODE_CACHE_POOL_BEGIN and _END, in words. */
  const POOL: nat := 0x8_0000

  /** BASIC_BLOCK_STORE_SIZE */
  const STORE: nat := 0x1_0000

  datatype TranslateCode = Safe | Replace | Remove | PatchPc

  /** What the decoder tables say about an instruction, and the words pcHandler
      emits for an instruction at an address. */
  datatype Decoder = Decoder(code: Word -> TranslateCode, patch: (Word, Word) -> seq<Word>)

  /** Guest memory, read at word-aligned addresses. */
  type Memory = Word -> Word

  datatype BlockType = Invalid | BasicArm | GroupArm

  /** codeStart is a position in the code store. */
  datatype Block = Block(typ: BlockType, guestStart: Word, guestEnd: Word,
                         codeStart: nat, codeSize: nat, oneHypercall: bool)

  const EMPTY := Block(Invalid, 0, 0, 0, 0, false)

  // ----- What scanning a block emits -----

  function Emit(d: Decoder, mem: Memory, pc: Word): seq<Word> {
    match d.code(mem(pc))
    case Safe => [mem(pc)]
    case PatchPc => d.patch(pc, mem(pc))
    case _ => []
  }

  /** The words for the instructions from pc up to but not including end. */
  function Body(d: Decoder, mem: Memory, pc: Word, end: Word): seq<Word>
    requires Aligned(pc) && Aligned(end)
    decreases end - pc
  {
    if pc >= end then [] else Emit(d, mem, pc) + Body(d, mem, pc + 4, end)
  }

  predicate Aligned(address: Word) {
    address % 4 == 0
  }

  /** end is the first instruction from start on that has to be replaced. */
  ghost predicate Scans(d: Decoder, mem: Memory, start: Word, end: Word) {
    && start <= end && Aligned(start) && Aligned(end)
    && d.code(mem(end)).Replace?
    && forall pc: Word | start <= pc < end && Aligned(pc) :: !d.code(mem(pc)).Replace?
  }

  predicate OneHypercall(instruction: Word) {
    !(IsBranch(instruction) && IsConditional(instruction))
  }

  /** The words that set the link register come before the hypercalls. */
  function LinkPart(mem: Memory, end: Word): seq<Word> {
    if IsBranch(mem(end)) && BranchLinks(mem(end)) then LinkWords(Cond(mem(end)), (end - 4) % 0x1_0000_0000)
    else []
  }

  /** One hypercall, or two for a conditional branch, and the planted index. */
  function HypercallPart(mem: Memory, end: Word, index: nat): seq<Word>
    requires index < STORE
  {
    if OneHypercall(mem(end)) then [Hypercall(index), index]
    else [WithCond(Hypercall(index), Cond(mem(end))), Hypercall(index), index]
  }

  function Planted(d: Decoder, mem: Memory, start: Word, end: Word, index: nat): seq<Word>
    requires Aligned(start) && Aligned(end) && index < STORE
  {
    Body(d, mem, start, end) + LinkPart(mem, end) + HypercallPart(mem, end, index)
  }

  // ----- The cache and its invariant -----

  /** A direct branch: the block it ends, the guest address it stands for, the block
      it leads to and the position it jumps to. */
  datatype Link = Link(owner: nat, pc: Word, dest: nat, target: nat)

  /** The store, the bitmap, guest memory, and which words linkBlock has patched. */
  datatype Cache = Cache(code: seq<Word>, free: nat, blocks: seq<Block>, bitmap: Bitmap,
                         mem: Memory, links: map<nat, Link>)

  predicate Valid(s: Cache, i: nat) {
    i < |s.blocks| && !s.blocks[i].typ.Invalid?
  }

  /** The positions of the hypercalls of a block. */
  predicate IsSlot(b: Block, loc: int) {
    loc == b.codeStart + b.codeSize - 2 || (!b.oneHypercall && loc == b.codeStart + b.codeSize - 3)
  }

  /** The word at loc is the planted one, or a branch under the planted condition
      that has taken the place of a hypercall. */
  predicate WordOk(s: Cache, b: Block, loc: nat, planted: Word)
    requires loc < |s.code|
  {
    if loc in s.links then
      IsSlot(b, loc) && b.typ.GroupArm? && s.code[loc] == Branch(loc, s.links[loc].target, Cond(planted))
    else s.code[loc] == planted
  }

  predicate Inside(b: Block, loc: int) {
    b.codeStart <= loc < b.codeStart + b.codeSize
  }

  /** The word at loc, inside the block, with the one planted there. */
  predicate WordAt(s: Cache, b: Block, planted: seq<Word>, loc: nat)
    requires b.codeSize == |planted| && b.codeStart + b.codeSize <= |s.code|
    requires Inside(b, loc)
  {
    WordOk(s, b, loc, planted[loc - b.codeStart])
  }

  ghost predicate WordsOk(s: Cache, b: Block, planted: seq<Word>) {
    && b.codeSize == |planted|
    && b.codeStart + b.codeSize <= s.free <= |s.code|
    && forall loc: nat | Inside(b, loc) :: WordAt(s, b, planted, loc)
  }

  /** What the entry of a block says about guest memory. */
  ghost predicate HeaderOk(d: Decoder, mem: Memory, bitmap: Bitmap, b: Block) {
    && Scans(d, mem, b.guestStart, b.guestEnd)
    && AllMarked(bitmap, b.guestStart, b.guestEnd)
    && b.oneHypercall == OneHypercall(mem(b.guestEnd))
  }

  ghost predicate BlockOk(d: Decoder, s: Cache, i: nat)
    requires Valid(s, i)
  {
    var b := s.blocks[i];
    && i < STORE
    && HeaderOk(d, s.mem, s.bitmap, b)
    && WordsOk(s, b, Planted(d, s.mem, b.guestStart, b.guestEnd, i))
  }

  predicate Apart(a: Block, b: Block) {
    a.codeStart + a.codeSize <= b.codeStart || b.codeStart + b.codeSize <= a.codeStart
  }

  ghost predicate AllOk(d: Decoder, s: Cache) {
    forall i: nat | Valid(s, i) :: BlockOk(d, s, i)
  }

  /** The code of different valid blocks does not overlap. */
  ghost predicate AllApart(s: Cache) {
    forall i: nat, j: nat | Valid(s, i) && Valid(s, j) && i != j :: Apart(s.blocks[i], s.blocks[j])
  }

  /** Only hypercalls of valid blocks are patched. */
  ghost predicate LinksOwned(s: Cache) {
    forall loc | loc in s.links :: Valid(s, s.links[loc].owner) && IsSlot(s.blocks[s.links[loc].owner], loc)
  }

  /** The cache apart from the targets of its links. */
  ghost predicate Structure(d: Decoder, s: Cache) {
    && |s.code| == POOL && |s.blocks| == STORE && s.free < POOL
    && AllOk(d, s) && AllApart(s) && LinksOwned(s)
  }

  /** A link leads to the start of a valid block for the address it stands for. */
  predicate LinkOk(s: Cache, l: Link) {
    Valid(s, l.dest) && s.blocks[l.dest].guestStart == l.pc && s.blocks[l.dest].codeStart == l.target
  }

  ghost predicate LinksOk(s: Cache) {
    forall loc | loc in s.links :: LinkOk(s, s.links[loc])
  }

  /** The invariant of the cache. */
  ghost predicate Inv(d: Decoder, s: Cache) {
    Structure(d, s) && LinksOk(s)
  }

  // ----- Basic facts -----

  /** The last words planted are the hypercalls and the index. */
  predicate PlantedTail(planted: seq<Word>, one: bool, cond: int, i: nat)
    requires i < STORE
  {
    && |planted| >= (if one then 2 else 3)
    && planted[|planted| - 1] == i
    && planted[|planted| - 2] == Hypercall(i)
    && (!one ==> 0 <= cond < 16 && planted[|planted| - 3] == WithCond(Hypercall(i), cond))
  }

  lemma PlantedEnds(d: Decoder, mem: Memory, start: Word, end: Word, i: nat)
    requires Aligned(start) && Aligned(end) && i < STORE
    ensures PlantedTail(Planted(d, mem, start, end, i), OneHypercall(mem(end)), Cond(mem(end)), i)
  {
  }

  /** The block has room for its hypercalls and index inside the code store. */
  predicate Fits(s: Cache, i: nat) {
    && i < |s.blocks| && i < STORE
    && var b := s.blocks[i];
       && b.codeSize >= (if b.oneHypercall then 2 else 3)
       && b.codeStart + b.codeSize <= |s.code|
  }

  lemma BlockFits(d: Decoder, s: Cache, i: nat)
    requires Valid(s, i) && BlockOk(d, s, i)
    ensures Fits(s, i)
  {
  }

  /** The code of b and its links are the same in both caches. */
  ghost predicate SameRange(s: Cache, s': Cache, b: Block) {
    && |s'.code| == |s.code|
    && b.codeStart + b.codeSize <= |s.code|
    && forall loc: nat | Inside(b, loc) ::
         s'.code[loc] == s.code[loc] && (loc in s'.links <==> loc in s.links)
         && (loc in s.links ==> s'.links[loc] == s.links[loc])
  }

  lemma WordsFrame(s: Cache, s': Cache, b: Block, typ: BlockType, planted: seq<Word>)
    requires WordsOk(s, b, planted) && SameRange(s, s', b)
    requires s.free <= s'.free <= |s.code| && (typ == b.typ || typ.GroupArm?)
    ensures WordsOk(s', b.(typ := typ), planted)
  {
    forall loc: nat | Inside(b, loc)
      ensures WordAt(s', b.(typ := typ), planted, loc)
    {
      assert WordAt(s, b, planted, loc);
    }
  }

  /** A block whose entry, guest code and host code stay is still all right. */
  lemma BlockFrame(d: Decoder, s: Cache, s': Cache, i: nat)
    requires Valid(s, i) && BlockOk(d, s, i)
    requires Valid(s', i) && (s'.blocks[i] == s.blocks[i] || s'.blocks[i] == s.blocks[i].(typ := GroupArm))
    requires SameRange(s, s', s.blocks[i]) && s.free <= s'.free <= |s.code| && s'.mem == s.mem
    requires AllMarked(s'.bitmap, s.blocks[i].guestStart, s.blocks[i].guestEnd)
    ensures BlockOk(d, s', i)
  {
    var b := s.blocks[i];
    WordsFrame(s, s', b, s'.blocks[i].typ, Planted(d, s.mem, b.guestStart, b.guestEnd, i));
  }

  // ----- unlinkBlock -----

  /** unlinkBlock: the last hypercall is rebuilt, and the one before it under the
      condition found in its place. */
  function Unlink(s: Cache, i: nat): Cache
    requires Fits(s, i)
  {
    var b := s.blocks[i];
    var last := b.codeStart + b.codeSize - 2;
    var code := s.code[last := Hypercall(i)];
    if b.oneHypercall then
      s.(code := code, blocks := s.blocks[i := b.(typ := BasicArm)], links := s.links - {last})
    else
      s.(code := code[last - 1 := WithCond(Hypercall(i), Cond(code[last - 1]))],
         blocks := s.blocks[i := b.(typ := BasicArm)], links := s.links - {last, last - 1})
  }

  /** Whether or not its hypercalls are patched, rebuilding them gives the planted
      words, and none of the words is a link any more. */
  lemma UnlinkWord(s: Cache, i: nat, planted: seq<Word>, cond: int, loc: nat)
    requires Fits(s, i) && WordsOk(s, s.blocks[i], planted)
    requires PlantedTail(planted, s.blocks[i].oneHypercall, cond, i)
    requires Inside(s.blocks[i], loc)
    ensures loc !in Unlink(s, i).links
    ensures Unlink(s, i).code[loc] == planted[loc - s.blocks[i].codeStart]
  {
  }

  lemma UnlinkWords(d: Decoder, s: Cache, i: nat, loc: nat)
    requires Valid(s, i) && BlockOk(d, s, i)
    requires Inside(s.blocks[i], loc)
    ensures Fits(s, i)
    ensures var s', b := Unlink(s, i), s.blocks[i];
      && loc !in s'.links
      && s'.code[loc] == Planted(d, s.mem, b.guestStart, b.guestEnd, i)[loc - b.codeStart]
  {
    BlockFits(d, s, i);
    var b := s.blocks[i];
    PlantedEnds(d, s.mem, b.guestStart, b.guestEnd, i);
    UnlinkWord(s, i, Planted(d, s.mem, b.guestStart, b.guestEnd, i), Cond(s.mem(b.guestEnd)), loc);
  }

  /** An unlinked block holds exactly the words that scanning it planted. */
  lemma UnlinkRestores(d: Decoder, s: Cache, i: nat)
    requires Valid(s, i) && BlockOk(d, s, i)
    ensures Fits(s, i)
    ensures var s', b := Unlink(s, i), s.blocks[i];
      s'.code[b.codeStart..b.codeStart + b.codeSize] == Planted(d, s.mem, b.guestStart, b.guestEnd, i)
  {
    hide Planted, WordAt;
    BlockFits(d, s, i);
    var s', b := Unlink(s, i), s.blocks[i];
    var planted := Planted(d, s.mem, b.guestStart, b.guestEnd, i);
    forall loc: nat | b.codeStart <= loc < b.codeStart + |planted|
      ensures s'.code[loc] == planted[loc - b.codeStart]
    {
      UnlinkWords(d, s, i, loc);
    }
    SameWords(s'.code, b.codeStart, planted);
  }

  lemma SameWords(code: seq<Word>, start: nat, words: seq<Word>)
    requires start + |words| <= |code|
    requires forall loc: nat | start <= loc < start + |words| :: code[loc] == words[loc - start]
    ensures code[start..start + |words|] == words
  {
  }

  lemma UnpatchedSlot(d: Decoder, s: Cache, i: nat, loc: nat)
    requires Valid(s, i) && BlockOk(d, s, i)
    requires Inside(s.blocks[i], loc) && loc !in s.links
    ensures Fits(s, i) && Unlink(s, i).code[loc] == s.code[loc]
  {
    hide Unlink, Planted;
    UnlinkWords(d, s, i, loc);
    var b := s.blocks[i];
    assert WordAt(s, b, Planted(d, s.mem, b.guestStart, b.guestEnd, i), loc);
  }

  /** Unlinking a block that is not patched changes no word. */
  lemma UnlinkUnpatched(d: Decoder, s: Cache, i: nat)
    requires Valid(s, i) && BlockOk(d, s, i)
    requires forall loc: nat | IsSlot(s.blocks[i], loc) :: loc !in s.links
    ensures Fits(s, i)
    ensures Unlink(s, i).code == s.code && Unlink(s, i).links == s.links
  {
    BlockFits(d, s, i);
    var b := s.blocks[i];
    var last := b.codeStart + b.codeSize - 2;
    assert IsSlot(b, last);
    UnpatchedSlot(d, s, i, last);
    if !b.oneHypercall {
      assert IsSlot(b, last - 1);
      UnpatchedSlot(d, s, i, last - 1);
    }
    UnlinkSame(s, i);
  }

  lemma UnlinkSame(s: Cache, i: nat)
    requires Fits(s, i)
    requires forall loc: nat | IsSlot(s.blocks[i], loc) :: loc !in s.links && Unlink(s, i).code[loc] == s.code[loc]
    ensures Unlink(s, i).code == s.code && Unlink(s, i).links == s.links
  {
    var b := s.blocks[i];
    var last := b.codeStart + b.codeSize - 2;
    assert IsSlot(b, last) && (!b.oneHypercall ==> IsSlot(b, last - 1));
    SameElements(Unlink(s, i).code, s.code);
    NothingRemoved(s.links, last, if b.oneHypercall then last else last - 1);
  }

  lemma SameElements(a: seq<Word>, b: seq<Word>)
    requires |a| == |b| && forall k | 0 <= k < |a| :: a[k] == b[k]
    ensures a == b
  {
  }

  lemma NothingRemoved(links: map<nat, Link>, k: nat, l: nat)
    requires k !in links && l !in links
    ensures links - {k} == links && links - {k, l} == links
  {
  }

  lemma UnlinkFrame(d: Decoder, s: Cache, i: nat, j: nat)
    requires Fits(s, i) && Valid(s, j) && BlockOk(d, s, j)
    requires i != j && Apart(s.blocks[i], s.blocks[j])
    ensures BlockOk(d, Unlink(s, i), j)
  {
  }

  lemma UnlinkSelf(d: Decoder, s: Cache, i: nat)
    requires Valid(s, i) && BlockOk(d, s, i)
    ensures Fits(s, i) && BlockOk(d, Unlink(s, i), i)
  {
    BlockFits(d, s, i);
    var s', b := Unlink(s, i), s.blocks[i];
    var planted := Planted(d, s.mem, b.guestStart, b.guestEnd, i);
    forall loc: nat | Inside(b, loc)
      ensures WordAt(s', s'.blocks[i], planted, loc)
    {
      UnlinkWords(d, s, i, loc);
    }
  }

  lemma UnlinkOk(d: Decoder, s: Cache, i: nat)
    requires AllOk(d, s) && AllApart(s) && Valid(s, i)
    ensures Fits(s, i) && AllOk(d, Unlink(s, i))
  {
    assert BlockOk(d, s, i);
    BlockFits(d, s, i);
    forall j: nat | Valid(Unlink(s, i), j)
      ensures BlockOk(d, Unlink(s, i), j)
    {
      assert Valid(s, j) && BlockOk(d, s, j);
      if j == i {
        UnlinkSelf(d, s, i);
      } else {
        UnlinkFrame(d, s, i, j);
      }
    }
  }

  lemma UnlinkApart(s: Cache, i: nat)
    requires Fits(s, i) && Valid(s, i) && AllApart(s) && LinksOwned(s)
    ensures AllApart(Unlink(s, i)) && LinksOwned(Unlink(s, i))
  {
  }

  lemma UnlinkKeepsStructure(d: Decoder, s: Cache, i: nat)
    requires Structure(d, s) && Valid(s, i)
    ensures Fits(s, i) && Structure(d, Unlink(s, i))
  {
    UnlinkOk(d, s, i);
    UnlinkApart(s, i);
  }
}
