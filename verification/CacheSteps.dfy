// The steps of the translation cache and what every one of them keeps.
module CacheSteps {
  import opened MachineWords
  import opened ExecBitmap
  import opened CodeCache
  import opened GuestMemory

  // ----- getBlockInfo -----

  /** getBasicBlockStoreIndex */
  function Home(address: Word): nat {
    address / 4 % STORE
  }

  /** RanOff stands for the probe leaving the table: it does not wrap around. */
  datatype Lookup = Found(index: nat) | Free(index: nat) | RanOff

  /** getBlockInfo, from position i of the table. */
  function Probe(blocks: seq<Block>, address: Word, i: nat): (r: Lookup)
    ensures r.Found? ==> i <= r.index < |blocks| && !blocks[r.index].typ.Invalid? && blocks[r.index].guestStart == address
    ensures r.Free? ==> i <= r.index < |blocks| && blocks[r.index].typ.Invalid?
    ensures !r.RanOff? ==> forall j | i <= j < r.index :: !blocks[j].typ.Invalid? && blocks[j].guestStart != address
    ensures r.RanOff? ==> forall j | i <= j < |blocks| :: !blocks[j].typ.Invalid? && blocks[j].guestStart != address
    decreases |blocks| - i
  {
    if i >= |blocks| then RanOff
    else if blocks[i].typ.Invalid? then Free(i)
    else if blocks[i].guestStart == address then Found(i)
    else Probe(blocks, address, i + 1)
  }

  // ----- scanArmBlock -----

  /** What scanning a block needs: guest code that ends, and a pool it does not fill. */
  ghost predicate Scannable(d: Decoder, s: Cache, start: Word, end: Word, index: nat) {
    && Scans(d, s.mem, start, end) && index < STORE
    && |s.code| == POOL && |s.blocks| == STORE && s.free < POOL
    && |Planted(d, s.mem, start, end, index)| < POOL
  }

  /** The emission of the block does not reach the end of the pool. */
  ghost predicate Below(d: Decoder, s: Cache, start: Word, end: Word, index: nat)
    requires Scannable(d, s, start, end, index)
  {
    s.free + |Planted(d, s.mem, start, end, index)| < POOL
  }

  /** The new entry and its words, when all of them fit before the pool end. */
  function InPlace(s: Cache, start: Word, end: Word, index: nat, words: seq<Word>, one: bool): Cache
    requires index < |s.blocks| && s.free + |words| <= |s.code|
  {
    var free := s.free + |words|;
    s.(code := s.code[..s.free] + words + s.code[free..],
       free := free,
       blocks := s.blocks[index := Block(BasicArm, start, end, s.free, |words|, one)],
       bitmap := SetExec(s.bitmap, start, end))
  }

  /** When the pool is filled on the way: the words emitted by then are moved to the
      front, every other entry is gone, and the rest of the words follow there. */
  function AtFront(s: Cache, start: Word, end: Word, index: nat, words: seq<Word>, one: bool): Cache
    requires index < |s.blocks| && s.free <= |s.code| && |words| <= |s.code| <= s.free + |words|
  {
    var filled := s.code[..s.free] + words[..|s.code| - s.free];
    s.(code := words + filled[|words|..],
       free := |words|,
       blocks := seq(|s.blocks|, _ => EMPTY)[index := Block(BasicArm, start, end, 0, |words|, one)],
       bitmap := SetExec(s.bitmap, start, end),
       links := map[])
  }

  /** The flag of a block with one hypercall is set before the index is planted, and
      does not survive if the index is the word that fills the pool. */
  predicate FlagIsLost(d: Decoder, s: Cache, start: Word, end: Word, index: nat)
    requires Aligned(start) && Aligned(end) && index < STORE
  {
    OneHypercall(s.mem(end)) && s.free + |Planted(d, s.mem, start, end, index)| == POOL
  }

  ghost function ScanInPlace(d: Decoder, s: Cache, start: Word, end: Word, index: nat): Cache
    requires Scannable(d, s, start, end, index) && Below(d, s, start, end, index)
  {
    InPlace(s, start, end, index, Planted(d, s.mem, start, end, index), OneHypercall(s.mem(end)))
  }

  ghost function ScanToFront(d: Decoder, s: Cache, start: Word, end: Word, index: nat): Cache
    requires Scannable(d, s, start, end, index) && !Below(d, s, start, end, index)
  {
    AtFront(s, start, end, index, Planted(d, s.mem, start, end, index),
            OneHypercall(s.mem(end)) && !FlagIsLost(d, s, start, end, index))
  }

  ghost function Scan(d: Decoder, s: Cache, start: Word, end: Word, index: nat): Cache
    requires Scannable(d, s, start, end, index)
  {
    if Below(d, s, start, end, index) then ScanInPlace(d, s, start, end, index)
    else ScanToFront(d, s, start, end, index)
  }

  lemma LinksBelowFree(d: Decoder, s: Cache, loc: nat)
    requires Structure(d, s) && loc in s.links
    ensures loc < s.free
  {
    var i := s.links[loc].owner;
    assert BlockOk(d, s, i);
    BlockFits(d, s, i);
  }

  lemma ScanSameRange(d: Decoder, s: Cache, start: Word, end: Word, index: nat, b: Block)
    requires Scannable(d, s, start, end, index) && Below(d, s, start, end, index)
    requires b.codeStart + b.codeSize <= s.free
    ensures SameRange(s, ScanInPlace(d, s, start, end, index), b)
  {}

  lemma ScanOther(d: Decoder, s: Cache, start: Word, end: Word, index: nat, i: nat)
    requires Scannable(d, s, start, end, index) && Below(d, s, start, end, index)
    requires NoneLost(s.bitmap, SetExec(s.bitmap, start, end))
    requires Valid(s, i) && BlockOk(d, s, i) && i != index
    ensures BlockOk(d, ScanInPlace(d, s, start, end, index), i)
  {
    var s', b := ScanInPlace(d, s, start, end, index), s.blocks[i];
    AllMarkedStays(s.bitmap, s'.bitmap, b.guestStart, b.guestEnd);
    ScanSameRange(d, s, start, end, index, b);
    BlockFrame(d, s, s', i);
  }

  lemma ScanWords(d: Decoder, s: Cache, start: Word, end: Word, index: nat)
    requires Scannable(d, s, start, end, index) && Below(d, s, start, end, index)
    requires forall loc | loc in s.links :: loc < s.free
    ensures var s' := ScanInPlace(d, s, start, end, index);
      WordsOk(s', s'.blocks[index], Planted(d, s.mem, start, end, index))
  {
  }

  lemma ScanNew(d: Decoder, s: Cache, start: Word, end: Word, index: nat)
    requires Scannable(d, s, start, end, index) && Below(d, s, start, end, index)
    requires Structure(d, s) && MarksWell(s.bitmap, start, end)
    ensures BlockOk(d, ScanInPlace(d, s, start, end, index), index)
  {
    forall loc | loc in s.links ensures loc < s.free {
      LinksBelowFree(d, s, loc);
    }
    ScanWords(d, s, start, end, index);
  }

  lemma ScanOk(d: Decoder, s: Cache, start: Word, end: Word, index: nat)
    requires Scannable(d, s, start, end, index) && Below(d, s, start, end, index)
    requires Structure(d, s) && MarksWell(s.bitmap, start, end)
    ensures AllOk(d, ScanInPlace(d, s, start, end, index))
  {
    var s' := ScanInPlace(d, s, start, end, index);
    forall i: nat | Valid(s', i)
      ensures BlockOk(d, s', i)
    {
      if i == index {
        ScanNew(d, s, start, end, index);
      } else {
        assert Valid(s, i) && BlockOk(d, s, i);
        ScanOther(d, s, start, end, index, i);
      }
    }
  }

  lemma ScanApart(d: Decoder, s: Cache, start: Word, end: Word, index: nat)
    requires Scannable(d, s, start, end, index) && Below(d, s, start, end, index) && Structure(d, s)
    ensures AllApart(ScanInPlace(d, s, start, end, index))
  {
    var s' := ScanInPlace(d, s, start, end, index);
    forall i: nat, j: nat | Valid(s', i) && Valid(s', j) && i != j
      ensures Apart(s'.blocks[i], s'.blocks[j])
    {
      assert i != index ==> Valid(s, i) && BlockOk(d, s, i);
      assert j != index ==> Valid(s, j) && BlockOk(d, s, j);
    }
  }

  lemma ScanLinks(d: Decoder, s: Cache, start: Word, end: Word, index: nat)
    requires Scannable(d, s, start, end, index) && Below(d, s, start, end, index)
    requires LinksOwned(s) && LinksOk(s) && !Valid(s, index)
    ensures LinksOwned(ScanInPlace(d, s, start, end, index)) && LinksOk(ScanInPlace(d, s, start, end, index))
  {
  }

  /** The block moved to the front is all right exactly when it keeps its flag. */
  lemma ScanToFrontBlock(d: Decoder, s: Cache, start: Word, end: Word, index: nat)
    requires Scannable(d, s, start, end, index) && !Below(d, s, start, end, index)
    requires AllMarked(SetExec(s.bitmap, start, end), start, end)
    ensures BlockOk(d, ScanToFront(d, s, start, end, index), index) <==> !FlagIsLost(d, s, start, end, index)
  {
    var r := ScanToFront(d, s, start, end, index);
    var planted := Planted(d, s.mem, start, end, index);
    assert WordsOk(r, r.blocks[index], planted);
  }

  /** Scanning a block keeps the invariant, also over the end of the pool, unless the
      block has one hypercall and its index is the word that fills the pool. */
  lemma ScanKeepsInv(d: Decoder, s: Cache, start: Word, end: Word, index: nat)
    requires Inv(d, s) && Scannable(d, s, start, end, index) && !Valid(s, index)
    requires MarksWell(s.bitmap, start, end)
    ensures Inv(d, Scan(d, s, start, end, index)) <==> !FlagIsLost(d, s, start, end, index)
  {
    var r := Scan(d, s, start, end, index);
    if Below(d, s, start, end, index) {
      ScanOk(d, s, start, end, index);
      ScanApart(d, s, start, end, index);
      ScanLinks(d, s, start, end, index);
    } else {
      ScanToFrontBlock(d, s, start, end, index);
      assert forall i: nat :: Valid(r, i) <==> i == index;
    }
  }

  /** What the lost flag leads to: unlinking the block takes it for one with two
      hypercalls and overwrites the word before its only one. */
  lemma LostFlagOverwrites(d: Decoder, s: Cache, start: Word, end: Word, index: nat)
    requires Scannable(d, s, start, end, index) && FlagIsLost(d, s, start, end, index)
    ensures var r, planted := Scan(d, s, start, end, index), Planted(d, s.mem, start, end, index);
      var n := |planted|;
      && (Fits(r, index) <==> n >= 3)
      && r.code[..n] == planted
      && (n >= 3 ==>
            Unlink(r, index).code[..n] == planted[n - 3 := WithCond(Hypercall(index), Cond(planted[n - 3]))])
  {
    var r, planted := Scan(d, s, start, end, index), Planted(d, s.mem, start, end, index);
    var n := |planted|;
    PlantedEnds(d, s.mem, start, end, index);
    if n >= 3 {
      assert Unlink(r, index).code[..n] == planted[n - 3 := WithCond(Hypercall(index), Cond(planted[n - 3]))];
    }
  }

  // ----- linkBlock -----

  /** linkBlock: the hypercall at loc of block i becomes a branch to the block for
      nextPC, if that block is in the table. */
  function LinkBlock(s: Cache, i: nat, loc: nat, nextPC: Word): Cache
    requires i < |s.blocks| && loc < |s.code|
  {
    match Probe(s.blocks, nextPC, Home(nextPC))
    case Found(j) =>
      var b := s.blocks[i];
      var cond := if loc != b.codeStart + b.codeSize - 2 then Cond(s.mem(b.guestEnd)) else AL;
      var target := s.blocks[j].codeStart;
      var blocks := s.blocks[i := b.(typ := GroupArm)];
      s.(code := s.code[loc := Branch(loc, target, cond)],
         blocks := blocks[j := blocks[j].(typ := GroupArm)],
         links := s.links[loc := Link(i, nextPC, j, target)])
    case _ => s
  }

  lemma LinkSameRange(s: Cache, i: nat, loc: nat, nextPC: Word, b: Block)
    requires i < |s.blocks| && loc < |s.code| && !Inside(b, loc) && b.codeStart + b.codeSize <= |s.code|
    ensures SameRange(s, LinkBlock(s, i, loc, nextPC), b)
  {}

  lemma LinkOther(d: Decoder, s: Cache, i: nat, loc: nat, nextPC: Word, k: nat)
    requires Structure(d, s) && Valid(s, i) && IsSlot(s.blocks[i], loc) && loc < |s.code|
    requires Valid(s, k) && k != i
    ensures BlockOk(d, LinkBlock(s, i, loc, nextPC), k)
  {
    var s' := LinkBlock(s, i, loc, nextPC);
    assert BlockOk(d, s, k) && BlockOk(d, s, i) && Apart(s.blocks[i], s.blocks[k]);
    BlockFits(d, s, i);
    LinkSameRange(s, i, loc, nextPC, s.blocks[k]);
    BlockFrame(d, s, s', k);
  }

  /** The branch keeps the condition that was planted. */
  lemma LinkKeepsWords(s: Cache, i: nat, loc: nat, nextPC: Word, planted: seq<Word>)
    requires i < |s.blocks| && i < STORE && loc < |s.code|
    requires WordsOk(s, s.blocks[i], planted) && IsSlot(s.blocks[i], loc)
    requires PlantedTail(planted, s.blocks[i].oneHypercall, Cond(s.mem(s.blocks[i].guestEnd)), i)
    ensures var s' := LinkBlock(s, i, loc, nextPC); WordsOk(s', s'.blocks[i], planted)
  {
    var s', b := LinkBlock(s, i, loc, nextPC), s.blocks[i];
    forall l: nat | Inside(b, l)
      ensures WordAt(s', s'.blocks[i], planted, l)
    {
      LinkKeepsWord(s, i, loc, nextPC, planted, l);
    }
  }

  lemma LinkKeepsWord(s: Cache, i: nat, loc: nat, nextPC: Word, planted: seq<Word>, l: nat)
    requires i < |s.blocks| && i < STORE && loc < |s.code|
    requires s.blocks[i].codeSize == |planted| && s.blocks[i].codeStart + s.blocks[i].codeSize <= |s.code|
    requires Inside(s.blocks[i], l) && WordAt(s, s.blocks[i], planted, l) && IsSlot(s.blocks[i], loc)
    requires PlantedTail(planted, s.blocks[i].oneHypercall, Cond(s.mem(s.blocks[i].guestEnd)), i)
    ensures var s' := LinkBlock(s, i, loc, nextPC);
      s'.blocks[i].codeStart == s.blocks[i].codeStart && s'.blocks[i].codeSize == |planted|
      && |s'.code| == |s.code| && WordAt(s', s'.blocks[i], planted, l)
  {
  }

  lemma LinkSelf(d: Decoder, s: Cache, i: nat, loc: nat, nextPC: Word)
    requires Valid(s, i) && BlockOk(d, s, i) && IsSlot(s.blocks[i], loc) && loc < |s.code|
    ensures BlockOk(d, LinkBlock(s, i, loc, nextPC), i)
  {
    var b := s.blocks[i];
    PlantedEnds(d, s.mem, b.guestStart, b.guestEnd, i);
    LinkKeepsWords(s, i, loc, nextPC, Planted(d, s.mem, b.guestStart, b.guestEnd, i));
  }

  lemma LinkApart(s: Cache, i: nat, loc: nat, nextPC: Word)
    requires AllApart(s) && Valid(s, i) && loc < |s.code|
    ensures AllApart(LinkBlock(s, i, loc, nextPC))
  {
  }

  lemma LinkLinks(s: Cache, i: nat, loc: nat, nextPC: Word)
    requires LinksOwned(s) && LinksOk(s) && Valid(s, i) && IsSlot(s.blocks[i], loc) && loc < |s.code|
    ensures LinksOwned(LinkBlock(s, i, loc, nextPC)) && LinksOk(LinkBlock(s, i, loc, nextPC))
  {
    var s' := LinkBlock(s, i, loc, nextPC);
    forall l | l in s'.links
      ensures Valid(s', s'.links[l].owner) && IsSlot(s'.blocks[s'.links[l].owner], l)
      ensures LinkOk(s', s'.links[l])
    {
      assert l != loc ==> LinkOk(s, s.links[l]);
    }
  }

  lemma LinkKeepsInv(d: Decoder, s: Cache, i: nat, loc: nat, nextPC: Word)
    requires Inv(d, s) && Valid(s, i) && IsSlot(s.blocks[i], loc) && loc < |s.code|
    ensures Inv(d, LinkBlock(s, i, loc, nextPC))
  {
    var s' := LinkBlock(s, i, loc, nextPC);
    forall k: nat | Valid(s', k)
      ensures BlockOk(d, s', k)
    {
      assert Valid(s, k) && BlockOk(d, s, k);
      if k == i {
        LinkSelf(d, s, i, loc, nextPC);
      } else {
        LinkOther(d, s, i, loc, nextPC, k);
      }
    }
    LinkApart(s, i, loc, nextPC);
    LinkLinks(s, i, loc, nextPC);
  }

  /** Entry j is for the address, and no free entry lies between its home and j. */
  predicate Listed(blocks: seq<Block>, address: Word, j: nat) {
    && Home(address) <= j < |blocks| && !blocks[j].typ.Invalid? && blocks[j].guestStart == address
    && forall k | Home(address) <= k < j :: !blocks[k].typ.Invalid?
  }

  /** In r the word at loc of block i is a branch to block k under the condition of the
      hypercall that it replaces, and both are group blocks; all else is as in s. */
  ghost predicate Leads(s: Cache, r: Cache, i: nat, loc: nat, k: nat)
    requires i < |s.blocks| && k < |s.blocks| && loc < |s.code|
  {
    && |r.code| == |s.code| && |r.blocks| == |s.blocks|
    && IsBranch(r.code[loc]) && !BranchLinks(r.code[loc])
    && BranchTarget(r.code[loc], loc) == s.blocks[k].codeStart
    && Cond(r.code[loc]) == (if loc == s.blocks[i].codeStart + s.blocks[i].codeSize - 2 then AL
                             else Cond(s.mem(s.blocks[i].guestEnd)))
    && r.blocks[i] == s.blocks[i].(typ := GroupArm) && r.blocks[k] == s.blocks[k].(typ := GroupArm)
    && (forall l | 0 <= l < |s.code| && l != loc :: r.code[l] == s.code[l])
    && (forall j | 0 <= j < |s.blocks| && j != i && j != k :: r.blocks[j] == s.blocks[j])
    && r.free == s.free && r.bitmap == s.bitmap && r.mem == s.mem
  }

  /** The link is made exactly if the table lists a block for the address; otherwise
      nothing changes. */
  lemma LinkIsMade(d: Decoder, s: Cache, i: nat, loc: nat, nextPC: Word)
    requires Inv(d, s) && Valid(s, i) && IsSlot(s.blocks[i], loc) && loc < |s.code|
    ensures var r := LinkBlock(s, i, loc, nextPC);
      if exists j: nat :: Listed(s.blocks, nextPC, j)
      then exists k: nat :: Listed(s.blocks, nextPC, k) && Leads(s, r, i, loc, k)
      else r == s
  {
    var found := Probe(s.blocks, nextPC, Home(nextPC));
    if found.Found? {
      LinkLeads(d, s, i, loc, nextPC, found.index);
    }
  }

  lemma LinkLeads(d: Decoder, s: Cache, i: nat, loc: nat, nextPC: Word, k: nat)
    requires Inv(d, s) && Valid(s, i) && IsSlot(s.blocks[i], loc) && loc < |s.code|
    requires Probe(s.blocks, nextPC, Home(nextPC)) == Found(k)
    ensures Listed(s.blocks, nextPC, k) && Leads(s, LinkBlock(s, i, loc, nextPC), i, loc, k)
  {
    hide WordsOk, HeaderOk, AllApart, LinksOwned, LinksOk, Branch, IsBranch, BranchTarget, BranchLinks, Home;
    var b := s.blocks[i];
    assert Valid(s, k) && BlockOk(d, s, k) && BlockOk(d, s, i);
    BlockFits(d, s, i);
    BlockFits(d, s, k);
    BranchReaches(loc, s.blocks[k].codeStart, if loc != b.codeStart + b.codeSize - 2 then Cond(s.mem(b.guestEnd)) else AL);
  }

  // ----- unlinkAllBlocks and clearTranslationsByAddress -----

  predicate Grouped(s: Cache, i: nat) {
    i < |s.blocks| && s.blocks[i].typ.GroupArm?
  }

  ghost predicate AllFit(s: Cache) {
    forall i: nat | Valid(s, i) :: Fits(s, i)
  }

  lemma UnlinkFits(s: Cache, i: nat)
    requires AllFit(s) && Fits(s, i) && Valid(s, i)
    ensures AllFit(Unlink(s, i))
  {
    forall j: nat | Valid(Unlink(s, i), j)
      ensures Fits(Unlink(s, i), j)
    {
      assert Valid(s, j);
    }
  }

  lemma ClearFits(s: Cache, i: nat)
    requires AllFit(s) && i < |s.blocks|
    ensures AllFit(s.(blocks := s.blocks[i := EMPTY]))
  {
    var r := s.(blocks := s.blocks[i := EMPTY]);
    forall j: nat | Valid(r, j)
      ensures Fits(r, j)
    {
      assert Valid(s, j);
    }
  }

  /** The body of both loops: a group block is unlinked, ... */
  function UnlinkIfGroup(s: Cache, i: nat): (r: Cache)
    requires AllFit(s)
    ensures AllFit(r) && |r.blocks| == |s.blocks|
  {
    if Grouped(s, i) then
      assert Valid(s, i);
      UnlinkFits(s, i);
      Unlink(s, i)
    else s
  }

  predicate Covers(b: Block, address: Word) {
    b.guestStart <= address <= b.guestEnd
  }

  /** ... and clearTranslationsByAddress zeroes an entry that covers the address. */
  function ClearIfCovering(s: Cache, i: nat, address: Word): (r: Cache)
    requires AllFit(s) && i < |s.blocks|
    ensures AllFit(r) && |r.blocks| == |s.blocks|
  {
    if Covers(s.blocks[i], address) then
      ClearFits(s, i);
      s.(blocks := s.blocks[i := EMPTY])
    else s
  }

  function UnlinkFrom(s: Cache, i: nat): Cache
    requires AllFit(s)
    decreases |s.blocks| - i
  {
    if i >= |s.blocks| then s else UnlinkFrom(UnlinkIfGroup(s, i), i + 1)
  }

  function ClearFrom(s: Cache, i: nat, address: Word): (r: Cache)
    requires AllFit(s)
    ensures AllFit(r)
    decreases |s.blocks| - i
  {
    if i >= |s.blocks| then s
    else ClearFrom(ClearIfCovering(UnlinkIfGroup(s, i), i, address), i + 1, address)
  }

  lemma StructureFits(d: Decoder, s: Cache)
    requires Structure(d, s)
    ensures AllFit(s)
  {
  }

  /** What the loops leave alone: guest memory, the bitmap, the free pointer, and the
      entries up to their type or their removal. */
  ghost predicate OnlyRetyped(s: Cache, r: Cache) {
    && r.mem == s.mem && r.bitmap == s.bitmap && r.free == s.free && |r.blocks| == |s.blocks|
    && forall i: nat | Valid(r, i) ::
         Valid(s, i) && (r.blocks[i] == s.blocks[i] || r.blocks[i] == s.blocks[i].(typ := BasicArm))
  }

  lemma UnlinkIfGroupStep(d: Decoder, s: Cache, i: nat)
    requires Structure(d, s)
    ensures AllFit(s)
    ensures var r := UnlinkIfGroup(s, i);
      && Structure(d, r) && OnlyRetyped(s, r) && !Grouped(r, i)
      && (forall j: nat | Valid(s, j) :: Valid(r, j))
  {
    StructureFits(d, s);
    if Grouped(s, i) {
      UnlinkKeepsStructure(d, s, i);
    }
  }

  lemma ClearedApart(s: Cache, i: nat)
    requires i < |s.blocks| && AllApart(s) && LinksOwned(s)
    requires forall loc | loc in s.links :: s.links[loc].owner != i
    ensures var r := s.(blocks := s.blocks[i := EMPTY]); AllApart(r) && LinksOwned(r)
  {
  }

  lemma ClearedOk(d: Decoder, s: Cache, i: nat)
    requires i < |s.blocks| && AllOk(d, s)
    ensures AllOk(d, s.(blocks := s.blocks[i := EMPTY]))
  {
    var r := s.(blocks := s.blocks[i := EMPTY]);
    forall j: nat | Valid(r, j)
      ensures BlockOk(d, r, j)
    {
      assert Valid(s, j) && BlockOk(d, s, j);
      var b := s.blocks[j];
      assert SameRange(s, r, b);
      BlockFrame(d, s, r, j);
    }
  }

  /** A block that is no group block owns no link. */
  lemma OwnsNothing(d: Decoder, s: Cache, i: nat)
    requires Structure(d, s) && !Grouped(s, i)
    ensures forall loc | loc in s.links :: s.links[loc].owner != i
  {
    forall loc | loc in s.links
      ensures s.links[loc].owner != i
    {
      if s.links[loc].owner == i {
        assert Valid(s, i) && BlockOk(d, s, i) && IsSlot(s.blocks[i], loc);
        OwnerGrouped(d, s, i, loc);
      }
    }
  }

  lemma OwnerGrouped(d: Decoder, s: Cache, i: nat, loc: nat)
    requires Valid(s, i) && BlockOk(d, s, i) && IsSlot(s.blocks[i], loc) && loc in s.links
    ensures Grouped(s, i)
  {
    BlockFits(d, s, i);
    var b := s.blocks[i];
    assert WordAt(s, b, Planted(d, s.mem, b.guestStart, b.guestEnd, i), loc);
  }

  lemma ClearStep(d: Decoder, s: Cache, i: nat, address: Word)
    requires Structure(d, s) && i < |s.blocks| && !Grouped(s, i)
    ensures AllFit(s)
    ensures var r := ClearIfCovering(s, i, address);
      && Structure(d, r) && OnlyRetyped(s, r)
      && !(Valid(r, i) && Covers(r.blocks[i], address))
      && (forall j: nat | Valid(s, j) && !Covers(s.blocks[j], address) :: Valid(r, j))
  {
    StructureFits(d, s);
    OwnsNothing(d, s, i);
    ClearedApart(s, i);
    ClearedOk(d, s, i);
  }

  ghost predicate UngroupedBelow(s: Cache, i: nat) {
    forall j: nat | j < i :: !Grouped(s, j)
  }

  ghost predicate AllStay(s: Cache, r: Cache) {
    forall j: nat | Valid(s, j) :: Valid(r, j)
  }

  lemma UnlinkBodyKeeps(d: Decoder, s: Cache, i: nat)
    requires Structure(d, s) && UngroupedBelow(s, i)
    ensures AllFit(s)
    ensures var r := UnlinkIfGroup(s, i);
      Structure(d, r) && OnlyRetyped(s, r) && UngroupedBelow(r, i + 1) && AllStay(s, r)
  {
    UnlinkIfGroupStep(d, s, i);
    var r := UnlinkIfGroup(s, i);
    forall j: nat | j < i + 1
      ensures !Grouped(r, j)
    {
      assert (Valid(r, j) ==> Valid(s, j)) && (j < i ==> !Grouped(s, j));
    }
  }

  /** The loop of unlinkAllBlocks. */
  lemma {:induction false} UnlinkFromKeeps(d: Decoder, s: Cache, i: nat)
    requires Structure(d, s) && UngroupedBelow(s, i)
    ensures AllFit(s)
    ensures var r := UnlinkFrom(s, i);
      Structure(d, r) && OnlyRetyped(s, r) && UngroupedBelow(r, |r.blocks|) && AllStay(s, r)
    decreases |s.blocks| - i
  {
    StructureFits(d, s);
    if i < |s.blocks| {
      UnlinkBodyKeeps(d, s, i);
      var s' := UnlinkIfGroup(s, i);
      UnlinkFromKeeps(d, s', i + 1);
      var r := UnlinkFrom(s', i + 1);
      RetypedTwice(s, s', r);
      forall j: nat | Valid(s, j)
        ensures Valid(r, j)
      {
        assert Valid(s', j);
      }
    }
  }

  lemma RetypedTwice(s: Cache, r: Cache, t: Cache)
    requires OnlyRetyped(s, r) && OnlyRetyped(r, t)
    ensures OnlyRetyped(s, t)
  {
  }

  /** No entry below i is grouped or covers the address. */
  ghost predicate ClearedBelow(s: Cache, i: nat, address: Word) {
    forall j: nat | j < i :: !Grouped(s, j) && !(Valid(s, j) && Covers(s.blocks[j], address))
  }

  /** Every block that does not cover the address is still there. */
  ghost predicate OthersStay(s: Cache, r: Cache, address: Word) {
    forall j: nat | Valid(s, j) && !Covers(s.blocks[j], address) :: Valid(r, j)
  }

  lemma ClearBodyKeeps(d: Decoder, s: Cache, i: nat, address: Word)
    requires Structure(d, s) && ClearedBelow(s, i, address) && i < |s.blocks|
    ensures AllFit(s)
    ensures var r := ClearIfCovering(UnlinkIfGroup(s, i), i, address);
      && Structure(d, r) && OnlyRetyped(s, r) && ClearedBelow(r, i + 1, address) && OthersStay(s, r, address)
  {
    UnlinkIfGroupStep(d, s, i);
    var s1 := UnlinkIfGroup(s, i);
    ClearStep(d, s1, i, address);
    var r := ClearIfCovering(s1, i, address);
    RetypedTwice(s, s1, r);
    forall j: nat | j < i + 1
      ensures !Grouped(r, j) && !(Valid(r, j) && Covers(r.blocks[j], address))
    {
      assert Valid(r, j) ==> Valid(s1, j) && Valid(s, j);
    }
    forall j: nat | Valid(s, j) && !Covers(s.blocks[j], address)
      ensures Valid(r, j)
    {
      assert Valid(s1, j);
    }
  }

  /** The loop of clearTranslationsByAddress. */
  lemma {:induction false} ClearFromKeeps(d: Decoder, s: Cache, i: nat, address: Word)
    requires Structure(d, s) && ClearedBelow(s, i, address)
    ensures AllFit(s)
    ensures var r := ClearFrom(s, i, address);
      && Structure(d, r) && OnlyRetyped(s, r) && ClearedBelow(r, |r.blocks|, address) && OthersStay(s, r, address)
    decreases |s.blocks| - i
  {
    hide Structure, ClearIfCovering, UnlinkIfGroup;
    StructureFits(d, s);
    if i < |s.blocks| {
      ClearBodyKeeps(d, s, i, address);
      var s' := ClearIfCovering(UnlinkIfGroup(s, i), i, address);
      ClearFromKeeps(d, s', i + 1, address);
      var r := ClearFrom(s', i + 1, address);
      RetypedTwice(s, s', r);
      forall j: nat | Valid(s, j) && !Covers(s.blocks[j], address)
        ensures Valid(r, j)
      {
        assert Valid(s', j);
      }
    }
  }

  lemma NoGroupsNoLinks(d: Decoder, s: Cache)
    requires Structure(d, s) && UngroupedBelow(s, |s.blocks|)
    ensures Inv(d, s) && s.links == map[]
  {
    forall loc | loc in s.links
      ensures false
    {
      OwnsNothing(d, s, s.links[loc].owner);
    }
  }

  /** unlinkAllBlocks */
  function UnlinkAll(s: Cache): Cache
    requires AllFit(s)
  {
    UnlinkFrom(s, 0)
  }

  lemma UnlinkAllKeepsInv(d: Decoder, s: Cache)
    requires Inv(d, s)
    ensures AllFit(s)
    ensures var r := UnlinkAll(s);
      Inv(d, r) && r.links == map[] && OnlyRetyped(s, r) && AllStay(s, r)
  {
    UnlinkFromKeeps(d, s, 0);
    NoGroupsNoLinks(d, UnlinkAll(s));
  }

  /** clearTranslationsByAddress */
  function ClearAddress(s: Cache, address: Word): (r: Cache)
    requires AllFit(s)
    ensures AllFit(r)
  {
    if PageBit(s.bitmap, Page(address)) then ClearFrom(s, 0, address) else s
  }

  /** Afterwards no valid entry covers the address, also when the bitmap made it
      return at once and also when an address has several entries; the entries that
      do not cover it are kept, and no branch leads to a removed one. */
  lemma ClearAddressKeepsInv(d: Decoder, s: Cache, address: Word)
    requires Inv(d, s)
    ensures AllFit(s)
    ensures var r := ClearAddress(s, address);
      && Inv(d, r) && OnlyRetyped(s, r)
      && (forall j: nat | Valid(s, j) :: Valid(r, j) <==> !Covers(s.blocks[j], address))
      && (forall j: nat | Valid(r, j) :: !Covers(r.blocks[j], address))
  {
    StructureFits(d, s);
    var r := ClearAddress(s, address);
    if PageBit(s.bitmap, Page(address)) {
      ClearFromKeeps(d, s, 0, address);
      assert UngroupedBelow(r, |r.blocks|);
      NoGroupsNoLinks(d, r);
    } else {
      forall j: nat | Valid(s, j)
        ensures !Covers(s.blocks[j], address)
      {
        assert BlockOk(d, s, j);
      }
    }
    assert OthersStay(s, r, address);
  }

  // ----- clearTranslationsAll -----

  function ClearAll(s: Cache): Cache {
    s.(code := seq(|s.code|, _ => 0), free := 0, blocks := seq(|s.blocks|, _ => EMPTY), links := map[])
  }

  lemma ClearAllKeepsInv(d: Decoder, s: Cache)
    requires |s.code| == POOL && |s.blocks| == STORE
    ensures Inv(d, ClearAll(s)) && forall j: nat :: !Valid(ClearAll(s), j)
  {}

  // ----- A store by the guest -----

  /** Scanning a block with the changed memory ends at the same instruction, sets the
      same flag and plants the same words. */
  ghost predicate SameScan(d: Decoder, mem: Memory, mem': Memory, b: Block, i: nat)
    requires i < STORE
  {
    && Scans(d, mem, b.guestStart, b.guestEnd) && Scans(d, mem', b.guestStart, b.guestEnd)
    && OneHypercall(mem'(b.guestEnd)) == OneHypercall(mem(b.guestEnd))
    && Planted(d, mem', b.guestStart, b.guestEnd, i) == Planted(d, mem, b.guestStart, b.guestEnd, i)
  }

  lemma UnchangedScan(d: Decoder, mem: Memory, mem': Memory, b: Block, i: nat)
    requires Scans(d, mem, b.guestStart, b.guestEnd) && i < STORE
    requires forall a: Word | Covers(b, a) && Aligned(a) :: mem(a) == mem'(a)
    ensures SameScan(d, mem, mem', b, i)
  {
    assert Covers(b, b.guestEnd) && Aligned(b.guestEnd);
    forall a: Word | b.guestStart <= a < b.guestEnd && Aligned(a) ensures mem(a) == mem'(a) {
      assert Covers(b, a);
    }
    SameBody(d, mem, mem', b.guestStart, b.guestEnd);
  }

  lemma {:induction false} SameBody(d: Decoder, mem: Memory, mem': Memory, pc: Word, end: Word)
    requires Aligned(pc) && Aligned(end)
    requires forall a: Word | pc <= a < end && Aligned(a) :: mem(a) == mem'(a)
    ensures Body(d, mem, pc, end) == Body(d, mem', pc, end)
    decreases end - pc
  {
    if pc < end {
      SameBody(d, mem, mem', pc + 4, end);
    }
  }

  /** The words planted are determined by the code store: also where a branch has taken
      the place of a hypercall, by the condition that it has kept. */
  lemma SamePlanted(d: Decoder, s: Cache, s': Cache, b: Block, i: nat)
    requires i < STORE && s'.code == s.code && s'.links == s.links
    requires HeaderOk(d, s.mem, s.bitmap, b) && HeaderOk(d, s'.mem, s'.bitmap, b)
    requires WordsOk(s, b, Planted(d, s.mem, b.guestStart, b.guestEnd, i))
    requires WordsOk(s', b, Planted(d, s'.mem, b.guestStart, b.guestEnd, i))
    ensures Planted(d, s'.mem, b.guestStart, b.guestEnd, i) == Planted(d, s.mem, b.guestStart, b.guestEnd, i)
  {
    var p, p' := Planted(d, s.mem, b.guestStart, b.guestEnd, i), Planted(d, s'.mem, b.guestStart, b.guestEnd, i);
    PlantedEnds(d, s.mem, b.guestStart, b.guestEnd, i);
    PlantedEnds(d, s'.mem, b.guestStart, b.guestEnd, i);
    SameWords(s, s', b, p, p', Cond(s.mem(b.guestEnd)), Cond(s'.mem(b.guestEnd)), i);
  }

  lemma SameWords(s: Cache, s': Cache, b: Block, p: seq<Word>, p': seq<Word>, cond: int, cond': int, i: nat)
    requires i < STORE && PlantedTail(p, b.oneHypercall, cond, i) && PlantedTail(p', b.oneHypercall, cond', i)
    requires s'.code == s.code && s'.links == s.links && WordsOk(s, b, p) && WordsOk(s', b, p')
    ensures p == p'
  {
    forall k | 0 <= k < |p|
      ensures p'[k] == p[k]
    {
      assert WordAt(s, b, p, b.codeStart + k) && WordAt(s', b, p', b.codeStart + k);
      SameWordPlanted(p, p', k, b.oneHypercall, cond, cond', i, b.codeStart + k in s.links);
    }
  }

  lemma SameWordPlanted(p: seq<Word>, p': seq<Word>, k: nat, one: bool, cond: int, cond': int, i: nat, linked: bool)
    requires i < STORE && PlantedTail(p, one, cond, i) && PlantedTail(p', one, cond', i) && k < |p| == |p'|
    requires if linked then Cond(p[k]) == Cond(p'[k]) && (k == |p| - 2 || (!one && k == |p| - 3)) else p[k] == p'[k]
    ensures p[k] == p'[k]
  {
  }

  /** Whatever becomes of guest memory, the cache agrees with it exactly if every block is
      scanned to the same words. */
  lemma MemoryChange(d: Decoder, s: Cache, mem: Memory)
    requires Inv(d, s)
    ensures Inv(d, s.(mem := mem)) <==> forall i: nat | Valid(s, i) :: SameScan(d, s.mem, mem, s.blocks[i], i)
  {
    var t := s.(mem := mem);
    if Inv(d, t) {
      forall i: nat | Valid(s, i)
        ensures SameScan(d, s.mem, mem, s.blocks[i], i)
      {
        assert Valid(t, i) && BlockOk(d, s, i) && BlockOk(d, t, i);
        SamePlanted(d, s, t, s.blocks[i], i);
      }
    }
    if forall i: nat | Valid(s, i) :: SameScan(d, s.mem, mem, s.blocks[i], i) {
      forall i: nat | Valid(t, i)
        ensures BlockOk(d, t, i)
      {
        assert Valid(s, i) && BlockOk(d, s, i);
        SameScanOk(d, s, t, i);
      }
      RestAfterWrite(s, t);
    }
  }

  lemma SameScanOk(d: Decoder, s: Cache, t: Cache, i: nat)
    requires Valid(s, i) && BlockOk(d, s, i) && t == s.(mem := t.mem)
    requires SameScan(d, s.mem, t.mem, s.blocks[i], i)
    ensures BlockOk(d, t, i)
  {
    var b := s.blocks[i];
    var planted := Planted(d, s.mem, b.guestStart, b.guestEnd, i);
    forall loc: nat | Inside(b, loc)
      ensures WordAt(t, b, planted, loc)
    {
      assert WordAt(s, b, planted, loc);
    }
  }

  lemma RestAfterWrite(s: Cache, r: Cache)
    requires r == s.(mem := r.mem) && AllApart(s) && LinksOwned(s) && LinksOk(s)
    ensures AllApart(r) && LinksOwned(r) && LinksOk(r)
  {
  }

  lemma MemoryFits(s: Cache, mem: Memory)
    requires AllFit(s)
    ensures AllFit(s.(mem := mem))
  {
    var t := s.(mem := mem);
    forall i: nat | Valid(t, i) ensures Fits(t, i) {
      assert Valid(s, i);
    }
  }

  /** An emulated store: the translations for the one address that faulted are cleared,
      and then all the bytes are written. */
  function GuestWrite(s: Cache, fault: Word, address: Word, bytes: seq<Byte>): (t: Cache)
    requires AllFit(s)
    ensures AllFit(t)
  {
    var r := ClearAddress(s, fault);
    MemoryFits(r, Stored(r.mem, address, bytes));
    r.(mem := Stored(r.mem, address, bytes))
  }

  /** The block outlives the store, and it reaches an instruction of the block. */
  ghost predicate Reached(b: Block, fault: Word, address: Word, n: nat) {
    !Covers(b, fault) && exists a: Word :: Touches(address, n, a) && Covers(b, a)
  }

  /** Every block that the store reaches is scanned to the same words as before. */
  ghost predicate Harmless(d: Decoder, s: Cache, fault: Word, address: Word, bytes: seq<Byte>) {
    forall i: nat | Valid(s, i) && Reached(s.blocks[i], fault, address, |bytes|) ::
      i < STORE && SameScan(d, s.mem, Stored(s.mem, address, bytes), s.blocks[i], i)
  }

  /** After a store the cache agrees with guest memory exactly if the store is harmless. */
  lemma GuestWriteKeepsInv(d: Decoder, s: Cache, fault: Word, address: Word, bytes: seq<Byte>)
    requires Inv(d, s)
    ensures AllFit(s)
    ensures Inv(d, GuestWrite(s, fault, address, bytes)) <==> Harmless(d, s, fault, address, bytes)
  {
    ClearAddressKeepsInv(d, s, fault);
    var r, mem := ClearAddress(s, fault), Stored(s.mem, address, bytes);
    assert r.mem == s.mem;
    MemoryChange(d, r, mem);
    forall i: nat | Valid(s, i)
      ensures i < STORE
      ensures Valid(r, i) && SameScan(d, r.mem, mem, r.blocks[i], i) ==> SameScan(d, s.mem, mem, s.blocks[i], i)
      ensures !Covers(s.blocks[i], fault) && SameScan(d, s.mem, mem, s.blocks[i], i) ==>
                Valid(r, i) && SameScan(d, r.mem, mem, r.blocks[i], i)
      ensures !Covers(s.blocks[i], fault) && !Reached(s.blocks[i], fault, address, |bytes|) ==>
                SameScan(d, s.mem, mem, s.blocks[i], i)
    {
      assert BlockOk(d, s, i);
      if !Covers(s.blocks[i], fault) && !Reached(s.blocks[i], fault, address, |bytes|) {
        NotReached(d, s.mem, address, bytes, s.blocks[i], fault, i);
      }
    }
  }

  lemma NotReached(d: Decoder, mem: Memory, address: Word, bytes: seq<Byte>, b: Block, fault: Word, i: nat)
    requires Scans(d, mem, b.guestStart, b.guestEnd) && i < STORE
    requires !Covers(b, fault) && !Reached(b, fault, address, |bytes|)
    ensures SameScan(d, mem, Stored(mem, address, bytes), b, i)
  {
    forall a: Word | Covers(b, a) && Aligned(a)
      ensures mem(a) == Stored(mem, address, bytes)(a)
    {
      UntouchedStays(mem, address, bytes, a);
    }
    UnchangedScan(d, mem, Stored(mem, address, bytes), b, i);
  }

  // ----- scanBlock -----

  /** The probe ends inside the table, at the block or where it can be made. */
  ghost predicate ProbeReady(d: Decoder, s: Cache, pc: Word, end: Word) {
    var r := Probe(s.blocks, pc, Home(pc));
    r.Found? || (r.Free? && Scannable(d, s, pc, end, r.index))
  }

  /** scanBlock */
  ghost function ScanAt(d: Decoder, s: Cache, pc: Word, end: Word): Cache
    requires ProbeReady(d, s, pc, end)
  {
    var r := Probe(s.blocks, pc, Home(pc));
    if r.Found? then s else Scan(d, s, pc, end, r.index)
  }

  // ----- Runs -----

  datatype Step =
    | ScanStep(pc: Word, end: Word)
    | LinkStep(block: nat, loc: nat, nextPC: Word)
    | UnlinkStep(block: nat)
    | UnlinkAllStep
    | ClearStep(address: Word)
    | ClearAllStep
    | WriteStep(fault: Word, address: Word, bytes: seq<Byte>)

  /** A scan into a free entry that marks the pages well and keeps the flag. */
  ghost predicate CanScan(d: Decoder, s: Cache, start: Word, end: Word, index: nat) {
    && Scannable(d, s, start, end, index) && !Valid(s, index)
    && MarksWell(s.bitmap, start, end) && !FlagIsLost(d, s, start, end, index)
  }

  /** When a step can happen: a scan finds its block or can make it; a link starts at a
      hypercall of a valid block; a store is harmless. */
  ghost predicate Enabled(d: Decoder, s: Cache, step: Step) {
    AllFit(s) &&
    match step
    case ScanStep(pc, end) =>
      var r := Probe(s.blocks, pc, Home(pc));
      r.Found? || (r.Free? && CanScan(d, s, pc, end, r.index))
    case LinkStep(i, loc, _) => Valid(s, i) && IsSlot(s.blocks[i], loc) && loc < |s.code|
    case UnlinkStep(i) => Valid(s, i)
    case WriteStep(fault, address, bytes) => Harmless(d, s, fault, address, bytes)
    case _ => true
  }

  ghost function Next(d: Decoder, s: Cache, step: Step): Cache
    requires Enabled(d, s, step) && |s.code| == POOL
  {
    match step
    case ScanStep(pc, end) => ScanAt(d, s, pc, end)
    case LinkStep(i, loc, nextPC) => LinkBlock(s, i, loc, nextPC)
    case UnlinkStep(i) => Unlink(s, i)
    case UnlinkAllStep => UnlinkAll(s)
    case ClearStep(address) => ClearAddress(s, address)
    case ClearAllStep => ClearAll(s)
    case WriteStep(fault, address, bytes) => GuestWrite(s, fault, address, bytes)
  }

  lemma UnlinkLinks(s: Cache, i: nat)
    requires Fits(s, i) && Valid(s, i) && LinksOk(s)
    ensures LinksOk(Unlink(s, i))
  {
  }

  lemma UnlinkKeepsInv(d: Decoder, s: Cache, i: nat)
    requires Inv(d, s) && Valid(s, i)
    ensures Fits(s, i) && Inv(d, Unlink(s, i))
  {
    UnlinkKeepsStructure(d, s, i);
    UnlinkLinks(s, i);
  }

  lemma StepKeepsInv(d: Decoder, s: Cache, step: Step)
    requires Inv(d, s) && Enabled(d, s, step)
    ensures Inv(d, Next(d, s, step))
  {
    match step
    case ScanStep(pc, end) =>
      var r := Probe(s.blocks, pc, Home(pc));
      if r.Free? {
        ScanKeepsInv(d, s, pc, end, r.index);
      }
    case LinkStep(i, loc, nextPC) => LinkKeepsInv(d, s, i, loc, nextPC);
    case UnlinkStep(i) => UnlinkKeepsInv(d, s, i);
    case UnlinkAllStep => UnlinkAllKeepsInv(d, s);
    case ClearStep(address) => ClearAddressKeepsInv(d, s, address);
    case ClearAllStep => ClearAllKeepsInv(d, s);
    case WriteStep(fault, address, bytes) => GuestWriteKeepsInv(d, s, fault, address, bytes);
  }

  /** initialiseTranslationStore */
  ghost predicate Initial(s: Cache) {
    && |s.code| == POOL && |s.blocks| == STORE && s.free == 0 && s.links == map[]
    && forall i | 0 <= i < STORE :: s.blocks[i] == EMPTY
  }

  lemma InitialInv(d: Decoder, s: Cache)
    requires Initial(s)
    ensures Inv(d, s)
  {}

  /** states is a run: it starts from an empty cache and takes enabled steps. */
  ghost predicate IsRun(d: Decoder, states: seq<Cache>, steps: seq<Step>) {
    && |states| == |steps| + 1
    && Initial(states[0])
    && forall k | 0 <= k < |steps| ::
         |states[k].code| == POOL && Enabled(d, states[k], steps[k]) && states[k + 1] == Next(d, states[k], steps[k])
  }

  lemma {:induction false} RunKeepsInv(d: Decoder, states: seq<Cache>, steps: seq<Step>, k: nat)
    requires IsRun(d, states, steps) && k < |states|
    ensures Inv(d, states[k])
  {
    if k == 0 {
      InitialInv(d, states[0]);
    } else {
      RunKeepsInv(d, states, steps, k - 1);
      StepKeepsInv(d, states[k - 1], steps[k - 1]);
    }
  }

  lemma HypercallIsNoBranch(i: nat, cond: int)
    requires i < STORE && 0 <= cond < 16
    ensures !IsBranch(Hypercall(i)) && !IsBranch(WithCond(Hypercall(i), cond))
  {
  }

  /** The words at the hypercalls of a block, read as the processor reads them. */
  lemma SlotIsSafe(d: Decoder, s: Cache, i: nat, loc: nat)
    requires Inv(d, s) && Valid(s, i) && IsSlot(s.blocks[i], loc)
    ensures loc < POOL
    ensures IsBranch(s.code[loc]) <==> loc in s.links
    ensures loc in s.links ==>
              && s.blocks[i].typ.GroupArm? && LinkOk(s, s.links[loc])
              && BranchTarget(s.code[loc], loc) == s.blocks[s.links[loc].dest].codeStart
  {
    var b := s.blocks[i];
    assert BlockOk(d, s, i);
    BlockFits(d, s, i);
    PlantedEnds(d, s.mem, b.guestStart, b.guestEnd, i);
    var planted := Planted(d, s.mem, b.guestStart, b.guestEnd, i);
    assert WordAt(s, b, planted, loc);
    HypercallIsNoBranch(i, Cond(s.mem(b.guestEnd)));
    if loc in s.links {
      var j := s.links[loc].dest;
      assert LinkOk(s, s.links[loc]) && BlockOk(d, s, j);
      BranchReaches(loc, s.links[loc].target, Cond(planted[loc - b.codeStart]));
    }
  }

  /** In every state of every run a direct branch in the tail of a valid block leads
      to the code of a block that is valid now and was scanned from the guest address
      the branch stands for, and only group blocks hold such branches. */
  lemma BranchesAreSafe(d: Decoder, states: seq<Cache>, steps: seq<Step>, k: nat, i: nat, loc: nat)
    requires IsRun(d, states, steps) && k < |states|
    requires Valid(states[k], i) && IsSlot(states[k].blocks[i], loc)
    ensures var s := states[k];
      && loc < |s.code|
      && (IsBranch(s.code[loc]) ==>
            && s.blocks[i].typ.GroupArm? && loc in s.links
            && exists j: nat :: Valid(s, j) && s.blocks[j].guestStart == s.links[loc].pc
                             && s.blocks[j].codeStart == BranchTarget(s.code[loc], loc))
  {
    RunKeepsInv(d, states, steps, k);
    SlotIsSafe(d, states[k], i, loc);
  }

  /** In every state of every run the code of a valid block, its hypercalls aside, is
      what scanning guest memory now would emit, and it overlaps no other block. */
  lemma CacheAgreesWithMemory(d: Decoder, states: seq<Cache>, steps: seq<Step>, k: nat, i: nat, loc: nat)
    requires IsRun(d, states, steps) && k < |states|
    requires Valid(states[k], i) && Inside(states[k].blocks[i], loc) && !IsSlot(states[k].blocks[i], loc)
    ensures var s, b := states[k], states[k].blocks[i];
      && i < STORE && Scans(d, s.mem, b.guestStart, b.guestEnd) && loc < |s.code|
      && var planted := Planted(d, s.mem, b.guestStart, b.guestEnd, i);
         b.codeSize == |planted| && s.code[loc] == planted[loc - b.codeStart]
    ensures forall j: nat | Valid(states[k], j) && j != i :: !Inside(states[k].blocks[j], loc)
  {
    RunKeepsInv(d, states, steps, k);
    var s, b := states[k], states[k].blocks[i];
    assert BlockOk(d, s, i);
    assert WordAt(s, b, Planted(d, s.mem, b.guestStart, b.guestEnd, i), loc);
    forall j: nat | Valid(s, j) && j != i
      ensures !Inside(s.blocks[j], loc)
    {
      assert Apart(s.blocks[i], s.blocks[j]);
    }
  }
}
