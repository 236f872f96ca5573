// Which emulated stores leave the translation cache in agreement with guest memory:
// the cases of src/instructionEmu/loadStoreDecode.c and the stores of
// src/instructionEmu/interpreter/arm/storeInstructions.c.
module GuestStores {
  import opened MachineWords
  import opened ExecBitmap
  import opened CodeCache
  import opened GuestMemory
  import opened CacheSteps

  /** The instruction that a block ends with stays one to be replaced, and the same words
      are planted for it. */
  ghost predicate LastStays(d: Decoder, mem: Memory, mem': Memory, end: Word, i: nat)
    requires i < STORE
  {
    && d.code(mem'(end)).Replace?
    && OneHypercall(mem'(end)) == OneHypercall(mem(end))
    && LinkPart(mem', end) + HypercallPart(mem', end, i) == LinkPart(mem, end) + HypercallPart(mem, end, i)
  }

  lemma SameTail(head: seq<Word>, tail: seq<Word>, tail': seq<Word>)
    ensures head + tail == head + tail' <==> tail == tail'
  {
    assert (head + tail)[|head|..] == tail && (head + tail')[|head|..] == tail';
  }

  lemma SameHead(head: seq<Word>, head': seq<Word>, tail: seq<Word>)
    ensures head + tail == head' + tail <==> head == head'
  {
    assert |head + tail| == |head| + |tail|;
    assert (head + tail)[..|head|] == head && (head' + tail)[..|head'|] == head';
  }

  lemma TailDecides(d: Decoder, mem: Memory, mem': Memory, start: Word, end: Word, i: nat)
    requires Aligned(start) && Aligned(end) && i < STORE
    requires Body(d, mem', start, end) == Body(d, mem, start, end)
    ensures Planted(d, mem', start, end, i) == Planted(d, mem, start, end, i) <==>
      LinkPart(mem', end) + HypercallPart(mem', end, i) == LinkPart(mem, end) + HypercallPart(mem, end, i)
  {
    var body := Body(d, mem, start, end);
    var tail, tail' := LinkPart(mem, end) + HypercallPart(mem, end, i), LinkPart(mem', end) + HypercallPart(mem', end, i);
    assert Planted(d, mem, start, end, i) == body + tail;
    assert Planted(d, mem', start, end, i) == body + tail';
    SameTail(body, tail, tail');
  }

  /** If nothing but its last instruction changes, that decides. */
  lemma LastDecides(d: Decoder, mem: Memory, mem': Memory, b: Block, i: nat)
    requires Scans(d, mem, b.guestStart, b.guestEnd) && i < STORE
    requires forall a: Word | b.guestStart <= a < b.guestEnd && Aligned(a) :: mem(a) == mem'(a)
    ensures SameScan(d, mem, mem', b, i) <==> LastStays(d, mem, mem', b.guestEnd, i)
  {
    SameBody(d, mem, mem', b.guestStart, b.guestEnd);
    TailDecides(d, mem, mem', b.guestStart, b.guestEnd, i);
  }

  // ----- Stores inside one word -----

  /** The store goes behind the start of the last instruction: guestEnd is the address of
      that instruction, not of its end. */
  predicate Misses(b: Block, address: Word) {
    address % 4 != 0 && b.guestEnd == WordAddress(address)
  }

  lemma ReachedIsMissed(b: Block, address: Word, n: nat)
    requires Aligned(b.guestStart) && Aligned(b.guestEnd) && b.guestStart <= b.guestEnd
    requires WithinWord(address, n)
    ensures Reached(b, address, address, n) <==> Misses(b, address)
  {
    TouchesOne(address, n, WordAddress(address));
    forall a: Word | Touches(address, n, a) ensures a == WordAddress(address) {
      TouchesOne(address, n, a);
    }
  }

  /** A block that survives the store covers the word stored to exactly when the store
      misses it. */
  lemma SurvivorsAfterWrite(d: Decoder, s: Cache, address: Word, i: nat)
    requires Inv(d, s) && AllFit(s) && Valid(ClearAddress(s, address), i)
    ensures var b := ClearAddress(s, address).blocks[i];
      Covers(b, WordAddress(address)) <==> Misses(b, address)
  {
    ClearAddressKeepsInv(d, s, address);
    var r := ClearAddress(s, address);
    assert BlockOk(d, r, i) && !Covers(r.blocks[i], address);
    ReachedIsMissed(r.blocks[i], address, 1);
    TouchesOne(address, 1, WordAddress(address));
    forall a: Word | Touches(address, 1, a) ensures a == WordAddress(address) {
      TouchesOne(address, 1, a);
    }
  }

  /** The last instruction of every block that is missed stays what it was to the scanner. */
  ghost predicate MissedStay(d: Decoder, s: Cache, address: Word, mem: Memory) {
    forall i: nat | Valid(s, i) && Misses(s.blocks[i], address) ::
      i < STORE && LastStays(d, s.mem, mem, s.blocks[i].guestEnd, i)
  }

  /** Bytes, halfwords and words stored inside one word. */
  lemma WordStoreKeepsInv(d: Decoder, s: Cache, address: Word, bytes: seq<Byte>)
    requires Inv(d, s) && WithinWord(address, |bytes|)
    ensures AllFit(s)
    ensures Inv(d, GuestWrite(s, address, address, bytes)) <==>
      MissedStay(d, s, address, Stored(s.mem, address, bytes))
  {
    GuestWriteKeepsInv(d, s, address, address, bytes);
    var mem := Stored(s.mem, address, bytes);
    forall i: nat | Valid(s, i)
      ensures i < STORE && (Reached(s.blocks[i], address, address, |bytes|) <==> Misses(s.blocks[i], address))
      ensures Misses(s.blocks[i], address) ==>
        (SameScan(d, s.mem, mem, s.blocks[i], i) <==> LastStays(d, s.mem, mem, s.blocks[i].guestEnd, i))
    {
      var b := s.blocks[i];
      assert BlockOk(d, s, i);
      ReachedIsMissed(b, address, |bytes|);
      if Misses(b, address) {
        forall a: Word | b.guestStart <= a < b.guestEnd && Aligned(a) ensures s.mem(a) == mem(a) {
          TouchesOne(address, |bytes|, a);
          UntouchedStays(s.mem, address, bytes, a);
        }
        LastDecides(d, s.mem, mem, b, i);
      }
    }
  }

  /** So an aligned store of a word, a halfword or a byte always keeps the agreement. */
  lemma AlignedStoreKeepsInv(d: Decoder, s: Cache, address: Word, bytes: seq<Byte>)
    requires Inv(d, s) && Aligned(address) && 0 < |bytes| <= 4
    ensures AllFit(s) && Inv(d, GuestWrite(s, address, address, bytes))
  {
    WordStoreKeepsInv(d, s, address, bytes);
  }

  // ----- Doublewords -----

  /** The second word is the first instruction of the block. */
  predicate StartsBehind(b: Block, address: Word) {
    b.guestStart == Plus(address, 4) && !Covers(b, address)
  }

  lemma ReachedIsBehind(b: Block, address: Word)
    requires Aligned(b.guestStart) && Aligned(b.guestEnd) && b.guestStart <= b.guestEnd && Aligned(address)
    ensures Reached(b, address, address, 8) <==> StartsBehind(b, address)
  {
    var second := Plus(address, 4);
    TouchesTwo(address, second);
    forall a: Word | Touches(address, 8, a) ensures a == address || a == second {
      TouchesTwo(address, a);
    }
    NextWord(address);
    if !Covers(b, address) {
      CoversNext(b, address, second);
    }
  }

  lemma NextWord(address: Word)
    requires Aligned(address)
    ensures Plus(address, 4) == if address == 0xFFFF_FFFC then 0 else address + 4
  {
  }

  lemma CoversNext(b: Block, address: Word, second: Word)
    requires Aligned(b.guestStart) && Aligned(b.guestEnd) && b.guestStart <= b.guestEnd && Aligned(address)
    requires second == if address == 0xFFFF_FFFC then 0 else address + 4
    requires !Covers(b, address)
    ensures Covers(b, second) <==> b.guestStart == second
  {
  }

  /** The first instruction of a block stays one that is copied to the same words; if it
      is the last one as well, that stays. */
  ghost predicate FirstStays(d: Decoder, mem: Memory, mem': Memory, b: Block, i: nat)
    requires i < STORE
  {
    if b.guestStart == b.guestEnd then LastStays(d, mem, mem', b.guestEnd, i)
    else !d.code(mem'(b.guestStart)).Replace? && Emit(d, mem', b.guestStart) == Emit(d, mem, b.guestStart)
  }

  lemma FirstDecides(d: Decoder, mem: Memory, mem': Memory, b: Block, i: nat)
    requires Scans(d, mem, b.guestStart, b.guestEnd) && i < STORE
    requires forall a: Word | b.guestStart < a <= b.guestEnd && Aligned(a) :: mem(a) == mem'(a)
    ensures SameScan(d, mem, mem', b, i) <==> FirstStays(d, mem, mem', b, i)
  {
    if b.guestStart == b.guestEnd {
      LastDecides(d, mem, mem', b, i);
    } else {
      HeadDecides(d, mem, mem', b.guestStart, b.guestEnd, i);
    }
  }

  lemma HeadDecides(d: Decoder, mem: Memory, mem': Memory, start: Word, end: Word, i: nat)
    requires Aligned(start) && Aligned(end) && start < end && i < STORE
    requires forall a: Word | start < a <= end && Aligned(a) :: mem(a) == mem'(a)
    ensures mem'(end) == mem(end)
    ensures Planted(d, mem', start, end, i) == Planted(d, mem, start, end, i) <==>
      Emit(d, mem', start) == Emit(d, mem, start)
  {
    SameBody(d, mem, mem', start + 4, end);
    assert Planted(d, mem', start + 4, end, i) == Planted(d, mem, start + 4, end, i);
    PlantedSplit(d, mem, start, end, i);
    PlantedSplit(d, mem', start, end, i);
    SameHead(Emit(d, mem, start), Emit(d, mem', start), Planted(d, mem, start + 4, end, i));
  }

  lemma PlantedSplit(d: Decoder, mem: Memory, start: Word, end: Word, i: nat)
    requires Aligned(start) && Aligned(end) && start < end && i < STORE
    ensures Planted(d, mem, start, end, i) == Emit(d, mem, start) + Planted(d, mem, start + 4, end, i)
  {
    Regroup(Emit(d, mem, start), Body(d, mem, start + 4, end), LinkPart(mem, end), HypercallPart(mem, end, i));
  }

  lemma Regroup(x: seq<Word>, a: seq<Word>, b: seq<Word>, c: seq<Word>)
    ensures (x + a) + b + c == x + (a + b + c)
  {
  }

  /** The first instruction of every block behind the first word stays. */
  ghost predicate BehindStay(d: Decoder, s: Cache, address: Word, mem: Memory) {
    forall i: nat | Valid(s, i) && StartsBehind(s.blocks[i], address) ::
      i < STORE && FirstStays(d, s.mem, mem, s.blocks[i], i)
  }

  /** An aligned STRD clears the translations for its first word only. */
  lemma DoubleStoreKeepsInv(d: Decoder, s: Cache, address: Word, bytes: seq<Byte>)
    requires Inv(d, s) && Aligned(address) && |bytes| == 8
    ensures AllFit(s)
    ensures Inv(d, GuestWrite(s, address, address, bytes)) <==>
      BehindStay(d, s, address, Stored(s.mem, address, bytes))
  {
    GuestWriteKeepsInv(d, s, address, address, bytes);
    var mem := Stored(s.mem, address, bytes);
    forall i: nat | Valid(s, i)
      ensures i < STORE && (Reached(s.blocks[i], address, address, 8) <==> StartsBehind(s.blocks[i], address))
      ensures StartsBehind(s.blocks[i], address) ==>
        (SameScan(d, s.mem, mem, s.blocks[i], i) <==> FirstStays(d, s.mem, mem, s.blocks[i], i))
    {
      var b := s.blocks[i];
      assert BlockOk(d, s, i);
      ReachedIsBehind(b, address);
      if StartsBehind(b, address) {
        forall a: Word | b.guestStart < a <= b.guestEnd && Aligned(a) ensures s.mem(a) == mem(a) {
          assert Covers(b, a);
          TouchesTwo(address, a);
          UntouchedStays(s.mem, address, bytes, a);
        }
        FirstDecides(d, s.mem, mem, b, i);
      }
    }
  }

  // ----- Two stores that are missed -----

  /** A cache that has scanned one instruction, which has to be replaced. */
  lemma OneBlock(d: Decoder, s: Cache, start: Word)
    requires Initial(s) && Scans(d, s.mem, start, start)
    ensures Scannable(d, s, start, start, Home(start))
    ensures var r := Scan(d, s, start, start, Home(start));
      && Inv(d, r) && AllFit(r) && Valid(r, Home(start)) && r.mem == s.mem
      && r.blocks[Home(start)].guestStart == r.blocks[Home(start)].guestEnd == start
  {
    var i := Home(start);
    InitialInv(d, s);
    OnePageMarksWell(s.bitmap, start, start);
    assert |Planted(d, s.mem, start, start, i)| <= 5;
    ScanKeepsInv(d, s, start, start, i);
    StructureFits(d, Scan(d, s, start, start, i));
  }

  /** A store behind the start of that instruction that makes it one to copy: the block
      is still there, and wrong. */
  lemma MissedStore(d: Decoder, s: Cache, start: Word, address: Word, bytes: seq<Byte>)
    requires Initial(s) && Scans(d, s.mem, start, start)
    requires WithinWord(address, |bytes|) && WordAddress(address) == start < address
    requires !d.code(Stored(s.mem, address, bytes)(start)).Replace?
    ensures Scannable(d, s, start, start, Home(start))
    ensures var r := Scan(d, s, start, start, Home(start));
      && Inv(d, r) && AllFit(r) && Valid(GuestWrite(r, address, address, bytes), Home(start))
      && !Inv(d, GuestWrite(r, address, address, bytes))
  {
    OneBlock(d, s, start);
    var i, r := Home(start), Scan(d, s, start, start, Home(start));
    ClearAddressKeepsInv(d, r, address);
    assert Valid(r, i) && Misses(r.blocks[i], address);
    WordStoreKeepsInv(d, r, address, bytes);
  }

  /** The same with a doubleword stored four bytes below that instruction. */
  lemma MissedDouble(d: Decoder, s: Cache, start: Word, address: Word, bytes: seq<Byte>)
    requires Initial(s) && Scans(d, s.mem, start, start) && start == address + 4 && |bytes| == 8
    requires !d.code(Stored(s.mem, address, bytes)(start)).Replace?
    ensures Scannable(d, s, start, start, Home(start))
    ensures var r := Scan(d, s, start, start, Home(start));
      && Inv(d, r) && AllFit(r) && Valid(GuestWrite(r, address, address, bytes), Home(start))
      && !Inv(d, GuestWrite(r, address, address, bytes))
  {
    OneBlock(d, s, start);
    var i, r := Home(start), Scan(d, s, start, start, Home(start));
    ClearAddressKeepsInv(d, r, address);
    AlignedBefore(start, address);
    assert Valid(r, i) && StartsBehind(r.blocks[i], address);
    DoubleStoreKeepsInv(d, r, address, bytes);
  }

  lemma AlignedBefore(start: Word, address: Word)
    requires Aligned(start) && start == address + 4
    ensures Aligned(address) && Plus(address, 4) == start
  {
  }

  // ----- STM -----

  /** Every word is stored on its own, and its address cleared before. */
  function StoreMultiple(s: Cache, address: Word, values: seq<Word>): Cache
    requires AllFit(s)
    decreases |values|
  {
    if values == [] then s
    else StoreMultiple(GuestWrite(s, address, address, WordBytes(values[0])), Plus(address, 4), values[1..])
  }

  lemma MultipleStep(s: Cache, address: Word, values: seq<Word>, i: nat)
    requires AllFit(s) && i < |values|
    ensures StoreMultiple(s, address, values[i..]) ==
      StoreMultiple(GuestWrite(s, address, address, WordBytes(values[i])), Plus(address, 4), values[i + 1..])
  {
    assert values[i..][0] == values[i] && values[i..][1..] == values[i + 1..];
  }

  /** So it keeps the agreement from an aligned address on. */
  lemma {:induction false} MultipleKeepsInv(d: Decoder, s: Cache, address: Word, values: seq<Word>)
    requires Inv(d, s) && Aligned(address)
    ensures AllFit(s) && Inv(d, StoreMultiple(s, address, values))
    decreases |values|
  {
    StructureFits(d, s);
    if values != [] {
      AlignedStoreKeepsInv(d, s, address, WordBytes(values[0]));
      NextAligned(address);
      MultipleKeepsInv(d, GuestWrite(s, address, address, WordBytes(values[0])), Plus(address, 4), values[1..]);
    }
  }
}
