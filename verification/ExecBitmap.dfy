// The bitmap of guest pages that hold scanned code: setExecBitmap and isExecBitSet
// of src/guestManager/basicBlockStore.c.
module ExecBitmap {
  import opened MachineWords

  /** SIZE_BITMAP1: one bit for each page of 4 KB. */
  const BITMAP_SIZE := 4096 * 256 / 8

  type Bitmap = b: seq<bv8> | |b| == BITMAP_SIZE witness seq(BITMAP_SIZE, _ => 0)

  function Page(address: Word): nat {
    address / 4096
  }

  predicate Bit(byte: bv8, k: nat)
    requires k < 8
  {
    (byte >> k) & 1 == 1
  }

  function WithBit(byte: bv8, k: nat): bv8
    requires k < 8
  {
    byte | (1 << k)
  }

  predicate PageBit(bitmap: Bitmap, page: nat)
    requires page < 8 * BITMAP_SIZE
  {
    Bit(bitmap[page / 8], page % 8)
  }

  lemma WithBitSets(byte: bv8, k: nat, j: nat)
    requires k < 8 && j < 8
    ensures Bit(WithBit(byte, k), j) <==> j == k || Bit(byte, j)
  {
    if k < 4 {
      if k < 2 {
        assert k == 0 || k == 1;
      } else {
        assert k == 2 || k == 3;
      }
    } else {
      assert k == 4 || k == 5 || k == 6 || k == 7;
    }
  }

  function Mark(bitmap: Bitmap, page: nat): Bitmap
    requires page < 8 * BITMAP_SIZE
  {
    if PageBit(bitmap, page) then bitmap else bitmap[page / 8 := WithBit(bitmap[page / 8], page % 8)]
  }

  /** Marking a page marks that page and no other. */
  lemma MarkSets(bitmap: Bitmap, page: nat, other: nat)
    requires page < 8 * BITMAP_SIZE && other < 8 * BITMAP_SIZE
    ensures PageBit(Mark(bitmap, page), other) <==> other == page || PageBit(bitmap, other)
  {
  }

  /** setExecBitmap.  The byte for the last page of a block that spans two pages is
      read at the index of the bit and written at the index of the byte. */
  function SetExec(bitmap: Bitmap, start: Word, end: Word): Bitmap {
    var b := Mark(bitmap, Page(start));
    if Page(start) == Page(end) then b
    else
      var k := Page(end) % 8;
      if Bit(b[k], k) then b else b[Page(end) / 8 := WithBit(b[k], k)]
  }

  /** A block inside one page marks exactly its page. */
  lemma SetExecOnePage(bitmap: Bitmap, start: Word, end: Word, page: nat)
    requires Page(start) == Page(end) && page < 8 * BITMAP_SIZE
    ensures PageBit(SetExec(bitmap, start, end), page) <==> page == Page(start) || PageBit(bitmap, page)
  {
  }

  /** A block that spans two pages.  If the page at nine times the bit index of the last
      page is marked already, nothing happens for the last page; otherwise its byte
      becomes a copy of another one, and its pages get the marks of other pages. */
  lemma SetExecTwoPages(bitmap: Bitmap, start: Word, end: Word, page: nat)
    requires Page(start) != Page(end) && page < 8 * BITMAP_SIZE
    ensures var b, k := Mark(bitmap, Page(start)), Page(end) % 8;
      PageBit(SetExec(bitmap, start, end), page) <==>
        if page / 8 != Page(end) / 8 || PageBit(b, 9 * k) then PageBit(b, page)
        else page == Page(end) || PageBit(b, 8 * k + page % 8)
  {
    var b, k := Mark(bitmap, Page(start)), Page(end) % 8;
    SameBit(b, k);
    if page / 8 == Page(end) / 8 && !PageBit(b, 9 * k) {
      WithBitSets(b[k], k, page % 8);
      assert (8 * k + page % 8) / 8 == k && (8 * k + page % 8) % 8 == page % 8;
      assert page == Page(end) <==> page % 8 == k;
    }
  }

  lemma SameBit(b: Bitmap, k: nat)
    requires k < 8
    ensures 9 * k / 8 == k && 9 * k % 8 == k && (PageBit(b, 9 * k) <==> Bit(b[k], k))
  {
  }

  /** What is meant, the marks of both pages and nothing else, comes out exactly when the
      byte that is read agrees with the one that is written. */
  lemma SetExecMeant(bitmap: Bitmap, start: Word, end: Word)
    requires Page(start) != Page(end)
    ensures var b, k := Mark(bitmap, Page(start)), Page(end) % 8;
      SetExec(bitmap, start, end) == Mark(b, Page(end)) <==>
        if PageBit(b, 9 * k) then PageBit(b, Page(end))
        else WithBit(b[k], k) == WithBit(b[Page(end) / 8], k)
  {
    var b, k := Mark(bitmap, Page(start)), Page(end) % 8;
    SameBit(b, k);
    WithBitKeeps(b[Page(end) / 8], k);
    var i := Page(end) / 8;
    assert b[i := b[i]] == b;
    assert Mark(b, Page(end)) == b[i := WithBit(b[i], k)];
    if PageBit(b, 9 * k) {
      assert b[i] == WithBit(b[i], k) <==> PageBit(b, Page(end));
      assert SetExec(bitmap, start, end)[i] == b[i];
    } else {
      assert SetExec(bitmap, start, end)[i] == WithBit(b[k], k);
      assert Mark(b, Page(end))[i] == WithBit(b[i], k);
    }
  }

  lemma WithBitKeeps(byte: bv8, k: nat)
    requires k < 8
    ensures WithBit(byte, k) == byte <==> Bit(byte, k)
  {
    WithBitSets(byte, k, k);
  }

  /** Every page from that of start to that of end is marked. */
  ghost predicate AllMarked(bitmap: Bitmap, start: Word, end: Word) {
    forall page: nat | Page(start) <= page <= Page(end) :: PageBit(bitmap, page)
  }

  ghost predicate NoneLost(before: Bitmap, after: Bitmap) {
    forall page: nat | page < 8 * BITMAP_SIZE :: PageBit(before, page) ==> PageBit(after, page)
  }

  lemma AllMarkedStays(before: Bitmap, after: Bitmap, start: Word, end: Word)
    requires AllMarked(before, start, end) && NoneLost(before, after)
    ensures AllMarked(after, start, end)
  {
    forall page: nat | Page(start) <= page <= Page(end)
      ensures PageBit(after, page)
    {
      assert PageBit(before, page);
    }
  }

  /** Scanning a block marks its pages, and all other pages keep their marks. */
  ghost predicate MarksWell(bitmap: Bitmap, start: Word, end: Word) {
    NoneLost(bitmap, SetExec(bitmap, start, end)) && AllMarked(SetExec(bitmap, start, end), start, end)
  }

  lemma OnePageMarksWell(bitmap: Bitmap, start: Word, end: Word)
    requires Page(start) == Page(end)
    ensures MarksWell(bitmap, start, end)
  {
    forall page: nat | page < 8 * BITMAP_SIZE
      ensures PageBit(SetExec(bitmap, start, end), page) <==> page == Page(start) || PageBit(bitmap, page)
    {
      SetExecOnePage(bitmap, start, end, page);
    }
  }

  predicate BitKept(a: bv8, b: bv8, j: nat)
    requires j < 8
  {
    Bit(a, j) ==> Bit(b, j)
  }

  /** The marks of the byte a are marks of the byte b. */
  lemma ByteWithin(a: bv8, b: bv8)
    ensures a & b == a <==> forall j: nat | j < 8 :: BitKept(a, b, j)
  {
    assert a & b == a <==> BitKept(a, b, 0) && BitKept(a, b, 1) && BitKept(a, b, 2) && BitKept(a, b, 3)
                           && BitKept(a, b, 4) && BitKept(a, b, 5) && BitKept(a, b, 6) && BitKept(a, b, 7);
  }

  /** Storing a byte loses no mark exactly when the byte has those it replaces. */
  lemma ByteStored(b: Bitmap, i: nat, byte: bv8)
    requires i < BITMAP_SIZE
    ensures NoneLost(b, b[i := byte]) <==> b[i] & byte == b[i]
  {
    ByteWithin(b[i], byte);
    var r: Bitmap := b[i := byte];
    if NoneLost(b, r) {
      forall j: nat | j < 8
        ensures BitKept(b[i], byte, j)
      {
        assert (8 * i + j) / 8 == i && (8 * i + j) % 8 == j;
        assert PageBit(b, 8 * i + j) ==> PageBit(r, 8 * i + j);
      }
    }
    if b[i] & byte == b[i] {
      forall page: nat | page < 8 * BITMAP_SIZE
        ensures PageBit(b, page) ==> PageBit(r, page)
      {
        assert BitKept(b[i], byte, page % 8);
      }
    }
  }

  lemma MarkLosesNone(bitmap: Bitmap, page: nat, r: Bitmap)
    requires page < 8 * BITMAP_SIZE
    ensures NoneLost(bitmap, r) && PageBit(r, page) <==> NoneLost(Mark(bitmap, page), r)
  {
    forall other: nat | other < 8 * BITMAP_SIZE
      ensures PageBit(Mark(bitmap, page), other) <==> other == page || PageBit(bitmap, other)
    {
      MarkSets(bitmap, page, other);
    }
    assert PageBit(Mark(bitmap, page), page);
  }

  ghost predicate BetweenMarked(bitmap: Bitmap, start: Word, end: Word) {
    forall page: nat | Page(start) < page < Page(end) :: PageBit(bitmap, page)
  }

  lemma SpanMarked(bitmap: Bitmap, start: Word, end: Word)
    requires Page(start) < Page(end)
    ensures var b, r := Mark(bitmap, Page(start)), SetExec(bitmap, start, end);
      MarksWell(bitmap, start, end) <==> NoneLost(b, r) && PageBit(r, Page(end)) && BetweenMarked(r, start, end)
  {
    var r := SetExec(bitmap, start, end);
    MarkLosesNone(bitmap, Page(start), r);
    assert AllMarked(r, start, end) <==> PageBit(r, Page(start)) && PageBit(r, Page(end)) && BetweenMarked(r, start, end);
  }

  /** The pages between the first and the last, which are never marked themselves: they
      have their marks before, or get them with the byte of the last page. */
  ghost predicate BetweenByByte(b: Bitmap, byte: bv8, start: Word, end: Word) {
    forall page: nat | Page(start) < page < Page(end) ::
      if page / 8 == Page(end) / 8 then Bit(byte, page % 8) else PageBit(b, page)
  }

  /** A block over several pages is marked well exactly when all of them are marked
      already, up to the first, or the last page gets a byte that has all the marks of the
      one it replaces, and those of the pages between that are not marked elsewhere. */
  lemma SpanMarksWell(bitmap: Bitmap, start: Word, end: Word)
    requires Page(start) < Page(end)
    ensures var b, k, i := Mark(bitmap, Page(start)), Page(end) % 8, Page(end) / 8;
      MarksWell(bitmap, start, end) <==>
        if PageBit(b, 9 * k) then PageBit(b, Page(end)) && BetweenMarked(b, start, end)
        else b[i] & WithBit(b[k], k) == b[i] && BetweenByByte(b, WithBit(b[k], k), start, end)
  {
    var b, k, i := Mark(bitmap, Page(start)), Page(end) % 8, Page(end) / 8;
    SameBit(b, k);
    SpanMarked(bitmap, start, end);
    if !PageBit(b, 9 * k) {
      WithBitSets(b[k], k, k);
      ByteStored(b, i, WithBit(b[k], k));
      BetweenStored(b, WithBit(b[k], k), start, end);
    }
  }

  lemma BetweenStored(b: Bitmap, byte: bv8, start: Word, end: Word)
    ensures BetweenMarked(b[Page(end) / 8 := byte], start, end) <==> BetweenByByte(b, byte, start, end)
  {
    var r: Bitmap := b[Page(end) / 8 := byte];
    forall page: nat | Page(start) < page < Page(end)
      ensures PageBit(r, page) <==> if page / 8 == Page(end) / 8 then Bit(byte, page % 8) else PageBit(b, page)
    {
    }
  }

  /** For two pages: when the last page is marked or gets a byte with all the marks of
      the one it replaces. */
  lemma TwoPagesMarkWell(bitmap: Bitmap, start: Word, end: Word)
    requires Page(end) == Page(start) + 1
    ensures var b, k, i := Mark(bitmap, Page(start)), Page(end) % 8, Page(end) / 8;
      MarksWell(bitmap, start, end) <==>
        if PageBit(b, 9 * k) then PageBit(b, Page(end)) else b[i] & WithBit(b[k], k) == b[i]
  {
    SpanMarksWell(bitmap, start, end);
    assert BetweenMarked(Mark(bitmap, Page(start)), start, end);
    assert forall byte :: BetweenByByte(Mark(bitmap, Page(start)), byte, start, end);
  }

  const NO_PAGES: Bitmap := seq(BITMAP_SIZE, _ => 0)

  /** Scanning a block on pages 4001 and 4002 takes the mark from page 4000, although
      that of the last page is set. */
  lemma MarkIsLost()
    ensures var before := Mark(NO_PAGES, 4000);
      var after := SetExec(before, 4001 * 4096, 4002 * 4096);
      PageBit(before, 4000) && !PageBit(after, 4000) && PageBit(after, 4002)
  {
    var before := Mark(NO_PAGES, 4000);
    NoPageMarked(4000);
    MarkSets(NO_PAGES, 4000, 4000);
    forall page | page == 16 || page == 18 ensures !PageBit(Mark(before, 4001), page) {
      NoPageMarked(page);
      MarkSets(NO_PAGES, 4000, page);
      MarkSets(before, 4001, page);
    }
    SetExecTwoPages(before, 4001 * 4096, 4002 * 4096, 4000);
    SetExecTwoPages(before, 4001 * 4096, 4002 * 4096, 4002);
  }

  lemma NoPageMarked(page: nat)
    requires page < 8 * BITMAP_SIZE
    ensures !PageBit(NO_PAGES, page)
  {
  }

  method SetExecBitmap(execBitmap: array<bv8>, start: Word, end: Word)
    requires execBitmap.Length == BITMAP_SIZE
    modifies execBitmap
    ensures execBitmap[..] == SetExec(old(execBitmap[..]), start, end)
  {
    var startingPage := start / 4096;
    var endingPage := end / 4096;
    SetBit(execBitmap, startingPage, startingPage / 8);
    if startingPage != endingPage {
      SetBit(execBitmap, endingPage, endingPage - endingPage / 8 * 8);
    }
  }

  /** Sets the bit of a page according to the byte read at readIndex. */
  method SetBit(execBitmap: array<bv8>, page: nat, readIndex: nat)
    requires execBitmap.Length == BITMAP_SIZE && page < 8 * BITMAP_SIZE && readIndex < BITMAP_SIZE
    modifies execBitmap
    ensures var b, k := old(execBitmap[..]), page % 8;
      execBitmap[..] == if Bit(b[readIndex], k) then b else b[page / 8 := WithBit(b[readIndex], k)]
  {
    var byteIndex := page / 8;
    var bitIndex := page - byteIndex * 8;
    var actualByte := execBitmap[readIndex];
    var actualBit := (actualByte >> bitIndex) & 1;
    BitIsZeroOrOne(actualByte, bitIndex);
    if actualBit == 0 {
      execBitmap[byteIndex] := actualByte | (1 << bitIndex);
    }
  }

  lemma BitIsZeroOrOne(byte: bv8, k: nat)
    requires k < 8
    ensures (byte >> k) & 1 == 0 <==> !Bit(byte, k)
  {}

  method IsExecBitSet(execBitmap: array<bv8>, address: Word) returns (set_: bool)
    requires execBitmap.Length == BITMAP_SIZE
    ensures set_ == PageBit(execBitmap[..], Page(address))
  {
    var page := address / 4096;
    var byteIndex := page / 8;
    var bitIndex := page - byteIndex * 8;
    var actualByte := execBitmap[byteIndex];
    var actualBit := (actualByte >> bitIndex) & 1;
    BitIsZeroOrOne(actualByte, bitIndex);
    set_ := actualBit != 0;
  }
}
