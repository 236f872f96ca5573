// Guest memory as the emulated stores change it, byte by byte and with the bytes of a
// word in little-endian order: vmStore of src/vm/omap35xx/hardwareLibrary.c and
// storeSdram of src/vm/omap35xx/sdram.c.
module GuestMemory {
  import opened MachineWords
  import opened CodeCache

  type Byte = b: int | 0 <= b < 0x100

  /** The word an address lies in. */
  function WordAddress(address: Word): (a: Word)
    ensures Aligned(a)
  {
    address - address % 4
  }

  /** Addresses wrap around. */
  function Plus(address: Word, k: nat): Word {
    (address + k) % 0x1_0000_0000
  }

  function WordOf(b0: Byte, b1: Byte, b2: Byte, b3: Byte): Word {
    b0 as int + 0x100 * b1 as int + 0x1_0000 * b2 as int + 0x100_0000 * b3 as int
  }

  function ByteAt(w: Word, k: nat): Byte
    requires k < 4
  {
    if k == 0 then w % 0x100
    else if k == 1 then w / 0x100 % 0x100
    else if k == 2 then w / 0x1_0000 % 0x100
    else w / 0x100_0000
  }

  lemma BytesOfWord(b0: Byte, b1: Byte, b2: Byte, b3: Byte, k: nat)
    requires k < 4
    ensures ByteAt(WordOf(b0, b1, b2, b3), k) == if k == 0 then b0 else if k == 1 then b1 else if k == 2 then b2 else b3
  {
    var w := WordOf(b0, b1, b2, b3);
    var high: int := b2 + 0x100 * (b3 as int);
    assert w == b0 as int + 0x100 * (b1 as int) + 0x1_0000 * high;
    assert w / 0x100 == b1 as int + 0x100 * high;
    assert w / 0x1_0000 == high;
  }

  function WithByte(w: Word, k: nat, b: Byte): Word
    requires k < 4
  {
    WordOf(if k == 0 then b else ByteAt(w, 0), if k == 1 then b else ByteAt(w, 1),
           if k == 2 then b else ByteAt(w, 2), if k == 3 then b else ByteAt(w, 3))
  }

  lemma WithByteAt(w: Word, k: nat, b: Byte, j: nat)
    requires k < 4 && j < 4
    ensures ByteAt(WithByte(w, k, b), j) == if j == k then b else ByteAt(w, j)
  {
    BytesOfWord(if k == 0 then b else ByteAt(w, 0), if k == 1 then b else ByteAt(w, 1),
                if k == 2 then b else ByteAt(w, 2), if k == 3 then b else ByteAt(w, 3), j);
  }

  function StoredByte(mem: Memory, address: Word, b: Byte): Memory {
    a => if a == WordAddress(address) then WithByte(mem(a), address % 4, b) else mem(a)
  }

  /** The bytes written one after the other from the address on. */
  function Stored(mem: Memory, address: Word, bytes: seq<Byte>): Memory
    decreases |bytes|
  {
    if bytes == [] then mem else Stored(StoredByte(mem, address, bytes[0]), Plus(address, 1), bytes[1..])
  }

  /** What a store of so many bytes writes to. */
  predicate Touches(address: Word, n: nat, a: Word) {
    exists k: nat | k < n :: WordAddress(Plus(address, k)) == a
  }

  lemma PlusTwice(address: Word, j: nat, k: nat)
    ensures Plus(Plus(address, j), k) == Plus(address, j + k)
  {
  }

  lemma OtherByte(address: Word, k: nat)
    requires 0 < k < 0x1_0000_0000
    ensures Plus(address, k) != address
  {
    if address + k >= 0x1_0000_0000 {
      assert Plus(address, k) == address + k - 0x1_0000_0000;
    }
  }

  lemma {:induction false} UntouchedStays(mem: Memory, address: Word, bytes: seq<Byte>, a: Word)
    requires !Touches(address, |bytes|, a)
    ensures Stored(mem, address, bytes)(a) == mem(a)
    decreases |bytes|
  {
    if bytes != [] {
      assert Plus(address, 0) == address;
      forall k: nat | k < |bytes| - 1 ensures WordAddress(Plus(Plus(address, 1), k)) != a {
        PlusTwice(address, 1, k);
      }
      UntouchedStays(StoredByte(mem, address, bytes[0]), Plus(address, 1), bytes[1..], a);
    }
  }

  function ReadByte(mem: Memory, address: Word): Byte {
    ByteAt(mem(WordAddress(address)), address % 4)
  }

  lemma ByteIsRead(mem: Memory, address: Word, b: Byte, x: Word)
    ensures ReadByte(StoredByte(mem, address, b), x) == if x == address then b else ReadByte(mem, x)
  {
    if WordAddress(x) == WordAddress(address) {
      WithByteAt(mem(WordAddress(x)), address % 4, b, x % 4);
    }
  }

  lemma {:induction false} StoredElsewhere(mem: Memory, address: Word, bytes: seq<Byte>, x: Word)
    requires forall k: nat | k < |bytes| :: Plus(address, k) != x
    ensures ReadByte(Stored(mem, address, bytes), x) == ReadByte(mem, x)
    decreases |bytes|
  {
    if bytes != [] {
      assert Plus(address, 0) == address;
      ByteIsRead(mem, address, bytes[0], x);
      forall k: nat | k < |bytes| - 1 ensures Plus(Plus(address, 1), k) != x {
        PlusTwice(address, 1, k);
      }
      StoredElsewhere(StoredByte(mem, address, bytes[0]), Plus(address, 1), bytes[1..], x);
    }
  }

  lemma FirstIsRead(mem: Memory, address: Word, bytes: seq<Byte>)
    requires 0 < |bytes| <= 0x1_0000_0000
    ensures ReadByte(Stored(mem, address, bytes), address) == bytes[0]
  {
    var next, rest := Plus(address, 1), bytes[1..];
    forall j: nat | j < |rest| ensures Plus(next, j) != address {
      PlusTwice(address, 1, j);
      OtherByte(address, 1 + j);
    }
    StoredElsewhere(StoredByte(mem, address, bytes[0]), next, rest, address);
    ByteIsRead(mem, address, bytes[0], address);
  }

  /** The bytes stored are read back, and all others are as before (StoredElsewhere). */
  lemma {:induction false} StoredIsRead(mem: Memory, address: Word, bytes: seq<Byte>, k: nat)
    requires k < |bytes| <= 0x1_0000_0000
    ensures ReadByte(Stored(mem, address, bytes), Plus(address, k)) == bytes[k]
    decreases |bytes|
  {
    PlusTwice(address, 1, if k == 0 then 0 else k - 1);
    if k == 0 {
      FirstIsRead(mem, address, bytes);
      PlusNothing(address);
    } else {
      StoredIsRead(StoredByte(mem, address, bytes[0]), Plus(address, 1), bytes[1..], k - 1);
    }
  }

  lemma PlusNothing(address: Word)
    ensures Plus(address, 0) == address
  {
  }

  /** The bytes of a word. */
  function WordBytes(w: Word): (bytes: seq<Byte>)
    ensures |bytes| == 4
  {
    [ByteAt(w, 0), ByteAt(w, 1), ByteAt(w, 2), ByteAt(w, 3)]
  }

  lemma WordOfBytes(w: Word)
    ensures WordOf(ByteAt(w, 0), ByteAt(w, 1), ByteAt(w, 2), ByteAt(w, 3)) == w
  {
    var a, b := w / 0x100, w / 0x1_0000;
    assert w == 0x100 * a + w % 0x100 && a == 0x100 * b + a % 0x100;
    assert b == 0x100 * (w / 0x100_0000) + b % 0x100;
  }

  lemma SameBytes(v: Word, w: Word)
    requires forall k: nat | k < 4 :: ByteAt(v, k) == ByteAt(w, k)
    ensures v == w
  {
    WordOfBytes(v);
    WordOfBytes(w);
  }

  /** Bytes stored at the start of a word are its lowest ones. */
  lemma StoredAtWord(mem: Memory, address: Word, bytes: seq<Byte>, k: nat)
    requires Aligned(address) && |bytes| <= 4 && k < 4
    ensures ByteAt(Stored(mem, address, bytes)(address), k) == if k < |bytes| then bytes[k] else ByteAt(mem(address), k)
  {
    var x := Plus(address, k);
    assert x == address + k && WordAddress(x) == address && x % 4 == k;
    if k < |bytes| {
      StoredIsRead(mem, address, bytes, k);
    } else {
      forall j: nat | j < |bytes| ensures Plus(address, j) != x {
        assert Plus(address, j) == address + j;
      }
      StoredElsewhere(mem, address, bytes, x);
    }
  }

  /** The part of w below p comes from the value. */
  function LowReplaced(w: Word, value: Word, p: int): Word
    requires p == 0x100 || p == 0x1_0000
  {
    w / p * p + value % p
  }

  lemma BytesOfHalves(h: int, l: int)
    requires 0 <= h < 0x1_0000 && 0 <= l < 0x1_0000
    ensures var w: Word := 0x1_0000 * h + l;
      ByteAt(w, 0) == l % 0x100 && ByteAt(w, 1) == l / 0x100 && ByteAt(w, 2) == h % 0x100 && ByteAt(w, 3) == h / 0x100
  {
    var w := 0x1_0000 * h + l;
    assert w / 0x1_0000 == h;
    Quotient(w, 0x100 * h + l / 0x100, l % 0x100);
    Quotient(0x100 * h + l / 0x100, h, l / 0x100);
    assert w / 0x100_0000 == h / 0x100;
  }

  lemma Quotient(x: int, q: int, r: int)
    requires x == 0x100 * q + r && 0 <= r < 0x100
    ensures x / 0x100 == q && x % 0x100 == r
  {
  }

  lemma HalfReplaced(w: Word, value: Word, k: nat)
    requires k < 4
    ensures ByteAt(LowReplaced(w, value, 0x1_0000), k) == ByteAt(if k < 2 then value else w, k)
  {
    hide ByteAt;
    BytesOfHalves(w / 0x1_0000, w % 0x1_0000);
    BytesOfHalves(value / 0x1_0000, value % 0x1_0000);
    BytesOfHalves(w / 0x1_0000, value % 0x1_0000);
  }

  lemma ByteReplaced(w: Word, value: Word, k: nat)
    requires k < 4
    ensures ByteAt(LowReplaced(w, value, 0x100), k) == ByteAt(if k < 1 then value else w, k)
  {
    hide ByteAt;
    var l := w % 0x1_0000 / 0x100 * 0x100 + value % 0x100;
    LowByteReplaced(w, value);
    Quotient(l, w % 0x1_0000 / 0x100, value % 0x100);
    Quotient(value % 0x1_0000, value % 0x1_0000 / 0x100, value % 0x100);
    BytesOfHalves(w / 0x1_0000, w % 0x1_0000);
    BytesOfHalves(value / 0x1_0000, value % 0x1_0000);
    BytesOfHalves(w / 0x1_0000, l);
  }

  lemma LowByteReplaced(w: Word, value: Word)
    ensures LowReplaced(w, value, 0x100) == 0x1_0000 * (w / 0x1_0000) + (w % 0x1_0000 / 0x100 * 0x100 + value % 0x100)
    ensures value % 0x1_0000 % 0x100 == value % 0x100
  {
    Quotient(w, 0x100 * (w / 0x1_0000) + w % 0x1_0000 / 0x100, w % 0x1_0000 % 0x100);
    assert value == 0x1_0000 * (value / 0x1_0000) + value % 0x1_0000;
    Quotient(value, 0x100 * (value / 0x1_0000) + value % 0x1_0000 / 0x100, value % 0x1_0000 % 0x100);
  }

  /** A word stored at its address is the word read there; a byte or a halfword stored there
      replaces its low part. */
  lemma LowPartIsStored(mem: Memory, address: Word, value: Word)
    requires Aligned(address)
    ensures Stored(mem, address, WordBytes(value)[..4])(address) == value
    ensures Stored(mem, address, WordBytes(value)[..2])(address) == LowReplaced(mem(address), value, 0x1_0000)
    ensures Stored(mem, address, WordBytes(value)[..1])(address) == LowReplaced(mem(address), value, 0x100)
  {
    hide ByteAt, Stored, WordBytes, LowReplaced;
    forall k: nat | k < 4
      ensures ByteAt(LowReplaced(mem(address), value, 0x1_0000), k) == ByteAt(if k < 2 then value else mem(address), k)
      ensures ByteAt(LowReplaced(mem(address), value, 0x100), k) == ByteAt(if k < 1 then value else mem(address), k)
    {
      HalfReplaced(mem(address), value, k);
      ByteReplaced(mem(address), value, k);
    }
    PartIsStored(mem, address, value, 4, value);
    PartIsStored(mem, address, value, 2, LowReplaced(mem(address), value, 0x1_0000));
    PartIsStored(mem, address, value, 1, LowReplaced(mem(address), value, 0x100));
  }

  lemma PartIsStored(mem: Memory, address: Word, value: Word, n: nat, w: Word)
    requires Aligned(address) && n <= 4
    requires forall k: nat | k < 4 :: ByteAt(w, k) == ByteAt(if k < n then value else mem(address), k)
    ensures Stored(mem, address, WordBytes(value)[..n])(address) == w
  {
    forall k: nat | k < 4 ensures ByteAt(Stored(mem, address, WordBytes(value)[..n])(address), k) == ByteAt(w, k) {
      StoredAtWord(mem, address, WordBytes(value)[..n], k);
    }
    SameBytes(Stored(mem, address, WordBytes(value)[..n])(address), w);
  }

  /** One store after another one is a store of all the bytes. */
  lemma {:induction false} StoredTwice(mem: Memory, address: Word, x: seq<Byte>, y: seq<Byte>)
    ensures Stored(Stored(mem, address, x), Plus(address, |x|), y) == Stored(mem, address, x + y)
    decreases |x|
  {
    if x == [] {
      assert Plus(address, 0) == address && x + y == y;
    } else {
      assert (x + y)[1..] == x[1..] + y;
      PlusTwice(address, 1, |x| - 1);
      StoredTwice(StoredByte(mem, address, x[0]), Plus(address, 1), x[1..], y);
    }
  }

  /** A store that stays inside one word. */
  predicate WithinWord(address: Word, n: nat) {
    0 < n <= 4 - address % 4
  }

  lemma SameWord(address: Word, k: nat)
    requires address % 4 + k < 4
    ensures WordAddress(Plus(address, k)) == WordAddress(address)
  {
    assert Plus(address, k) == address + k;
  }

  lemma TouchesOne(address: Word, n: nat, a: Word)
    requires WithinWord(address, n)
    ensures Touches(address, n, a) <==> a == WordAddress(address)
  {
    assert Plus(address, 0) == address;
    forall k: nat | k < n ensures WordAddress(Plus(address, k)) == WordAddress(address) {
      SameWord(address, k);
    }
  }

  lemma NextAligned(address: Word)
    requires Aligned(address)
    ensures Aligned(Plus(address, 4))
  {
    if address + 4 >= 0x1_0000_0000 {
      assert Plus(address, 4) == 0;
    }
  }

  /** An aligned store of two words. */
  lemma TouchesTwo(address: Word, a: Word)
    requires Aligned(address)
    ensures Touches(address, 8, a) <==> a == address || a == Plus(address, 4)
  {
    var second := Plus(address, 4);
    NextAligned(address);
    assert Plus(address, 0) == address;
    PlusTwice(address, 4, 0);
    forall k: nat | k < 8
      ensures WordAddress(Plus(address, k)) == if k < 4 then address else second
    {
      if k < 4 {
        SameWord(address, k);
      } else {
        PlusTwice(address, 4, k - 4);
        SameWord(second, k - 4);
      }
    }
  }
}
