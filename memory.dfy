/**
 * The flat 64 KiB RAM: a byte array reached only through 4-byte-aligned
 * 32-bit word reads and writes, stored little-endian, with alignment and
 * bounds checked before any byte is touched.
 */
module Mem {
  import opened Util
  import opened Alu

  /** MEM_SIZE: 64 KiB of byte-addressable storage. */
  const MemSize: nat := 65536
  /** MEM_WORD_SIZE: every access moves one 4-byte word. */
  const MemWordSize: nat := 4

  type Byte = x: nat | x < 256

  /** Why a word access was refused. */
  datatype MemError = Unaligned | OutOfBounds

  /**
   * check_access: the alignment test comes first; the bounds test compares
   * addr with MEM_SIZE - 4 rather than computing addr + 4, so it cannot wrap
   * around for addresses near 2^32 - 1.
   */
  function CheckAccess(addr: Word): (r: Option<MemError>)
    ensures r == Some(Unaligned) <==> addr % MemWordSize != 0
    ensures r == None <==> addr % MemWordSize == 0 && addr + MemWordSize <= MemSize
  {
    if addr % MemWordSize != 0 then Some(Unaligned)
    else if addr > MemSize - MemWordSize then Some(OutOfBounds)
    else None
  }

  /** What a bounds test written as `addr + 4 <= MEM_SIZE` in 32-bit arithmetic would accept. */
  predicate WrappingBoundsTest(addr: Word)
  {
    Wrap(addr + MemWordSize) <= MemSize
  }

  /**
   * The wrapping form of the bounds test would let the aligned address
   * 0xFFFFFFFC through; the source's form refuses it.
   */
  lemma WrappingTestWouldAdmitTopAddress()
    ensures WrappingBoundsTest(0xFFFF_FFFC)
    ensures CheckAccess(0xFFFF_FFFC) == Some(OutOfBounds)
  {
    DivModUnique(0xFFFF_FFFC + MemWordSize, WordModulus, 1, 0);
  }

  /** The word whose little-endian bytes sit at addr .. addr + 3. */
  function LoadLE(bytes: seq<Byte>, addr: nat): Word
    requires addr + MemWordSize <= |bytes|
  {
    var b0: nat, b1: nat, b2: nat, b3: nat := bytes[addr], bytes[addr + 1], bytes[addr + 2], bytes[addr + 3];
    b0 + b1 * 0x100 + b2 * 0x1_0000 + b3 * 0x100_0000
  }

  /** The weight 1 << 8k of byte k of a little-endian word. */
  function ByteWeight(k: nat): nat
    requires k < MemWordSize
  {
    if k == 0 then 1 else if k == 1 then 0x100 else if k == 2 then 0x1_0000 else 0x100_0000
  }

  /** Byte k (0 = least significant) of a word: (v >> 8k) & 0xFF. */
  function ByteOf(v: Word, k: nat): Byte
    requires k < MemWordSize
  {
    (v / ByteWeight(k)) % 0x100
  }

  /** The byte array after storing v little-endian at addr .. addr + 3. */
  function StoreLE(bytes: seq<Byte>, addr: nat, v: Word): (r: seq<Byte>)
    requires addr + MemWordSize <= |bytes|
    ensures |r| == |bytes|
    ensures forall k :: 0 <= k < |bytes| && !(addr <= k < addr + MemWordSize) ==> r[k] == bytes[k]
    ensures forall k :: 0 <= k < MemWordSize ==> r[addr + k] == ByteOf(v, k)
  {
    bytes[addr := ByteOf(v, 0)][addr + 1 := ByteOf(v, 1)][addr + 2 := ByteOf(v, 2)][addr + 3 := ByteOf(v, 3)]
  }

  /** A freshly initialised memory: every byte 0. */
  function ZeroMemory(): (m: seq<Byte>)
    ensures |m| == MemSize
    ensures forall k :: 0 <= k < MemSize ==> m[k] == 0
  {
    seq(MemSize, _ => 0)
  }

  lemma MulDistrib256(q: int, r: int, a: int)
    ensures (q * 0x100 + r) * a == q * (a * 0x100) + r * a
  {
  }

  lemma MulBelow256(r: nat, a: nat)
    requires r < 0x100
    ensures r * a + a <= a * 0x100
  {
    assert (0x100 - r) * a >= a by {
      MulAtLeast(0x100 - r, a + 1);
    }
  }

  /** Dividing by a and then by 256 is dividing by 256a. */
  lemma DivDiv256(x: nat, a: nat)
    requires a > 0
    ensures x / a / 0x100 == x / (a * 0x100)
  {
    var q1, r1 := x / a, x % a;
    var q2, r2 := q1 / 0x100, q1 % 0x100;
    assert x == q1 * a + r1;
    assert q1 == q2 * 0x100 + r2;
    MulDistrib256(q2, r2, a);
    MulBelow256(r2, a);
    DivModUnique(x, a * 0x100, q2, r2 * a + r1);
  }

  /** A word is the sum of its four bytes at weights 1, 2^8, 2^16, 2^24. */
  lemma BytesRecompose(v: Word)
    ensures ByteOf(v, 0) + ByteOf(v, 1) * 0x100 + ByteOf(v, 2) * 0x1_0000 + ByteOf(v, 3) * 0x100_0000 == v
  {
    var q1 := v / 0x100;
    var q2 := q1 / 0x100;
    var q3 := q2 / 0x100;
    DivDiv256(v, 0x100);
    DivDiv256(v, 0x1_0000);
    assert v / 0x1_0000 == q2;
    assert v / 0x100_0000 == q3;
    assert v == q1 * 0x100 + v % 0x100;
    assert q1 == q2 * 0x100 + q1 % 0x100;
    assert q2 == q3 * 0x100 + q2 % 0x100;
    assert q3 < 0x100;
    DivModUnique(q3, 0x100, 0, q3);
  }

  /** Round trip: storing v at addr and loading from addr gives v back. */
  lemma LoadAfterStore(bytes: seq<Byte>, addr: nat, v: Word)
    requires addr + MemWordSize <= |bytes|
    ensures LoadLE(StoreLE(bytes, addr, v), addr) == v
  {
    BytesRecompose(v);
  }

  /** A store leaves every word that does not overlap it unchanged. */
  lemma LoadAfterStoreElsewhere(bytes: seq<Byte>, addr: nat, v: Word, other: nat)
    requires addr + MemWordSize <= |bytes| && other + MemWordSize <= |bytes|
    requires other + MemWordSize <= addr || addr + MemWordSize <= other
    ensures LoadLE(StoreLE(bytes, addr, v), other) == LoadLE(bytes, other)
  {
  }

  /** The RAM itself: the byte array embedded in the Memory struct. */
  class Memory {
    const data: array<Byte>

    ghost predicate Valid()
    {
      data.Length == MemSize
    }

    /** Storage for a Memory; its bytes are undefined until Init runs. */
    constructor ()
      ensures Valid() && fresh(data)
    {
      data := new Byte[MemSize];
    }

    /** mem_init: zero-fills the whole 64 KiB. */
    method Init()
      requires Valid()
      modifies data
      ensures data[..] == ZeroMemory()
    {
      var i := 0;
      while i < data.Length
        invariant 0 <= i <= data.Length
        invariant forall k :: 0 <= k < i ==> data[k] == 0
      {
        data[i] := 0;
        i := i + 1;
      }
    }

    /**
     * mem_read_word: refuses a misaligned or out-of-range address, otherwise
     * assembles the four bytes at addr little-endian. Reading changes nothing.
     */
    function ReadWord(addr: Word): (r: Result<Word, MemError>)
      requires Valid()
      reads data
      ensures r.Success? <==> CheckAccess(addr) == None
      ensures r.Failure? ==> Some(r.error) == CheckAccess(addr)
      ensures r.Success? ==> r.value == LoadLE(data[..], addr)
    {
      match CheckAccess(addr)
      case Some(e) => Failure(e)
      case None =>
        var b0: nat, b1: nat, b2: nat, b3: nat := data[addr], data[addr + 1], data[addr + 2], data[addr + 3];
        // the four shifted bytes occupy disjoint bit ranges, so OR-ing them adds them
        Success(b0 + b1 * 0x100 + b2 * 0x1_0000 + b3 * 0x100_0000)
    }

    /**
     * mem_write_word: refuses a misaligned or out-of-range address without
     * touching memory, otherwise stores the four little-endian bytes of value
     * at addr .. addr + 3 and nothing else.
     */
    method WriteWord(addr: Word, value: Word) returns (r: Option<MemError>)
      requires Valid()
      modifies data
      ensures r == CheckAccess(addr)
      ensures r == None ==> data[..] == StoreLE(old(data[..]), addr, value)
      ensures r != None ==> data[..] == old(data[..])
    {
      r := CheckAccess(addr);
      if r != None {
        return;
      }
      data[addr] := value % 0x100;
      data[addr + 1] := (value / 0x100) % 0x100;
      data[addr + 2] := (value / 0x1_0000) % 0x100;
      data[addr + 3] := (value / 0x100_0000) % 0x100;
    }
  }
}
