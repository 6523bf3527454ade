/**
 * Register access primitives of the kernel's common header: 64-bit reads and
 * writes at a raw address, and a read-modify-write of one byte inside a
 * 64-bit register.
 *
 * Memory is a total map from 64-bit addresses to 64-bit words, held by a
 * RegisterFile object; the two write primitives update it in place and the
 * read primitive is a lookup. The mask arithmetic of the byte write is the
 * function MergeByte, characterised byte by byte by the lemma MergeByteAt.
 */
module Registers {

  /** A 64-bit address (uint64_t). */
  newtype Addr = x: int | 0 <= x < 0x1_0000_0000_0000_0000

  /** Size of a double word in bytes (sizeof(uint64_t)). */
  const DOUBLE_WORD_SIZE: bv64 := 8

  /**
   * Byte number `k` (0 = least significant) of the word `v`, as a 64-bit
   * value. It is written as one constant shift per byte rather than the
   * closed form (v >> (8 * k)) & 0xFF: a shift by a variable amount makes the
   * byte-level lemmas below too costly for the solver.
   */
  function ByteOf(v: bv64, k: bv64): (b: bv64)
    requires k < DOUBLE_WORD_SIZE
    ensures b < 256
  {
    if k == 0 then v & 0xFF
    else if k == 1 then (v >> 8) & 0xFF
    else if k == 2 then (v >> 16) & 0xFF
    else if k == 3 then (v >> 24) & 0xFF
    else if k == 4 then (v >> 32) & 0xFF
    else if k == 5 then (v >> 40) & 0xFF
    else if k == 6 then (v >> 48) & 0xFF
    else (v >> 56) & 0xFF
  }

  /** Two words with the same eight bytes are the same word. */
  lemma BytesDetermineWord(u: bv64, v: bv64)
    requires forall k: bv64 :: k < DOUBLE_WORD_SIZE ==> ByteOf(u, k) == ByteOf(v, k)
    ensures u == v
  {
    assert ByteOf(u, 0) == ByteOf(v, 0) && ByteOf(u, 1) == ByteOf(v, 1);
    assert ByteOf(u, 2) == ByteOf(v, 2) && ByteOf(u, 3) == ByteOf(v, 3);
    assert ByteOf(u, 4) == ByteOf(v, 4) && ByteOf(u, 5) == ByteOf(v, 5);
    assert ByteOf(u, 6) == ByteOf(v, 6) && ByteOf(u, 7) == ByteOf(v, 7);
  }

  /**
   * The mask reg_write_byte ANDs into the register: 0xFFFFFFFFFFFFFF00
   * shifted left by 8 * offset bits. It keeps the bytes strictly above
   * `offset` and clears byte `offset` and every byte below it.
   */
  function WriteByteMask(offset: bv64): bv64
    requires offset < DOUBLE_WORD_SIZE
  {
    0xFFFF_FFFF_FFFF_FF00 << (8 * offset)
  }

  /**
   * The word reg_write_byte stores: the old word ANDed with the mask, then
   * ORed with `data` shifted to byte `offset`. `data` is the full 64-bit
   * argument; it is not truncated to 8 bits.
   */
  function MergeByte(word: bv64, offset: bv64, data: bv64): (r: bv64)
    requires offset < DOUBLE_WORD_SIZE
    // after a write at offset 0 the lowest byte is the low byte of `data`; after any other write it is 0
    ensures r & 0xFF == (if offset == 0 then data & 0xFF else 0)
    // byte `offset` and every bit below it come from `data` alone
    ensures r & !WriteByteMask(offset) == (data << (8 * offset)) & !WriteByteMask(offset)
  {
    (word & WriteByteMask(offset)) | (data << (8 * offset))
  }

  /**
   * Byte `k` of the stored word, for every `k`: bytes below `offset` are 0,
   * byte `offset` is the low byte of `data`, and each byte above `offset` is
   * the old byte ORed with the byte of `data` that the shift carried there.
   */
  lemma MergeByteAt(word: bv64, offset: bv64, data: bv64, k: bv64)
    requires offset < DOUBLE_WORD_SIZE && k < DOUBLE_WORD_SIZE
    ensures ByteOf(MergeByte(word, offset, data), k) ==
              if k < offset then 0
              else if k == offset then ByteOf(data, 0)
              else ByteOf(word, k) | ByteOf(data, k - offset)
  {
    if offset == 0 {} else if offset == 1 {} else if offset == 2 {} else if offset == 3 {}
    else if offset == 4 {} else if offset == 5 {} else if offset == 6 {} else {}
  }

  /** With 8-bit data, byte `offset` of the stored word is `data`. */
  lemma MergeByteWritesData(word: bv64, offset: bv64, data: bv64)
    requires offset < DOUBLE_WORD_SIZE && data < 256
    ensures ByteOf(MergeByte(word, offset, data), offset) == data
  {
    MergeByteAt(word, offset, data, offset);
  }

  /** With 8-bit data, every byte strictly above `offset` keeps its old value. */
  lemma MergeByteKeepsHigherBytes(word: bv64, offset: bv64, data: bv64, k: bv64)
    requires offset < k < DOUBLE_WORD_SIZE && data < 256
    ensures ByteOf(MergeByte(word, offset, data), k) == ByteOf(word, k)
  {
    MergeByteAt(word, offset, data, k);
    assert ByteOf(data, k - offset) == 0;
  }

  /** Every byte strictly below `offset` becomes 0, whatever it held and whatever `data` is. */
  lemma MergeByteClearsLowerBytes(word: bv64, offset: bv64, data: bv64, k: bv64)
    requires k < offset < DOUBLE_WORD_SIZE
    ensures ByteOf(MergeByte(word, offset, data), k) == 0
  {
    MergeByteAt(word, offset, data, k);
  }

  /**
   * An example of data wider than 8 bits: 0x1AB written at offset 0 is not
   * truncated, and its second byte lands in byte 1 of the register. The
   * general case is MergeByteAt's clause for bytes above `offset`.
   */
  lemma MergeByteWideDataLeaks()
    ensures MergeByte(0, 0, 0x1AB) == 0x1AB
    ensures ByteOf(MergeByte(0, 0, 0x1AB), 1) == 0x01
  {
  }

  /** Writing the same byte twice leaves the same word as writing it once. */
  lemma MergeByteIdempotent(word: bv64, offset: bv64, data: bv64)
    requires offset < DOUBLE_WORD_SIZE
    ensures MergeByte(MergeByte(word, offset, data), offset, data) == MergeByte(word, offset, data)
  {
    if offset == 0 {} else if offset == 1 {} else if offset == 2 {} else if offset == 3 {}
    else if offset == 4 {} else if offset == 5 {} else if offset == 6 {} else {}
  }

  /**
   * The write of 0xAB at offset 2 into 0x1122334455667788 stores
   * 0x1122334455AB0000: bytes 0 and 1 are lost.
   */
  lemma MergeByteLosesLowerBytes()
    ensures MergeByte(0x1122_3344_5566_7788, 2, 0xAB) == 0x1122_3344_55AB_0000
    ensures MergeByte(0x1122_3344_5566_7788, 2, 0xAB) != 0x1122_3344_55AB_7788
  {
  }

  /** The mask the documented byte write needs: every bit set except the 8 bits of byte `offset`. */
  function ByteClearMask(offset: bv64): bv64
    requires offset < DOUBLE_WORD_SIZE
  {
    !(0xFF << (8 * offset))
  }

  /**
   * The byte write the header documents: clear exactly the 8 bits at
   * position 8 * offset and set them to the low byte of `data`.
   */
  function ReplaceByte(word: bv64, offset: bv64, data: bv64): bv64
    requires offset < DOUBLE_WORD_SIZE
  {
    (word & ByteClearMask(offset)) | ((data & 0xFF) << (8 * offset))
  }

  /** ReplaceByte changes byte `offset` to the low byte of `data` and keeps every other byte. */
  lemma ReplaceByteAt(word: bv64, offset: bv64, data: bv64, k: bv64)
    requires offset < DOUBLE_WORD_SIZE && k < DOUBLE_WORD_SIZE
    ensures ByteOf(ReplaceByte(word, offset, data), k) ==
              if k == offset then ByteOf(data, 0) else ByteOf(word, k)
  {
    // Fixing `offset` makes every shift constant; the solver then needs only
    // to know whether `k` is the written byte.
    if offset == 0 { if k == offset {} else {} }
    else if offset == 1 { if k == offset {} else {} }
    else if offset == 2 { if k == offset {} else {} }
    else if offset == 3 { if k == offset {} else {} }
    else if offset == 4 { if k == offset {} else {} }
    else if offset == 5 { if k == offset {} else {} }
    else if offset == 6 { if k == offset {} else {} }
    else { if k == offset {} else {} }
  }

  /** On the worked example, ReplaceByte keeps bytes 0 and 1. */
  lemma ReplaceByteKeepsLowerBytes()
    ensures ReplaceByte(0x1122_3344_5566_7788, 2, 0xAB) == 0x1122_3344_55AB_7788
  {
  }

  /** At offset 0 the as-written merge of 8-bit data is the documented byte replace. */
  lemma MergeByteAtZeroIsReplace(word: bv64, data: bv64)
    requires data < 256
    ensures MergeByte(word, 0, data) == ReplaceByte(word, 0, data)
  {
    forall k: bv64 | k < DOUBLE_WORD_SIZE
      ensures ByteOf(MergeByte(word, 0, data), k) == ByteOf(ReplaceByte(word, 0, data), k)
    {
      MergeByteAt(word, 0, data, k);
      ReplaceByteAt(word, 0, data, k);
      if k != 0 {
        assert ByteOf(data, k) == 0;
      }
    }
    BytesDetermineWord(MergeByte(word, 0, data), ReplaceByte(word, 0, data));
  }

  /**
   * For 8-bit data the as-written merge agrees with the documented byte
   * replace on every word exactly when the offset is 0.
   */
  lemma MergeByteIsReplaceIffOffsetZero(offset: bv64, data: bv64)
    requires offset < DOUBLE_WORD_SIZE && data < 256
    ensures (forall w: bv64 :: MergeByte(w, offset, data) == ReplaceByte(w, offset, data)) <==> offset == 0
  {
    if offset == 0 {
      forall w: bv64 ensures MergeByte(w, offset, data) == ReplaceByte(w, offset, data) {
        MergeByteAtZeroIsReplace(w, data);
      }
    } else {
      var w: bv64 := 0xFFFF_FFFF_FFFF_FFFF;
      MergeByteClearsLowerBytes(w, offset, data, 0);
      ReplaceByteAt(w, offset, data, 0);
      assert ByteOf(MergeByte(w, offset, data), 0) != ByteOf(ReplaceByte(w, offset, data), 0);
    }
  }

  /**
   * `8 * offset` is computed modulo 2^64, so an offset whose product wraps
   * below 64 shifts exactly as its low three bits do.
   */
  lemma ShiftAmountWraps(offset: bv64)
    requires 8 * offset < 64
    ensures 8 * offset == 8 * (offset & 7)
  {
  }

  /** Offsets of 8 or more whose shift amount wraps below 64: 2^61 + 1 shifts by 8, like offset 1. */
  lemma WrappedOffsetExample()
    ensures 8 * (0x2000_0000_0000_0001 as bv64) == 8
    ensures 8 * (0xE000_0000_0000_0007 as bv64) == 56
  {
  }

  /** The registers seen through reg_read_double_word, reg_write_double_word and reg_write_byte. */
  class RegisterFile {
    /** The word held at every address. */
    var mem: imap<Addr, bv64>

    /** Every address holds a word. */
    ghost predicate Valid()
      reads this
    {
      forall a: Addr :: a in mem
    }

    constructor (init: imap<Addr, bv64>)
      requires forall a: Addr :: a in init
      ensures Valid() && mem == init
    {
      mem := init;
    }

    /** reg_read_double_word: the word at `addr`. */
    function ReadDoubleWord(addr: Addr): bv64
      reads this
      requires Valid()
    {
      mem[addr]
    }

    /** reg_write_double_word: store `data` at `addr`; no other address changes. */
    method WriteDoubleWord(addr: Addr, data: bv64)
      requires Valid()
      modifies this
      ensures Valid() && mem == old(mem)[addr := data]
      ensures ReadDoubleWord(addr) == data
      ensures forall a: Addr :: a != addr ==> ReadDoubleWord(a) == old(ReadDoubleWord(a))
    {
      mem := mem[addr := data];
    }

    /**
     * reg_write_byte: read the word at `addr`, AND it with the mask, OR in
     * `data` shifted to byte `offset`, and write it back. Only `addr` changes.
     * The shift amount `8 * offset` is a 64-bit product and must be below 64;
     * the write then acts on byte `offset & 7`.
     */
    method WriteByte(addr: Addr, offset: bv64, data: bv64)
      requires Valid() && 8 * offset < 64
      modifies this
      ensures Valid() && mem == old(mem)[addr := MergeByte(old(mem[addr]), offset & 7, data)]
      ensures ReadDoubleWord(addr) == MergeByte(old(ReadDoubleWord(addr)), offset & 7, data)
      ensures forall a: Addr :: a != addr ==> ReadDoubleWord(a) == old(ReadDoubleWord(a))
    {
      ShiftAmountWraps(offset);
      var val := ReadDoubleWord(addr);
      val := val & (0xFFFF_FFFF_FFFF_FF00 << (8 * offset));
      val := val | (data << (8 * offset));
      WriteDoubleWord(addr, val);
    }
  }
}
