/**
  The UF2 block: one 512-byte record of a UF2 file, its flags, its
  validating parser and its optional checksum record (src/lib.rs).

  A block is a plain value here, as `Block` is a `Copy` struct in the
  source. Its wire form is spelled out field by field: eight little-endian
  u32 header fields, 476 payload bytes and a trailing u32 magic number.
*/
module Uf2 {
  import opened Bytes
  import opened Wrappers
  import opened Arith

  const MAX_PAYLOAD_SIZE: nat := 476
  const BLOCK_SIZE: nat := 512
  /** Offset of `data` within the serialised block. */
  const DATA_OFFSET: nat := 32
  const CHECKSUM_SIZE: nat := 24

  const MAGIC_START_0: u32 := 0x0A32_4655
  const MAGIC_START_1: u32 := 0x9E5D_5157
  const MAGIC_END: u32 := 0x0AB1_6F30

  /** The fixed-size `data` array of a block. */
  type Payload = s: seq<byte> | |s| == MAX_PAYLOAD_SIZE witness seq(476, _ => 0)

  datatype BlockError = InputBuffer | MagicNumber | PayloadSize

  // ---------------------------------------------------------------- Flags

  /** The named bits of `Flags`. Any other bit may be set too; the flags
      word is kept as a whole u32, so unknown bits travel unchanged. */
  datatype Flag = NotMainFlash | FileContainer | FamilyId | Checksum | ExtensionTags

  function Bit(f: Flag): u32 {
    match f
    case NotMainFlash => 0x0000_0001
    case FileContainer => 0x0000_1000
    case FamilyId => 0x0000_2000
    case Checksum => 0x0000_4000
    case ExtensionTags => 0x0000_8000
  }

  /** `flags.contains(f)`. */
  predicate Contains(flags: u32, f: Flag) {
    flags / Bit(f) % 2 == 1
  }

  /** `flags |= f` for one named flag. */
  function Insert(flags: u32, f: Flag): (r: u32)
    ensures Contains(r, f)
    ensures forall g: Flag :: g != f ==> (Contains(r, g) <==> Contains(flags, g))
    ensures Contains(flags, f) ==> r == flags
    ensures !Contains(flags, f) ==> r == flags + Bit(f)
  {
    if Contains(flags, f) then flags
    else
      InsertFits(flags, f);
      forall g: Flag | g != f ensures (flags + Bit(f)) / Bit(g) % 2 == flags / Bit(g) % 2 {
        InsertKeepsOther(flags, f, g);
      }
      flags + Bit(f)
  }

  /** Setting a clear bit of a u32 stays within 32 bits and sets that bit. */
  lemma InsertFits(flags: u32, f: Flag)
    requires !Contains(flags, f)
    ensures flags + Bit(f) < U32_LIMIT
    ensures (flags + Bit(f)) / Bit(f) % 2 == 1
  {
    var b := Bit(f);
    BitDividesLimit(f);
    var big := EvenMultiple(U32_LIMIT, b);
    var q, rem := flags / b, flags % b;
    DivMod(flags, b);
    NoCarry(b, q, rem, big);
    AddMultiple(flags, b, q, rem, 1, b);
    DivUnique(flags + b, b, q + 1, rem);
  }

  /** Each named bit divides 2^32 an even number of times. */
  lemma BitDividesLimit(f: Flag)
    ensures U32_LIMIT % (2 * Bit(f)) == 0
  {
  }

  /** Named bits are distinct powers of two: the larger is an even multiple of the smaller. */
  lemma BitRatio(f: Flag, g: Flag)
    requires f != g
    ensures Bit(f) < Bit(g) ==> Bit(g) % (2 * Bit(f)) == 0
    ensures Bit(g) < Bit(f) ==> Bit(f) % (2 * Bit(g)) == 0
    ensures Bit(f) != Bit(g)
  {
  }

  /** Setting a clear bit carries into no other bit. */
  lemma InsertKeepsOther(flags: u32, f: Flag, g: Flag)
    requires !Contains(flags, f) && g != f
    ensures (flags + Bit(f)) / Bit(g) % 2 == flags / Bit(g) % 2
  {
    BitRatio(f, g);
    CarryFree(flags, Bit(f), Bit(g));
  }

  // ---------------------------------------------------------------- Block

  datatype Block = Block(
    magicStart0: u32,
    magicStart1: u32,
    flags: u32,
    targetAddr: u32,
    dataLen: u32,
    blockNo: u32,
    totalBlocks: u32,
    familyOrFileSize: u32,
    data: Payload,
    magicEnd: u32)

  predicate HasMagic(b: Block) {
    b.magicStart0 == MAGIC_START_0 && b.magicStart1 == MAGIC_START_1 && b.magicEnd == MAGIC_END
  }

  /** The blocks `from_bytes` accepts: right magic, payload size in range. */
  predicate Valid(b: Block) {
    HasMagic(b) && b.dataLen <= MAX_PAYLOAD_SIZE
  }

  /** `Block::default()`: the magic triple and nothing else. */
  function DefaultBlock(): Block {
    Block(MAGIC_START_0, MAGIC_START_1, 0, 0, 0, 0, 0, 0, Zeros(MAX_PAYLOAD_SIZE), MAGIC_END)
  }

  /** `block.as_bytes()`: the 512-byte `#[repr(C)]` layout. */
  function Serialize(b: Block): (r: seq<byte>)
    ensures |r| == BLOCK_SIZE
  {
    LeBytes(b.magicStart0) + LeBytes(b.magicStart1) + LeBytes(b.flags) + LeBytes(b.targetAddr)
    + LeBytes(b.dataLen) + LeBytes(b.blockNo) + LeBytes(b.totalBlocks) + LeBytes(b.familyOrFileSize)
    + b.data + LeBytes(b.magicEnd)
  }

  /** Where each field of `b` sits in `Serialize(b)`. */
  lemma SerializeLayout(b: Block)
    ensures var r := Serialize(b);
      r[0..4] == LeBytes(b.magicStart0) && r[4..8] == LeBytes(b.magicStart1)
      && r[8..12] == LeBytes(b.flags) && r[12..16] == LeBytes(b.targetAddr)
      && r[16..20] == LeBytes(b.dataLen) && r[20..24] == LeBytes(b.blockNo)
      && r[24..28] == LeBytes(b.totalBlocks) && r[28..32] == LeBytes(b.familyOrFileSize)
      && r[32..508] == b.data && r[508..512] == LeBytes(b.magicEnd)
  {
  }

  /** `Block::ref_from(buf)` on a buffer of the right size: every field read
      little-endian from its fixed offset. */
  function Reinterpret(buf: seq<byte>): Block
    requires |buf| == BLOCK_SIZE
  {
    Block(U32At(buf, 0), U32At(buf, 4), U32At(buf, 8), U32At(buf, 12), U32At(buf, 16),
          U32At(buf, 20), U32At(buf, 24), U32At(buf, 28), buf[32..508], U32At(buf, 508))
  }

  /** `Block::from_bytes`: the size gate, then the magic gate, then the
      payload-size gate, in that order. */
  function FromBytes(buf: seq<byte>): (r: Result<Block, BlockError>)
    ensures r == Err(InputBuffer) <==> |buf| != BLOCK_SIZE
    ensures r == Err(MagicNumber) <==>
      |buf| == BLOCK_SIZE
      && (U32At(buf, 0) != MAGIC_START_0 || U32At(buf, 4) != MAGIC_START_1 || U32At(buf, 508) != MAGIC_END)
    ensures r == Err(PayloadSize) <==>
      |buf| == BLOCK_SIZE
      && U32At(buf, 0) == MAGIC_START_0 && U32At(buf, 4) == MAGIC_START_1 && U32At(buf, 508) == MAGIC_END
      && U32At(buf, 16) > MAX_PAYLOAD_SIZE
    ensures r.Ok? ==> Valid(r.value)
  {
    if |buf| != BLOCK_SIZE then Err(InputBuffer)
    else
      var b := Reinterpret(buf);
      if !HasMagic(b) then Err(MagicNumber)
      else if b.dataLen > MAX_PAYLOAD_SIZE then Err(PayloadSize)
      else Ok(b)
  }

  /** A block that parses is the buffer it was parsed from, field for field. */
  lemma FromBytesExact(buf: seq<byte>)
    requires FromBytes(buf).Ok?
    ensures Serialize(FromBytes(buf).value) == buf
  {
    SerializeReinterpret(buf);
  }

  lemma SerializeReinterpret(buf: seq<byte>)
    requires |buf| == BLOCK_SIZE
    ensures Serialize(Reinterpret(buf)) == buf
  {
    var b := Reinterpret(buf);
    forall k | k in [0, 4, 8, 12, 16, 20, 24, 28, 508]
      ensures LeBytes(U32At(buf, k)) == buf[k..k + 4]
    {
      LeBytesFrom(buf[k..k + 4]);
    }
    assert buf == buf[0..4] + buf[4..8] + buf[8..12] + buf[12..16] + buf[16..20] + buf[20..24]
      + buf[24..28] + buf[28..32] + buf[32..508] + buf[508..512];
  }

  /** Decoding a serialised valid block gives the block back. */
  lemma FromBytesSerialize(b: Block)
    requires Valid(b)
    ensures FromBytes(Serialize(b)) == Ok(b)
  {
    var r := Serialize(b);
    SerializeLayout(b);
    FromLeBytes(b.magicStart0); FromLeBytes(b.magicStart1); FromLeBytes(b.flags);
    FromLeBytes(b.targetAddr); FromLeBytes(b.dataLen); FromLeBytes(b.blockNo);
    FromLeBytes(b.totalBlocks); FromLeBytes(b.familyOrFileSize); FromLeBytes(b.magicEnd);
    assert Reinterpret(r) == b;
  }

  /** Changing any one magic field of a serialised block makes it fail the magic gate. */
  lemma MagicGate(b: Block, offset: nat, x: u32)
    requires Valid(b)
    requires offset in [0, 4, 508]
    requires x != FromLe(Serialize(b)[offset..offset + 4])
    ensures FromBytes(Overwrite(Serialize(b), offset, LeBytes(x))) == Err(MagicNumber)
  {
    var buf := Overwrite(Serialize(b), offset, LeBytes(x));
    SerializeLayout(b);
    FromLeBytes(x);
    FromLeBytes(b.magicStart0); FromLeBytes(b.magicStart1); FromLeBytes(b.magicEnd);
    assert buf[offset..offset + 4] == LeBytes(x);
    if offset == 0 {
      assert buf[4..8] == Serialize(b)[4..8];
      assert buf[508..512] == Serialize(b)[508..512];
    } else if offset == 4 {
      assert buf[0..4] == Serialize(b)[0..4];
      assert buf[508..512] == Serialize(b)[508..512];
    } else {
      assert buf[0..4] == Serialize(b)[0..4];
      assert buf[4..8] == Serialize(b)[4..8];
    }
  }

  /** A well-formed record whose payload size is one past the maximum fails the size gate. */
  lemma PayloadSizeGate(b: Block)
    requires HasMagic(b) && b.dataLen == MAX_PAYLOAD_SIZE + 1
    ensures FromBytes(Serialize(b)) == Err(PayloadSize)
  {
    SerializeLayout(b);
    FromLeBytes(b.magicStart0); FromLeBytes(b.magicStart1); FromLeBytes(b.dataLen); FromLeBytes(b.magicEnd);
  }

  /** The default block serialises to the magic triple at offsets 0, 4 and
      508 ("UF2\n" at the start) and zeros everywhere else. */
  lemma DefaultBlockLayout()
    ensures Valid(DefaultBlock())
    ensures var r := Serialize(DefaultBlock());
      r[0..4] == [0x55, 0x46, 0x32, 0x0A] && r[4..8] == [0x57, 0x51, 0x5D, 0x9E]
      && r[508..512] == [0x30, 0x6F, 0xB1, 0x0A]
      && forall i | 8 <= i < 508 :: r[i] == 0
  {
    var r := Serialize(DefaultBlock());
    SerializeLayout(DefaultBlock());
    assert LeBytes(0) == [0, 0, 0, 0];
    forall i | 8 <= i < 508 ensures r[i] == 0 {
      if i < 32 {
        var k := if i < 12 then 8 else if i < 16 then 12 else if i < 20 then 16
          else if i < 24 then 20 else if i < 28 then 24 else 28;
        assert r[i] == r[k..k + 4][i - k];
      } else {
        assert r[i] == r[32..508][i - 32];
      }
    }
  }

  /** `Block::new`: a default block given its index, the block count, the
      target address and a prefix of payload. The asserts of the source are
      its requires; `data_len`, the flags and the family field stay zero. */
  method NewBlock(block: nat, totalBlocks: nat, data: seq<byte>, targetAddr: nat) returns (b: Block)
    requires block <= totalBlocks
    requires totalBlocks < U32_LIMIT
    requires targetAddr < U32_LIMIT
    requires |data| <= MAX_PAYLOAD_SIZE
    ensures HasMagic(b) && Valid(b)
    ensures b.blockNo == block && b.totalBlocks == totalBlocks && b.targetAddr == targetAddr
    ensures b.data[..|data|] == data
    ensures forall i | |data| <= i < MAX_PAYLOAD_SIZE :: b.data[i] == 0
    ensures b.dataLen == 0 && b.flags == 0 && b.familyOrFileSize == 0
  {
    b := DefaultBlock();
    b := b.(blockNo := block);
    b := b.(totalBlocks := totalBlocks);
    b := b.(targetAddr := targetAddr);
    b := CopyIntoData(b, 0, data);
  }

  /** `block.data[at..at + |src|].copy_from_slice(src)`: the copy done on
      the block's fixed-size array; no other field changes. */
  method CopyIntoData(b: Block, at: nat, src: seq<byte>) returns (r: Block)
    requires at + |src| <= MAX_PAYLOAD_SIZE
    ensures r == b.(data := Overwrite(b.data, at, src))
  {
    var buffer := new byte[MAX_PAYLOAD_SIZE](i requires 0 <= i < MAX_PAYLOAD_SIZE => b.data[i]);
    assert buffer[..] == b.data;
    CopyFromSlice(buffer, at, src);
    r := b.(data := buffer[..]);
  }

  // ------------------------------------------------------------- Checksum

  /** The 16-byte digest of a checksum record. */
  type Digest = s: seq<byte> | |s| == 16 witness seq(16, _ => 0)

  /** `Checksum`: the range it covers and its digest, 24 bytes in all. */
  datatype ChecksumRecord = ChecksumRecord(start: u32, length: u32, checksum: Digest)

  const CHECKSUM_OFFSET: nat := MAX_PAYLOAD_SIZE - CHECKSUM_SIZE

  /** `checksum.as_bytes()`. */
  function ChecksumBytes(c: ChecksumRecord): (r: seq<byte>)
    ensures |r| == CHECKSUM_SIZE
  {
    LeBytes(c.start) + LeBytes(c.length) + c.checksum
  }

  /** `Checksum::ref_from` on a 24-byte slice. */
  function ReadChecksum(s: seq<byte>): (c: ChecksumRecord)
    requires |s| == CHECKSUM_SIZE
    ensures ChecksumBytes(c) == s
  {
    LeBytesFrom(s[0..4]);
    LeBytesFrom(s[4..8]);
    assert s == s[0..4] + s[4..8] + s[8..24];
    ChecksumRecord(FromLe(s[0..4]), FromLe(s[4..8]), s[8..24])
  }

  lemma ReadChecksumBytes(c: ChecksumRecord)
    ensures ReadChecksum(ChecksumBytes(c)) == c
  {
    var s := ChecksumBytes(c);
    assert s[0..4] == LeBytes(c.start) && s[4..8] == LeBytes(c.length) && s[8..24] == c.checksum;
    FromLeBytes(c.start);
    FromLeBytes(c.length);
  }

  predicate HasChecksum(b: Block) {
    Contains(b.flags, Checksum)
  }

  /** `Block::checksum`: the last 24 bytes of `data`, only under the flag. */
  function GetChecksum(b: Block): (r: Option<ChecksumRecord>)
    ensures r.None? <==> !HasChecksum(b)
    ensures r.Some? ==> ChecksumBytes(r.value) == b.data[CHECKSUM_OFFSET..]
  {
    if HasChecksum(b) then Some(ReadChecksum(b.data[CHECKSUM_OFFSET..])) else None
  }

  /** `Block::set_checksum`: overwrites the last 24 bytes of `data` in place
      and leaves every other field, the flags included, as it was. */
  method SetChecksum(b: Block, c: ChecksumRecord) returns (r: Block)
    ensures r.data[CHECKSUM_OFFSET..] == ChecksumBytes(c)
    ensures r.data[..CHECKSUM_OFFSET] == b.data[..CHECKSUM_OFFSET]
    ensures r == b.(data := r.data)
  {
    r := CopyIntoData(b, CHECKSUM_OFFSET, ChecksumBytes(c));
  }

  /** After `set_checksum(c)` on a block whose checksum flag is set,
      `checksum()` gives `c` back. */
  lemma GetChecksumAfterSet(b: Block, r: Block, c: ChecksumRecord)
    requires HasChecksum(b)
    requires r.data[CHECKSUM_OFFSET..] == ChecksumBytes(c) && r == b.(data := r.data)
    ensures GetChecksum(r) == Some(c)
  {
    ReadChecksumBytes(c);
  }

  /** The unit test of the checksum gate: a default block has no checksum,
      and once the flag is inserted it has one. */
  lemma DefaultChecksumGate()
    ensures GetChecksum(DefaultBlock()) == None
    ensures GetChecksum(DefaultBlock().(flags := Insert(0, Checksum))).Some?
  {
  }
}
