/**
  The two conversions of the `uftwo convert` command
  (src/bin/uftwo/convert.rs), with the input and output files replaced by
  byte sequences: a binary image to UF2 blocks, and UF2 records back to
  bytes.
*/
module Convert {
  import opened Bytes
  import opened Wrappers
  import opened Uf2
  import opened Arith
  import opened Seqs

  /** Bytes of the image carried by one block. */
  const CHUNK_SIZE: nat := 256

  // Products and quotients below write CHUNK_SIZE and BLOCK_SIZE out as
  // 256 and 512, which keeps that arithmetic linear for the solver.

  function Min(a: nat, b: nat): nat {
    if a <= b then a else b
  }

  // --------------------------------------------------------------- encode

  /** `binary.chunks(256).count()`. */
  function NumChunks(n: nat): (r: nat)
    ensures r == 0 <==> n == 0
    ensures n <= 256 * r
    ensures r > 0 ==> 256 * (r - 1) < n
  {
    (n + 255) / 256
  }

  /** Where chunk `i` starts, clamped to the end of the image. */
  function ChunkStart(binary: seq<byte>, i: nat): (r: nat)
    ensures r <= |binary|
  {
    Min(256 * i, |binary|)
  }

  /** Chunk `i` of `binary.chunks(256)`: 256 bytes, fewer for the last one. */
  function Chunk(binary: seq<byte>, i: nat): (c: seq<byte>)
    requires i < NumChunks(|binary|)
    ensures 0 < |c| <= CHUNK_SIZE
    ensures c == binary[ChunkStart(binary, i)..ChunkStart(binary, i + 1)]
  {
    binary[256 * i..Min(256 * i + CHUNK_SIZE, |binary|)]
  }

  /** The block the loop body builds for chunk `i`: a default block with
      the chunk's length, the target address, the family id (and only the
      FamilyId flag) when one is given, the index and the block count
      truncated to u32, and the chunk copied to the front of `data`. */
  function ChunkBlock(binary: seq<byte>, i: nat, targetAddr: u32, familyId: Option<u32>): Block
    requires i < NumChunks(|binary|)
  {
    var chunk := Chunk(binary, i);
    var b := DefaultBlock().(dataLen := |chunk|, targetAddr := targetAddr);
    var b := if familyId.Some? then b.(familyOrFileSize := familyId.value, flags := Bit(FamilyId)) else b;
    b.(blockNo := Wrap32(i), totalBlocks := Wrap32(NumChunks(|binary|)), data := Overwrite(b.data, 0, chunk))
  }

  /** The blocks the loop builds, in index order. */
  function Blocks(binary: seq<byte>, targetAddr: u32, familyId: Option<u32>): (r: seq<Block>)
    ensures |r| == NumChunks(|binary|)
    ensures forall i | 0 <= i < |r| :: r[i] == ChunkBlock(binary, i, targetAddr, familyId)
  {
    seq(NumChunks(|binary|), i requires 0 <= i < NumChunks(|binary|) => ChunkBlock(binary, i, targetAddr, familyId))
  }

  /** The 512-byte records of `blocks`, one after the other. */
  function SerializeAll(blocks: seq<Block>): (r: seq<byte>)
    ensures |r| == 512 * |blocks|
  {
    if blocks == [] then [] else Serialize(blocks[0]) + SerializeAll(blocks[1..])
  }

  /** The whole UF2 file written for `binary`. */
  function Encoded(binary: seq<byte>, targetAddr: u32, familyId: Option<u32>): seq<byte> {
    SerializeAll(Blocks(binary, targetAddr, familyId))
  }

  /** `bin_to_uf2`: one block per 256-byte chunk, each serialised and
      appended to the output in index order. */
  method BinToUf2(binary: seq<byte>, targetAddr: u32, familyId: Option<u32>) returns (output: seq<byte>)
    ensures output == Encoded(binary, targetAddr, familyId)
  {
    ghost var blocks := Blocks(binary, targetAddr, familyId);
    var totalBlocks := NumChunks(|binary|);
    output := [];
    var index := 0;
    while index < totalBlocks
      invariant index <= totalBlocks
      invariant output == SerializeAll(blocks[..index])
    {
      var block := ChunkToBlock(binary, index, totalBlocks, targetAddr, familyId);
      assert block == blocks[index];
      TakeOneMore(blocks, index);
      SerializeAllSnoc(blocks[..index], block);
      output := output + Serialize(block);
      index := index + 1;
    }
    assert blocks[..index] == blocks;
  }

  /** The body of the `bin_to_uf2` loop for chunk `index`: slice the chunk,
      fill in a default block field by field and copy the chunk into its
      payload. */
  method ChunkToBlock(binary: seq<byte>, index: nat, totalBlocks: nat, targetAddr: u32, familyId: Option<u32>)
    returns (block: Block)
    requires index < totalBlocks == NumChunks(|binary|)
    ensures block == ChunkBlock(binary, index, targetAddr, familyId)
  {
    var chunk := binary[256 * index..Min(256 * index + CHUNK_SIZE, |binary|)];
    block := DefaultBlock();
    block := block.(dataLen := |chunk|);
    block := block.(targetAddr := targetAddr);
    if familyId.Some? {
      block := block.(familyOrFileSize := familyId.value);
      block := block.(flags := Bit(FamilyId));
    }
    block := block.(blockNo := Wrap32(index));
    block := block.(totalBlocks := Wrap32(totalBlocks));
    block := CopyIntoData(block, 0, chunk);
  }

  /** Serialising one more block appends its record. */
  lemma {:induction false} SerializeAllSnoc(blocks: seq<Block>, b: Block)
    ensures SerializeAll(blocks + [b]) == SerializeAll(blocks) + Serialize(b)
    decreases |blocks|
  {
    if blocks == [] {
      assert blocks + [b] == [b];
      assert [b][1..] == [];
    } else {
      assert (blocks + [b])[0] == blocks[0];
      assert (blocks + [b])[1..] == blocks[1..] + [b];
      SerializeAllSnoc(blocks[1..], b);
      AppendAssoc(Serialize(blocks[0]), SerializeAll(blocks[1..]), Serialize(b));
    }
  }

  /** Record `k` of `head + tail`, where `head` is one record long. */
  lemma RecordOfAppend(head: seq<byte>, tail: seq<byte>, k: nat)
    requires |head| == BLOCK_SIZE && 512 * k + 512 <= |head| + |tail|
    ensures k == 0 ==> (head + tail)[..BLOCK_SIZE] == head
    ensures k > 0 ==>
      (head + tail)[512 * k..512 * k + 512] == tail[512 * (k - 1)..512 * (k - 1) + 512]
  {
  }

  /** Record `k` of the serialised blocks is the serialised block `k`. */
  lemma {:induction false} SerializeAllRecord(blocks: seq<Block>, k: nat)
    requires k < |blocks|
    ensures SerializeAll(blocks)[512 * k..512 * k + 512] == Serialize(blocks[k])
    decreases k
  {
    var head := Serialize(blocks[0]);
    var tail := SerializeAll(blocks[1..]);
    RecordOfAppend(head, tail, k);
    if k > 0 {
      SerializeAllRecord(blocks[1..], k - 1);
    }
  }

  /** What block `i` says: a valid block numbered `i` of `NumChunks` (both
      truncated to u32, and exact below 2^32 blocks), carrying its chunk at
      the front of `data` and zeros after it, the target address, and the
      family id with exactly the FamilyId flag, or neither. */
  lemma ChunkBlockSpec(binary: seq<byte>, i: nat, targetAddr: u32, familyId: Option<u32>)
    requires i < NumChunks(|binary|)
    ensures var b := ChunkBlock(binary, i, targetAddr, familyId);
      var chunk := Chunk(binary, i);
      Valid(b)
      && b.blockNo == Wrap32(i) && b.totalBlocks == Wrap32(NumChunks(|binary|))
      && (NumChunks(|binary|) < U32_LIMIT ==> b.blockNo == i && b.totalBlocks == NumChunks(|binary|))
      && b.dataLen == |chunk| && 0 < b.dataLen <= CHUNK_SIZE
      && b.data[..|chunk|] == chunk
      && (forall k | |chunk| <= k < MAX_PAYLOAD_SIZE :: b.data[k] == 0)
      && b.targetAddr == targetAddr
      && (familyId.Some? ==> b.familyOrFileSize == familyId.value && b.flags == Bit(FamilyId)
                             && Contains(b.flags, FamilyId))
      && (familyId.None? ==> b.familyOrFileSize == 0 && b.flags == 0)
  {
    var b := ChunkBlock(binary, i, targetAddr, familyId);
    var chunk := Chunk(binary, i);
    forall k | |chunk| <= k < MAX_PAYLOAD_SIZE ensures b.data[k] == 0 {
      assert b.data[k] == b.data[|chunk|..][k - |chunk|];
    }
  }

  /** The output of `bin_to_uf2` is `512 * ceil(n / 256)` bytes, empty for an
      empty image, and its record `i` parses back to the block for chunk `i`. */
  lemma EncodedRecords(binary: seq<byte>, targetAddr: u32, familyId: Option<u32>)
    ensures |Encoded(binary, targetAddr, familyId)| == 512 * NumChunks(|binary|)
    ensures |binary| == 0 ==> Encoded(binary, targetAddr, familyId) == []
    ensures forall i | 0 <= i < NumChunks(|binary|) ::
      FromBytes(Encoded(binary, targetAddr, familyId)[512 * i..512 * i + 512])
      == Ok(ChunkBlock(binary, i, targetAddr, familyId))
  {
    forall i | 0 <= i < NumChunks(|binary|)
      ensures FromBytes(Encoded(binary, targetAddr, familyId)[512 * i..512 * i + 512])
        == Ok(ChunkBlock(binary, i, targetAddr, familyId))
    {
      SerializeAllRecord(Blocks(binary, targetAddr, familyId), i);
      ChunkBlockSpec(binary, i, targetAddr, familyId);
      FromBytesSerialize(ChunkBlock(binary, i, targetAddr, familyId));
    }
  }

  // --------------------------------------------------------------- decode

  /** `uf2_to_bin` as written: whole 512-byte records are parsed in order;
      the first that fails stops the conversion with its error; each one
      that parses appends the first `data_len` bytes of the RECORD (starting
      at its magic number), not of its `data`; a short tail is ignored. */
  function Decode(input: seq<byte>): Result<seq<byte>, BlockError>
    decreases |input|
  {
    if |input| < BLOCK_SIZE then Ok([])
    else
      match FromBytes(input[..BLOCK_SIZE])
      case Err(e) => Err(e)
      case Ok(block) =>
        match Decode(input[BLOCK_SIZE..])
        case Err(e) => Err(e)
        case Ok(rest) => Ok(input[..block.dataLen] + rest)
  }

  /** `Ok(out)` of `r` with `prefix` put in front. */
  function Prepend(prefix: seq<byte>, r: Result<seq<byte>, BlockError>): Result<seq<byte>, BlockError> {
    match r
    case Err(e) => Err(e)
    case Ok(out) => Ok(prefix + out)
  }

  /** `uf2_to_bin`: reads the input 512 bytes at a time until a short read,
      parses each record and extends the output; also counts the blocks read. */
  method Uf2ToBin(input: seq<byte>) returns (r: Result<seq<byte>, BlockError>, totalBlocks: nat)
    ensures r == Decode(input)
    ensures r.Ok? ==> totalBlocks == |input| / 512
  {
    var binary: seq<byte> := [];
    totalBlocks := 0;
    var pos := 0;
    assert input[pos..] == input;
    assert Prepend(binary, Decode(input)) == Decode(input) by {
      if Decode(input).Ok? { assert binary + Decode(input).value == Decode(input).value; }
    }
    while true
      invariant pos == 512 * totalBlocks && pos <= |input|
      invariant Decode(input) == Prepend(binary, Decode(input[pos..]))
      decreases |input| - pos
    {
      var bytes := Min(BLOCK_SIZE, |input| - pos);
      if bytes < BLOCK_SIZE {
        break;
      }
      var buf := input[pos..pos + 512];
      var block := FromBytes(buf);
      if block.Err? {
        assert input[pos..][..BLOCK_SIZE] == buf;
        return Err(block.error), totalBlocks;
      }
      assert input[pos..][..BLOCK_SIZE] == buf && input[pos..][BLOCK_SIZE..] == input[pos + BLOCK_SIZE..];
      assert input[pos..][..block.value.dataLen] == buf[..block.value.dataLen];
      DecodeOneRecord(input[pos..]);
      PrependTwice(binary, buf[..block.value.dataLen], Decode(input[pos + BLOCK_SIZE..]));
      binary := binary + buf[..block.value.dataLen];
      totalBlocks := totalBlocks + 1;
      pos := pos + BLOCK_SIZE;
    }
    assert Decode(input[pos..]) == Ok([]);
    assert binary + [] == binary;
    r := Ok(binary);
    DivUnique(|input|, 512, totalBlocks, |input| - pos);
  }

  /** One step of `Decode` on an input whose first record parses. */
  lemma DecodeOneRecord(input: seq<byte>)
    requires |input| >= BLOCK_SIZE && FromBytes(input[..BLOCK_SIZE]).Ok?
    ensures Decode(input)
      == Prepend(input[..FromBytes(input[..BLOCK_SIZE]).value.dataLen], Decode(input[BLOCK_SIZE..]))
  {
  }

  lemma PrependTwice(a: seq<byte>, b: seq<byte>, r: Result<seq<byte>, BlockError>)
    ensures Prepend(a, Prepend(b, r)) == Prepend(a + b, r)
  {
    if r.Ok? {
      AppendAssoc(a, b, r.value);
    }
  }

  /** Record `k` of a UF2 input. */
  function Record(input: seq<byte>, k: nat): seq<byte>
    requires 512 * k + 512 <= |input|
  {
    input[512 * k..512 * k + 512]
  }

  /** Bytes after the last whole record play no part. */
  lemma {:induction false} DecodeIgnoresTail(input: seq<byte>)
    ensures Decode(input) == Decode(input[..512 * (|input| / 512)])
    decreases |input|
  {
    var n := |input| / 512;
    var whole := input[..512 * n];
    if |input| >= BLOCK_SIZE {
      var rest := input[BLOCK_SIZE..];
      DecodeIgnoresTail(rest);
      RecordCount(input);
      PrefixOfPrefix(input, 512 * n, BLOCK_SIZE);
      DropOfTake(input, BLOCK_SIZE, 512 * n);
      if FromBytes(input[..BLOCK_SIZE]).Ok? {
        DecodeOneRecord(input);
        DecodeOneRecord(whole);
        PrefixOfPrefix(input, 512 * n, FromBytes(input[..BLOCK_SIZE]).value.dataLen);
      }
    } else {
      assert whole == [];
    }
  }

  /** Record `k + 1` of `input` is record `k` of what follows the first. */
  lemma RecordShift(input: seq<byte>, k: nat)
    requires 512 * (k + 1) + 512 <= |input|
    ensures Record(input[BLOCK_SIZE..], k) == Record(input, k + 1)
  {
  }

  /** Dropping the first record leaves one record fewer. */
  lemma RecordCount(input: seq<byte>)
    requires |input| >= BLOCK_SIZE
    ensures |input[BLOCK_SIZE..]| / 512 == |input| / 512 - 1
  {
    DivUnique(|input| - 512, 512, |input| / 512 - 1, |input| % 512);
  }

  /** Decoding succeeds exactly when every whole record parses. */
  lemma {:induction false} DecodeOk(input: seq<byte>)
    ensures Decode(input).Ok? <==> forall k | 0 <= k < |input| / 512 :: FromBytes(Record(input, k)).Ok?
    decreases |input|
  {
    if |input| >= BLOCK_SIZE {
      var rest := input[BLOCK_SIZE..];
      DecodeOk(rest);
      RecordCount(input);
      assert Record(input, 0) == input[..BLOCK_SIZE];
      forall k | 0 <= k < |rest| / 512 ensures Record(rest, k) == Record(input, k + 1) {
        RecordShift(input, k);
      }
      if FromBytes(input[..BLOCK_SIZE]).Ok? && Decode(rest).Ok? {
        forall k | 0 <= k < |input| / 512 ensures FromBytes(Record(input, k)).Ok? {
          if k > 0 {
            assert Record(input, k) == Record(rest, k - 1);
          }
        }
      }
    } else {
      assert |input| / 512 == 0;
    }
  }

  /** A failed decode reports the error of the first record that does not parse. */
  lemma {:induction false} DecodeFirstError(input: seq<byte>)
    requires Decode(input).Err?
    ensures exists k | 0 <= k < |input| / 512 ::
      FromBytes(Record(input, k)) == Err(Decode(input).error)
      && forall j | 0 <= j < k :: FromBytes(Record(input, j)).Ok?
    decreases |input|
  {
    assert Record(input, 0) == input[..BLOCK_SIZE];
    if FromBytes(input[..BLOCK_SIZE]).Ok? {
      var rest := input[BLOCK_SIZE..];
      DecodeOneRecord(input);
      DecodeFirstError(rest);
      var k :| 0 <= k < |rest| / 512 && FromBytes(Record(rest, k)) == Err(Decode(rest).error)
        && forall j | 0 <= j < k :: FromBytes(Record(rest, j)).Ok?;
      FirstErrorShift(input, k);
    }
  }

  /** The first failing record of what follows a good first record is the
      first failing record of the whole input, one place later. */
  lemma FirstErrorShift(input: seq<byte>, k: nat)
    requires |input| >= BLOCK_SIZE && FromBytes(input[..BLOCK_SIZE]).Ok?
    requires k < |input[BLOCK_SIZE..]| / 512
    requires forall j | 0 <= j < k :: FromBytes(Record(input[BLOCK_SIZE..], j)).Ok?
    ensures k + 1 < |input| / 512
    ensures Record(input, k + 1) == Record(input[BLOCK_SIZE..], k)
    ensures forall j | 0 <= j < k + 1 :: FromBytes(Record(input, j)).Ok?
  {
    RecordCount(input);
    RecordShift(input, k);
    assert Record(input, 0) == input[..BLOCK_SIZE];
    forall j | 0 < j < k + 1 ensures FromBytes(Record(input, j)).Ok? {
      RecordShift(input, j - 1);
    }
  }

  /** The `data_len` fields of the whole records of `input`, added up. */
  function DataLenSum(input: seq<byte>): nat
    decreases |input|
  {
    if |input| < BLOCK_SIZE then 0 else U32At(input, 16) + DataLenSum(input[BLOCK_SIZE..])
  }

  /** A successful decode is as long as the records' payload sizes added
      up, so at most 476 bytes per record. */
  lemma {:induction false} DecodeLength(input: seq<byte>)
    requires Decode(input).Ok?
    ensures |Decode(input).value| == DataLenSum(input)
    ensures DataLenSum(input) <= 476 * (|input| / 512)
    decreases |input|
  {
    if |input| >= BLOCK_SIZE {
      var rest := input[BLOCK_SIZE..];
      DecodeLength(rest);
      assert |rest| / 512 == |input| / 512 - 1;
      assert input[..BLOCK_SIZE][16..20] == input[16..20];
    }
  }

  /** Decoding what `bin_to_uf2` wrote for the one-byte image [7] gives
      [0x55], the first byte of the first magic number: the bytes come out
      of the record header, not the payload. */
  lemma DecodeEncodedCounterexample()
    ensures Decode(Encoded([7], 0, None)) == Ok([0x55])
    ensures Decode(Encoded([7], 0, None)) != Ok([7])
  {
    var blocks := Blocks([7], 0, None);
    var block := blocks[0];
    BlocksValid([7], 0, None);
    DecodeSerializeAll(blocks);
    ChunkBlockSpec([7], 0, 0, None);
    assert block.dataLen == 1 && block.magicStart0 == MAGIC_START_0;
    SerializeLayout(block);
    var record := Serialize(block);
    assert record[0] == record[0..4][0] == LeBytes(MAGIC_START_0)[0] == 0x55;
    assert record[..1] == [0x55];
    assert blocks[1..] == [];
    assert RecordPrefixes(blocks) == record[..1] + RecordPrefixes(blocks[1..]);
    assert RecordPrefixes(blocks[1..]) == [];
    assert RecordPrefixes(blocks) == [0x55];
    assert Encoded([7], 0, None) == SerializeAll(blocks);
  }

  /** `uf2_to_bin` as evidently intended: each record contributes the first
      `data_len` bytes of its payload. */
  function DecodePayloads(input: seq<byte>): Result<seq<byte>, BlockError>
    decreases |input|
  {
    if |input| < BLOCK_SIZE then Ok([])
    else
      match FromBytes(input[..BLOCK_SIZE])
      case Err(e) => Err(e)
      case Ok(block) =>
        match DecodePayloads(input[BLOCK_SIZE..])
        case Err(e) => Err(e)
        case Ok(rest) => Ok(block.data[..block.dataLen] + rest)
  }

  predicate AllValid(blocks: seq<Block>) {
    forall i | 0 <= i < |blocks| :: Valid(blocks[i])
  }

  lemma AllValidFrom(blocks: seq<Block>, i: nat)
    requires AllValid(blocks) && i <= |blocks|
    ensures AllValid(blocks[i..])
  {
    forall j | 0 <= j < |blocks| - i ensures Valid(blocks[i..][j]) {
      assert blocks[i..][j] == blocks[i + j];
    }
  }

  /** What `Decode` collects from serialised blocks: the first `data_len`
      bytes of each record. */
  function RecordPrefixes(blocks: seq<Block>): seq<byte>
    requires AllValid(blocks)
  {
    if blocks == [] then [] else Serialize(blocks[0])[..blocks[0].dataLen] + RecordPrefixes(blocks[1..])
  }

  /** The payloads of `blocks`: the first `data_len` bytes of each `data`. */
  function Payloads(blocks: seq<Block>): seq<byte>
    requires AllValid(blocks)
  {
    if blocks == [] then [] else blocks[0].data[..blocks[0].dataLen] + Payloads(blocks[1..])
  }

  /** Both decoders accept any sequence of valid serialised blocks; the one
      as written collects record prefixes, the corrected one payloads, and
      the two outputs have the same length. */
  lemma {:induction false} DecodeSerializeAll(blocks: seq<Block>)
    requires AllValid(blocks)
    ensures Decode(SerializeAll(blocks)) == Ok(RecordPrefixes(blocks))
    ensures DecodePayloads(SerializeAll(blocks)) == Ok(Payloads(blocks))
    ensures |RecordPrefixes(blocks)| == |Payloads(blocks)|
    decreases |blocks|
  {
    if blocks != [] {
      var s := SerializeAll(blocks);
      var b := blocks[0];
      AllValidFrom(blocks, 1);
      DecodeSerializeAll(blocks[1..]);
      assert Valid(b);
      FromBytesSerialize(b);
      assert s[..BLOCK_SIZE] == Serialize(b);
      assert s[BLOCK_SIZE..] == SerializeAll(blocks[1..]);
      DecodeOneRecord(s);
      DecodePayloadsOneRecord(s);
      PrefixOfPrefix(s, BLOCK_SIZE, b.dataLen);
    }
  }

  /** Every block the encoder builds is valid. */
  lemma BlocksValid(binary: seq<byte>, targetAddr: u32, familyId: Option<u32>)
    ensures AllValid(Blocks(binary, targetAddr, familyId))
  {
    var blocks := Blocks(binary, targetAddr, familyId);
    forall i | 0 <= i < |blocks| ensures Valid(blocks[i]) {
      ChunkBlockSpec(binary, i, targetAddr, familyId);
    }
  }

  /** The payloads of the blocks for chunks `i` on are the image from chunk `i` on. */
  lemma {:induction false} ChunkPayloads(binary: seq<byte>, i: nat, targetAddr: u32, familyId: Option<u32>)
    requires i <= NumChunks(|binary|)
    requires AllValid(Blocks(binary, targetAddr, familyId)[i..])
    ensures Payloads(Blocks(binary, targetAddr, familyId)[i..]) == binary[ChunkStart(binary, i)..]
    decreases NumChunks(|binary|) - i
  {
    var blocks := Blocks(binary, targetAddr, familyId);
    if i < NumChunks(|binary|) {
      DropOne(blocks, i);
      AllValidFrom(blocks[i..], 1);
      ChunkPayloads(binary, i + 1, targetAddr, familyId);
      ChunkBlockSpec(binary, i, targetAddr, familyId);
      SplitAt(binary, ChunkStart(binary, i), ChunkStart(binary, i + 1));
    } else {
      assert blocks[i..] == [];
    }
  }

  /** One step of `DecodePayloads` on an input whose first record parses. */
  lemma DecodePayloadsOneRecord(input: seq<byte>)
    requires |input| >= BLOCK_SIZE && FromBytes(input[..BLOCK_SIZE]).Ok?
    ensures var b := FromBytes(input[..BLOCK_SIZE]).value;
      DecodePayloads(input) == Prepend(b.data[..b.dataLen], DecodePayloads(input[BLOCK_SIZE..]))
  {
  }

  /** With payload bytes, decoding the converted image gives the image back. */
  lemma DecodePayloadsEncoded(binary: seq<byte>, targetAddr: u32, familyId: Option<u32>)
    ensures DecodePayloads(Encoded(binary, targetAddr, familyId)) == Ok(binary)
  {
    var blocks := Blocks(binary, targetAddr, familyId);
    BlocksValid(binary, targetAddr, familyId);
    assert blocks[0..] == blocks;
    ChunkPayloads(binary, 0, targetAddr, familyId);
    DecodeSerializeAll(blocks);
  }

  /** Decoding a converted image as written succeeds and gives back as many
      bytes as the image had, though not the same ones. */
  lemma DecodeEncodedLength(binary: seq<byte>, targetAddr: u32, familyId: Option<u32>)
    ensures Decode(Encoded(binary, targetAddr, familyId)).Ok?
    ensures |Decode(Encoded(binary, targetAddr, familyId)).value| == |binary|
  {
    var blocks := Blocks(binary, targetAddr, familyId);
    BlocksValid(binary, targetAddr, familyId);
    assert blocks[0..] == blocks;
    ChunkPayloads(binary, 0, targetAddr, familyId);
    DecodeSerializeAll(blocks);
  }
}
