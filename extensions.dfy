/**
  The extension tags of a UF2 block (src/lib.rs): a tag-length-value list
  in the 4-byte aligned part of `data` after the payload, read by a cursor
  that moves from record to record.

  Record layout: byte 0 is the record length including the 4-byte header,
  bytes 1..4 the 24-bit little-endian tag, the rest its payload; the next
  record starts at the next multiple of four.
*/
module Uf2Extensions {
  import opened Bytes
  import opened Wrappers
  import opened Uf2
  import opened Seqs

  /** Length byte plus three tag bytes. */
  const HEADER_SIZE: nat := 4

  const SEMVER_STRING: u32 := 0x9f_c7bc
  const DESCRIPTION_STRING: u32 := 0x65_0d9d
  const TARGET_PAGE_SIZE: u32 := 0x0b_e9f7
  const SHA2_CHECKSUM: u32 := 0xb4_6db0
  const DEVICE_TYPE_ID: u32 := 0xc8_a729

  /** `ExtensionTag`: the known tags and, for any other value, `Other`.
      (The source spells the page-size tag `TagetPageSize`.) */
  datatype ExtensionTag =
    | SemverString
    | DescriptionString
    | TargetPageSize
    | Sha2Checksum
    | DeviceTypeId
    | Other(value: u32)

  /** An extension record: its tag and a view of its payload bytes. */
  datatype Extension = Extension(tag: ExtensionTag, data: seq<byte>)

  predicate IsKnownTag(v: u32) {
    v in {SEMVER_STRING, DESCRIPTION_STRING, TARGET_PAGE_SIZE, SHA2_CHECKSUM, DEVICE_TYPE_ID}
  }

  /** The numeric tag an `ExtensionTag` stands for. */
  function TagValue(t: ExtensionTag): u32 {
    match t
    case SemverString => SEMVER_STRING
    case DescriptionString => DESCRIPTION_STRING
    case TargetPageSize => TARGET_PAGE_SIZE
    case Sha2Checksum => SHA2_CHECKSUM
    case DeviceTypeId => DEVICE_TYPE_ID
    case Other(v) => v
  }

  /** `ExtensionTag::from`: known values map to their variant, any other
      value is kept in `Other`, never rejected. */
  function TagFrom(v: u32): (t: ExtensionTag)
    ensures TagValue(t) == v
    ensures t.Other? <==> !IsKnownTag(v)
  {
    match v
    case 0x9f_c7bc => SemverString
    case 0x65_0d9d => DescriptionString
    case 0x0b_e9f7 => TargetPageSize
    case 0xb4_6db0 => Sha2Checksum
    case 0xc8_a729 => DeviceTypeId
    case _ => Other(v)
  }

  /** Every tag `TagFrom` can produce is read back from its own value. */
  lemma TagFromValue(t: ExtensionTag)
    requires t.Other? ==> !IsKnownTag(t.value)
    ensures TagFrom(TagValue(t)) == t
  {
  }

  /** The three tag bytes, zero-extended to a u32. */
  function Le24(s: seq<byte>): (v: u32)
    requires |s| == 3
    ensures v < 0x100_0000
    ensures LeBytes(v) == s + [0]
  {
    LeBytesFrom(s + [0]);
    FromLe(s + [0])
  }

  /** One step of the walk from offset `p` of `region`: the record there and
      the offset of the next one, or None at the end of the list.
      The source ends only when `p > |region|` and then indexes `region[p]`
      and slices `region[p + 4..p + len]` unchecked, which panics when
      `p == |region|` or `p + len > |region|`; here both end the walk. */
  function Step(region: seq<byte>, p: nat): Option<(Extension, nat)> {
    if p >= |region| then None
    else
      var len := region[p] as nat;
      if p + HEADER_SIZE > p + len then None
      else if p + len > |region| then None
      else
        var ext := Extension(TagFrom(Le24(region[p + 1..p + HEADER_SIZE])), region[p + HEADER_SIZE..p + len]);
        Some((ext, RoundUp4(p + len)))
  }

  /** What a step yields: the record at `p` is `len` bytes long, at least a
      header, inside the region; its tag comes from bytes 1..4, as a named
      tag exactly when the value is a known one, and its payload is the
      rest; the cursor moves strictly forward to an aligned
      offset. The walk stops exactly when no such record fits. */
  lemma StepSpec(region: seq<byte>, p: nat)
    ensures Step(region, p).None? <==>
      (p >= |region| || region[p] < HEADER_SIZE || p + region[p] > |region|)
    ensures Step(region, p).Some? ==>
      var (ext, next) := Step(region, p).value;
      var len := region[p] as nat;
      HEADER_SIZE <= len && p + len <= |region|
      && TagValue(ext.tag) == FromLe(region[p + 1..p + HEADER_SIZE] + [0])
      && (ext.tag.Other? <==> !IsKnownTag(TagValue(ext.tag)))
      && |ext.data| == len - HEADER_SIZE
      && ext.data == region[p + HEADER_SIZE..p + len]
      && p + len <= next < p + len + 4 && next % 4 == 0 && next > p
  {
    if Step(region, p).Some? {
      var s := region[p + 1..p + HEADER_SIZE];
      FromLeBytes(Le24(s));
    }
  }

  /** All the records the iterator yields from offset `p` on, in order. */
  function Walk(region: seq<byte>, p: nat): seq<Extension>
    decreases |region| - p
  {
    match Step(region, p)
    case None => []
    case Some((ext, next)) => [ext] + Walk(region, next)
  }

  /** Bytes a list of records occupies: each payload plus its header. */
  function Footprint(exts: seq<Extension>): nat {
    if exts == [] then 0 else |exts[0].data| + HEADER_SIZE + Footprint(exts[1..])
  }

  /** The records of a walk fit, header and payload, into the part of the
      region the walk starts from; so there are at most a quarter as many
      records as bytes. */
  lemma {:induction false} WalkInRegion(region: seq<byte>, p: nat)
    ensures Walk(region, p) != [] ==> p + Footprint(Walk(region, p)) <= |region|
    ensures |Walk(region, p)| * 4 <= Footprint(Walk(region, p))
    decreases |region| - p
  {
    match Step(region, p)
    case None =>
    case Some((ext, next)) =>
      StepSpec(region, p);
      WalkInRegion(region, next);
      assert Walk(region, p)[1..] == Walk(region, next);
  }

  /** `Extensions`: the cursor over one block's extension region. The
      region is borrowed and never changes; only `start` moves. */
  class Extensions {
    const data: seq<byte>
    var start: nat

    /** `Extensions::from_bytes`: a walk from the start of `data`. */
    constructor FromBytes(data: seq<byte>)
      ensures this.data == data && start == 0
    {
      this.data := data;
      start := 0;
    }

    /** `current_tag`: the tag of the record at the cursor. */
    function CurrentTag(): (t: ExtensionTag)
      reads this
      requires start + HEADER_SIZE <= |data|
      ensures TagValue(t) == FromLe(data[start + 1..start + HEADER_SIZE] + [0])
      ensures t.Other? <==> !IsKnownTag(TagValue(t))
    {
      var tag := Le24(data[start + 1..start + HEADER_SIZE]);
      FromLeBytes(tag);
      TagFrom(tag)
    }

    /** `Iterator::next`: the record at the cursor, moving the cursor to the
        next aligned record; None, with the cursor left in place, at the end. */
    method Next() returns (e: Option<Extension>)
      modifies this
      ensures Step(data, old(start)).None? ==> e.None? && start == old(start)
      ensures Step(data, old(start)).Some? ==>
        e == Some(Step(data, old(start)).value.0) && start == Step(data, old(start)).value.1
      ensures e.Some? ==> start > old(start) && start % 4 == 0
      ensures e.Some? ==> [e.value] + Walk(data, start) == Walk(data, old(start))
    {
      if start >= |data| {
        // the source tests `start > data.len()` and would index past the end here
        return None;
      }
      var len := data[start] as nat;
      if start + HEADER_SIZE > start + len {
        return None;
      }
      if start + len > |data| {
        // the source would slice past the end of the region here
        return None;
      }
      var extension := Extension(CurrentTag(), data[start + HEADER_SIZE..start + len]);
      start := start + len;
      start := RoundUp4(start);
      return Some(extension);
    }
  }

  predicate HasExtensions(b: Block) {
    Contains(b.flags, ExtensionTags)
  }

  /** The bytes `extensions()` walks: `data` from the payload size rounded
      up to a multiple of four to the end, only under the flag. The source
      panics on a payload size past 476, hence the requires. */
  function ExtensionRegion(b: Block): (r: Option<seq<byte>>)
    requires HasExtensions(b) ==> b.dataLen <= MAX_PAYLOAD_SIZE
    ensures r.None? <==> !HasExtensions(b)
    ensures r.Some? ==>
      var start := MAX_PAYLOAD_SIZE - |r.value|;
      start % 4 == 0 && b.dataLen <= start < b.dataLen + 4
      && r.value == b.data[start..]
  {
    if HasExtensions(b) then
      var start := RoundUp4(b.dataLen);
      Some(b.data[start..MAX_PAYLOAD_SIZE])
    else None
  }

  /** `Block::extensions`: a fresh cursor at the start of the region. */
  method BlockExtensions(b: Block) returns (r: Option<Extensions>)
    requires HasExtensions(b) ==> b.dataLen <= MAX_PAYLOAD_SIZE
    ensures r.None? <==> !HasExtensions(b)
    ensures r.Some? ==> fresh(r.value) && r.value.data == ExtensionRegion(b).value && r.value.start == 0
  {
    if HasExtensions(b) {
      var start := RoundUp4(b.dataLen);
      var extensions := new Extensions.FromBytes(b.data[start..MAX_PAYLOAD_SIZE]);
      r := Some(extensions);
    } else {
      r := None;
    }
  }

  /** The region start for payload sizes 0 to 4 is 0, 4, 4, 4, 4. */
  lemma RegionStartAligned()
    ensures [RoundUp4(0), RoundUp4(1), RoundUp4(2), RoundUp4(3), RoundUp4(4)] == [0, 4, 4, 4, 4]
  {
  }

  // ----------------------------------------------- the extension unit test

  const SEMVER_RECORD: seq<byte> := [0x09, 0xbc, 0xc7, 0x9f, 0x30, 0x2e, 0x31, 0x2e, 0x32, 0x00, 0x00, 0x00]
  const DESCRIPTION_RECORD: seq<byte> :=
    [0x14, 0x9d, 0x0d, 0x65, 0x41, 0x43, 0x4d, 0x45, 0x20, 0x54, 0x6f,
     0x61, 0x73, 0x74, 0x65, 0x72, 0x20, 0x6d, 0x6b, 0x33]

  /** The block of the unit test: a default block with the extension flag
      and payload size 0, two semver records copied to bytes 0 and 12 of
      `data` and a description record to byte 24. */
  function ExampleBlock(): (b: Block)
    ensures HasExtensions(b) && b.dataLen == 0
  {
    var d := Overwrite(Overwrite(Overwrite(DefaultBlock().data, 0, SEMVER_RECORD), 12, SEMVER_RECORD),
                       24, DESCRIPTION_RECORD);
    DefaultBlock().(flags := Bit(ExtensionTags), dataLen := 0, data := d)
  }

  /** A step over a record laid out at `p` whose length byte is its size. */
  lemma StepOver(region: seq<byte>, p: nat, rec: seq<byte>, ext: Extension)
    requires HEADER_SIZE <= |rec| == rec[0] as nat && p + |rec| <= |region|
    requires region[p..p + |rec|] == rec
    requires ext == Extension(TagFrom(Le24(rec[1..HEADER_SIZE])), rec[HEADER_SIZE..])
    ensures Step(region, p) == Some((ext, RoundUp4(p + |rec|)))
  {
    var window := region[p..p + |rec|];
    assert region[p] == window[0];
    assert region[p + 1..p + HEADER_SIZE] == window[1..HEADER_SIZE] by {
      forall i | 0 <= i < HEADER_SIZE - 1 ensures region[p + 1..p + HEADER_SIZE][i] == window[1..HEADER_SIZE][i] {
        assert region[p + 1 + i] == window[1 + i];
      }
    }
    assert region[p + HEADER_SIZE..p + |rec|] == window[HEADER_SIZE..];
  }

  const SEMVER: Extension := Extension(SemverString, [0x30, 0x2e, 0x31, 0x2e, 0x32])
  const DESCRIPTION: Extension := Extension(DescriptionString,
    [0x41, 0x43, 0x4d, 0x45, 0x20, 0x54, 0x6f, 0x61, 0x73, 0x74, 0x65, 0x72, 0x20, 0x6d, 0x6b, 0x33])

  lemma SemverAt(region: seq<byte>, p: nat)
    requires p + 12 <= |region| && region[p..p + 12] == SEMVER_RECORD
    ensures Step(region, p) == Some((SEMVER, RoundUp4(p + 9)))
  {
    var s := SEMVER_RECORD[..9];
    assert s == [0x09, 0xbc, 0xc7, 0x9f, 0x30, 0x2e, 0x31, 0x2e, 0x32];
    assert s[1..HEADER_SIZE] == [0xbc, 0xc7, 0x9f] && s[HEADER_SIZE..] == SEMVER.data;
    assert Le24(s[1..HEADER_SIZE]) == SEMVER_STRING;
    assert region[p..p + 9] == region[p..p + 12][..9];
    StepOver(region, p, s, SEMVER);
  }

  lemma DescriptionAt(region: seq<byte>, p: nat)
    requires p + 20 <= |region| && region[p..p + 20] == DESCRIPTION_RECORD
    ensures Step(region, p) == Some((DESCRIPTION, RoundUp4(p + 20)))
  {
    var d := DESCRIPTION_RECORD;
    assert d[1..HEADER_SIZE] == [0x9d, 0x0d, 0x65] && d[HEADER_SIZE..] == DESCRIPTION.data;
    assert Le24(d[1..HEADER_SIZE]) == DESCRIPTION_STRING;
    StepOver(region, p, d, DESCRIPTION);
  }

  lemma ExampleLayout()
    ensures ExtensionRegion(ExampleBlock()) == Some(ExampleBlock().data)
    ensures var r := ExampleBlock().data;
      r[..12] == SEMVER_RECORD && r[12..24] == SEMVER_RECORD && r[24..44] == DESCRIPTION_RECORD && r[44] == 0
  {
    var d0 := DefaultBlock().data;
    var d1 := Overwrite(d0, 0, SEMVER_RECORD);
    var d2 := Overwrite(d1, 12, SEMVER_RECORD);
    var r := Overwrite(d2, 24, DESCRIPTION_RECORD);
    assert r == ExampleBlock().data;
    SliceOfPrefix(r, 24, 12, 24);
    SliceOfPrefix(r, 24, 0, 12);
    SliceOfPrefix(d2, 24, 0, 12);
    assert d1[0..12] == d1[..12];
    assert r[44] == r[24 + 20..][0] == d2[44..][0] == d2[44];
    assert d2[44] == d2[24..][20] == d1[24..][20] == d1[44];
    assert d1[44] == d1[12..][32] == d0[12..][32] == d0[44];
  }

  /** The four steps over a region laid out as in the unit test. */
  lemma ExampleSteps(region: seq<byte>)
    requires |region| == MAX_PAYLOAD_SIZE
    requires region[..12] == SEMVER_RECORD && region[12..24] == SEMVER_RECORD
    requires region[24..44] == DESCRIPTION_RECORD && region[44] == 0
    ensures Step(region, 0) == Some((SEMVER, 12))
    ensures Step(region, 12) == Some((SEMVER, 24))
    ensures Step(region, 24) == Some((DESCRIPTION, 44))
    ensures Step(region, 44) == None
  {
    assert region[0..12] == region[..12];
    SemverAt(region, 0);
    SemverAt(region, 12);
    DescriptionAt(region, 24);
  }

  /** The walk over the test block yields exactly semver "0.1.2" twice,
      then description "ACME Toaster mk3". */
  lemma ExampleWalk()
    ensures ExtensionRegion(ExampleBlock()).Some?
    ensures Walk(ExtensionRegion(ExampleBlock()).value, 0) == [SEMVER, SEMVER, DESCRIPTION]
  {
    ExampleLayout();
    var region := ExampleBlock().data;
    ExampleSteps(region);
    assert Walk(region, 44) == [];
    assert Walk(region, 24) == [DESCRIPTION];
    assert Walk(region, 12) == [SEMVER, DESCRIPTION];
  }

  /** The unit test of the extension iterator, run through the cursor: the
      block is filled in as the test fills it, and four calls of `Next`
      give semver "0.1.2" twice, description "ACME Toaster mk3", then the
      end. */
  method BlockExtensionTest() returns (first: Option<Extension>, second: Option<Extension>,
                                       third: Option<Extension>, fourth: Option<Extension>)
    ensures first == Some(SEMVER) && second == Some(SEMVER) && third == Some(DESCRIPTION)
    ensures fourth == None
  {
    var block := DefaultBlock().(flags := Bit(ExtensionTags), dataLen := 0);
    block := CopyIntoData(block, 0, SEMVER_RECORD);
    block := CopyIntoData(block, 12, SEMVER_RECORD);
    block := CopyIntoData(block, 24, DESCRIPTION_RECORD);
    assert block == ExampleBlock();
    ExampleLayout();
    var extensions := BlockExtensions(block);
    var cursor := extensions.value;
    ExampleSteps(cursor.data);
    first := cursor.Next();
    second := cursor.Next();
    third := cursor.Next();
    fourth := cursor.Next();
  }
}
