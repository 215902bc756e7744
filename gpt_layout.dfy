/**
 * Byte-exact on-disk structures of a GUID Partition Table: the protective MBR
 * written at offset 440 of sector 0, the 92-byte GPT header (section 5.3.2 of
 * the UEFI Specification 2.3.1) and the 128-byte partition entry (section
 * 5.3.3). The source declares the header and the entry as packed C structs on
 * a little-endian host; here each is a datatype with explicit serialise and
 * parse functions, so the wire format does not depend on any memory layout.
 */
module GptLayout {
  import opened Bytes
  import opened Wrappers

  const LbaSize: nat := 512
  const MbrOffset: nat := 440
  const GuidSize: nat := 16
  const HeaderSize: nat := 92
  const EntrySize: nat := 128
  const NameUnits: nat := 36
  const MinimumGptEntries: nat := 128

  type Guid = s: seq<byte> | |s| == GuidSize witness Zeros(16)

  /** A partition name: 36 UTF-16LE code units, NUL-padded. */
  type PartitionName = s: seq<u16> | |s| == NameUnits witness seq(36, _ => 0)

  /*
   * Protective MBR
   */

  /**
   * The 72 bytes written from offset 440 to the end of sector 0: six zero
   * bytes, one partition record of type 0xEE, three empty records and the
   * 0x55 0xAA boot signature. The record deliberately departs from section
   * 5.2.3 of the UEFI Specification: it is marked bootable (0x80), starts at
   * LBA 0 and claims 0xFFFFFFFF sectors whatever the disk's size.
   */
  function ProtectiveMbr(): (r: seq<byte>)
    ensures |r| == LbaSize - MbrOffset
  {
    Zeros(6)
    + [0x80]                // boot indicator
    + [0x00, 0x00, 0x00]    // CHS address of the first sector
    + [0xEE]                // partition type: GPT protective
    + [0xFF, 0xFF, 0xFF]    // CHS address of the last sector
    + Le32(0)               // first LBA
    + Le32(0xFFFF_FFFF)     // number of sectors
    + Zeros(48)             // partition records 2 to 4, unused
    + [0x55, 0xAA]          // boot signature
  }

  /** Byte-by-byte content of the protective MBR tail. */
  lemma ProtectiveMbrBytes()
    ensures var r := ProtectiveMbr();
      |r| == 72
      && (forall i :: 0 <= i < 6 ==> r[i] == 0)
      && r[6] == 0x80
      && r[7] == 0 && r[8] == 0 && r[9] == 0
      && r[10] == 0xEE
      && r[11] == 0xFF && r[12] == 0xFF && r[13] == 0xFF
      && r[14] == 0 && r[15] == 0 && r[16] == 0 && r[17] == 0
      && r[18] == 0xFF && r[19] == 0xFF && r[20] == 0xFF && r[21] == 0xFF
      && (forall i :: 22 <= i < 70 ==> r[i] == 0)
      && r[70] == 0x55 && r[71] == 0xAA
  {
    var r := ProtectiveMbr();
    assert Le32(0) == [0, 0, 0, 0];
    assert Le32(0xFFFF_FFFF) == [0xFF, 0xFF, 0xFF, 0xFF];
    assert r[22..70] == Zeros(48);
  }

  /**
   * Read back as an MBR partition record, the first record of the tail
   * starts at LBA 0 and spans 0xFFFFFFFF sectors.
   */
  lemma ProtectiveMbrRecord()
    ensures Dec32(ProtectiveMbr()[14..18]) == 0
    ensures Dec32(ProtectiveMbr()[18..22]) == 0xFFFF_FFFF
  {
    var r := ProtectiveMbr();
    assert r[14..18] == Le32(0);
    assert r[18..22] == Le32(0xFFFF_FFFF);
    DecodeEncode(0, 4);
    DecodeEncode(0xFFFF_FFFF, 4);
  }

  /*
   * GPT header
   */

  /** The header signature "EFI PART" read as a little-endian 64-bit integer. */
  const EfiPartSignature: u64 := 0x5452_4150_2049_4645

  /** Revision 1.0 of the header format. */
  const Revision1: u32 := 0x0001_0000

  datatype GptHeader = GptHeader(
    signature: u64,
    revision: u32,
    headsize: u32,
    crc: u32,
    reserved: u32,
    lba: u64,
    backuplba: u64,
    firstUsable: u64,
    lastUsable: u64,
    diskGuid: Guid,
    partlba: u64,
    partcount: u32,
    partsize: u32,
    partcrc: u32)

  /** The 92-byte little-endian wire form of a header. */
  function SerializeHeader(h: GptHeader): (r: seq<byte>)
    ensures |r| == HeaderSize
  {
    Le64(h.signature) + Le32(h.revision) + Le32(h.headsize) + Le32(h.crc)
    + Le32(h.reserved) + Le64(h.lba) + Le64(h.backuplba) + Le64(h.firstUsable)
    + Le64(h.lastUsable) + h.diskGuid + Le64(h.partlba) + Le32(h.partcount)
    + Le32(h.partsize) + Le32(h.partcrc)
  }

  /** Reads a header from the first 92 bytes of s. */
  function ParseHeader(s: seq<byte>): (r: Option<GptHeader>)
    ensures r.Some? <==> |s| >= HeaderSize
  {
    if |s| < HeaderSize then None
    else Some(GptHeader(
      Dec64(s[0..8]), Dec32(s[8..12]), Dec32(s[12..16]), Dec32(s[16..20]),
      Dec32(s[20..24]), Dec64(s[24..32]), Dec64(s[32..40]), Dec64(s[40..48]),
      Dec64(s[48..56]), s[56..72], Dec64(s[72..80]), Dec32(s[80..84]),
      Dec32(s[84..88]), Dec32(s[88..92])))
  }

  /** Where each header field sits in the wire form, and how it is encoded. */
  lemma HeaderFieldOffsets(h: GptHeader)
    ensures var r := SerializeHeader(h);
      r[0..8] == Le64(h.signature) && r[8..12] == Le32(h.revision)
      && r[12..16] == Le32(h.headsize) && r[16..20] == Le32(h.crc)
      && r[20..24] == Le32(h.reserved) && r[24..32] == Le64(h.lba)
      && r[32..40] == Le64(h.backuplba) && r[40..48] == Le64(h.firstUsable)
      && r[48..56] == Le64(h.lastUsable) && r[56..72] == h.diskGuid
      && r[72..80] == Le64(h.partlba) && r[80..84] == Le32(h.partcount)
      && r[84..88] == Le32(h.partsize) && r[88..92] == Le32(h.partcrc)
  {
  }

  /** Parsing a serialised header gives every field back. */
  lemma ParseSerializeHeader(h: GptHeader)
    ensures ParseHeader(SerializeHeader(h)) == Some(h)
  {
    HeaderFieldOffsets(h);
    DecodeEncode(h.signature, 8);
    DecodeEncode(h.revision, 4);
    DecodeEncode(h.headsize, 4);
    DecodeEncode(h.crc, 4);
    DecodeEncode(h.reserved, 4);
    DecodeEncode(h.lba, 8);
    DecodeEncode(h.backuplba, 8);
    DecodeEncode(h.firstUsable, 8);
    DecodeEncode(h.lastUsable, 8);
    DecodeEncode(h.partlba, 8);
    DecodeEncode(h.partcount, 4);
    DecodeEncode(h.partsize, 4);
    DecodeEncode(h.partcrc, 4);
  }

  /** Serialising a parsed header gives back exactly the 92 bytes it was read from. */
  lemma SerializeParseHeader(s: seq<byte>)
    requires |s| >= HeaderSize
    ensures SerializeHeader(ParseHeader(s).value) == s[..HeaderSize]
  {
    var h := ParseHeader(s).value;
    EncodeDecode(s[0..8]);
    EncodeDecode(s[8..12]);
    EncodeDecode(s[12..16]);
    EncodeDecode(s[16..20]);
    EncodeDecode(s[20..24]);
    EncodeDecode(s[24..32]);
    EncodeDecode(s[32..40]);
    EncodeDecode(s[40..48]);
    EncodeDecode(s[48..56]);
    EncodeDecode(s[72..80]);
    EncodeDecode(s[80..84]);
    EncodeDecode(s[84..88]);
    EncodeDecode(s[88..92]);
    var t := Le64(h.signature);
    assert t == s[..8];
    t := t + Le32(h.revision);
    assert t == s[..12] by { PrefixGrows(s, 8, 12); }
    t := t + Le32(h.headsize);
    assert t == s[..16] by { PrefixGrows(s, 12, 16); }
    t := t + Le32(h.crc);
    assert t == s[..20] by { PrefixGrows(s, 16, 20); }
    t := t + Le32(h.reserved);
    assert t == s[..24] by { PrefixGrows(s, 20, 24); }
    t := t + Le64(h.lba);
    assert t == s[..32] by { PrefixGrows(s, 24, 32); }
    t := t + Le64(h.backuplba);
    assert t == s[..40] by { PrefixGrows(s, 32, 40); }
    t := t + Le64(h.firstUsable);
    assert t == s[..48] by { PrefixGrows(s, 40, 48); }
    t := t + Le64(h.lastUsable);
    assert t == s[..56] by { PrefixGrows(s, 48, 56); }
    t := t + h.diskGuid;
    assert t == s[..72] by { PrefixGrows(s, 56, 72); }
    t := t + Le64(h.partlba);
    assert t == s[..80] by { PrefixGrows(s, 72, 80); }
    t := t + Le32(h.partcount);
    assert t == s[..84] by { PrefixGrows(s, 80, 84); }
    t := t + Le32(h.partsize);
    assert t == s[..88] by { PrefixGrows(s, 84, 88); }
    t := t + Le32(h.partcrc);
    assert t == s[..92] by { PrefixGrows(s, 88, 92); }
  }

  /** A prefix of s grows by the slice that follows it. */
  lemma PrefixGrows(s: seq<byte>, a: nat, b: nat)
    requires a <= b <= |s|
    ensures s[..b] == s[..a] + s[a..b]
  {
  }

  /** The signature constant is the ASCII text "EFI PART" on disk. */
  lemma EfiPartSignatureBytes()
    ensures Le64(EfiPartSignature) == [0x45, 0x46, 0x49, 0x20, 0x50, 0x41, 0x52, 0x54]
  {
    assert LittleEndian(0x54, 1) == [0x54];
    assert LittleEndian(0x5452, 2) == [0x52, 0x54];
    assert LittleEndian(0x54_5241, 3) == [0x41, 0x52, 0x54];
    assert LittleEndian(0x5452_4150, 4) == [0x50, 0x41, 0x52, 0x54];
    assert LittleEndian(0x54_5241_5020, 5) == [0x20, 0x50, 0x41, 0x52, 0x54];
    assert LittleEndian(0x5452_4150_2049, 6) == [0x49, 0x20, 0x50, 0x41, 0x52, 0x54];
    assert LittleEndian(0x54_5241_5020_4946, 7) == [0x46, 0x49, 0x20, 0x50, 0x41, 0x52, 0x54];
  }

  /*
   * GPT partition entry
   */

  datatype GptEntry = GptEntry(
    typeGuid: Guid,
    partGuid: Guid,
    firstLba: u64,
    lastLba: u64,
    flags: u64,
    name: PartitionName)

  /** UTF-16LE code units, each as two little-endian bytes. */
  function SerializeName(n: seq<u16>): (r: seq<byte>)
    ensures |r| == 2 * |n|
  {
    if n == [] then [] else Le16(n[0]) + SerializeName(n[1..])
  }

  function ParseName(s: seq<byte>): (r: seq<u16>)
    requires |s| % 2 == 0
    ensures |r| == |s| / 2
  {
    if s == [] then [] else [Dec16(s[..2])] + ParseName(s[2..])
  }

  lemma {:induction false} ParseSerializeName(n: seq<u16>)
    ensures ParseName(SerializeName(n)) == n
  {
    if n != [] {
      var r := SerializeName(n);
      assert r[..2] == Le16(n[0]) && r[2..] == SerializeName(n[1..]);
      DecodeEncode(n[0], 2);
      ParseSerializeName(n[1..]);
    }
  }

  lemma {:induction false} SerializeParseName(s: seq<byte>)
    requires |s| % 2 == 0
    ensures SerializeName(ParseName(s)) == s
  {
    if s != [] {
      var n := ParseName(s);
      assert n[0] == Dec16(s[..2]) && n[1..] == ParseName(s[2..]);
      EncodeDecode(s[..2]);
      SerializeParseName(s[2..]);
      assert s == s[..2] + s[2..];
    }
  }

  /** The 128-byte little-endian wire form of a partition entry. */
  function SerializeEntry(e: GptEntry): (r: seq<byte>)
    ensures |r| == EntrySize
  {
    e.typeGuid + e.partGuid + Le64(e.firstLba) + Le64(e.lastLba) + Le64(e.flags)
    + SerializeName(e.name)
  }

  /** Reads a partition entry from the first 128 bytes of s. */
  function ParseEntry(s: seq<byte>): (r: Option<GptEntry>)
    ensures r.Some? <==> |s| >= EntrySize
  {
    if |s| < EntrySize then None
    else Some(GptEntry(
      s[0..16], s[16..32], Dec64(s[32..40]), Dec64(s[40..48]), Dec64(s[48..56]),
      ParseName(s[56..128])))
  }

  /** Where each entry field sits in the wire form, and how it is encoded. */
  lemma EntryFieldOffsets(e: GptEntry)
    ensures var r := SerializeEntry(e);
      r[0..16] == e.typeGuid && r[16..32] == e.partGuid
      && r[32..40] == Le64(e.firstLba) && r[40..48] == Le64(e.lastLba)
      && r[48..56] == Le64(e.flags) && r[56..128] == SerializeName(e.name)
  {
  }

  /** Parsing a serialised entry gives every field back. */
  lemma ParseSerializeEntry(e: GptEntry)
    ensures ParseEntry(SerializeEntry(e)) == Some(e)
  {
    EntryFieldOffsets(e);
    DecodeEncode(e.firstLba, 8);
    DecodeEncode(e.lastLba, 8);
    DecodeEncode(e.flags, 8);
    ParseSerializeName(e.name);
  }

  /** Serialising a parsed entry gives back exactly the 128 bytes it was read from. */
  lemma SerializeParseEntry(s: seq<byte>)
    requires |s| >= EntrySize
    ensures SerializeEntry(ParseEntry(s).value) == s[..EntrySize]
  {
    EncodeDecode(s[32..40]);
    EncodeDecode(s[40..48]);
    EncodeDecode(s[48..56]);
    SerializeParseName(s[56..128]);
    assert s[..EntrySize] == s[0..16] + s[16..32] + s[32..40] + s[40..48] + s[48..56] + s[56..128];
  }

  /*
   * Partition-entry array
   */

  /** An unused slot: every field zero. */
  const EmptyEntry: GptEntry := GptEntry(Zeros(16), Zeros(16), 0, 0, 0, seq(36, _ => 0))

  /** An entry array: the entries' wire forms back to back. */
  function SerializeEntries(es: seq<GptEntry>): (r: seq<byte>)
    ensures |r| == EntrySize * |es|
  {
    if es == [] then [] else SerializeEntry(es[0]) + SerializeEntries(es[1..])
  }

  /** Reads consecutive 128-byte entries. */
  function ParseEntries(s: seq<byte>): (r: seq<GptEntry>)
    requires |s| % EntrySize == 0
    ensures |r| == |s| / EntrySize
  {
    if s == [] then [] else [ParseEntry(s).value] + ParseEntries(s[EntrySize..])
  }

  lemma {:induction false} ParseSerializeEntries(es: seq<GptEntry>)
    ensures ParseEntries(SerializeEntries(es)) == es
  {
    if es != [] {
      var r := SerializeEntries(es);
      assert r[..EntrySize] == SerializeEntry(es[0]);
      assert r[EntrySize..] == SerializeEntries(es[1..]);
      ParseSerializeEntry(es[0]);
      ParseEntryPrefix(r);
      ParseSerializeEntries(es[1..]);
    }
  }

  lemma {:induction false} SerializeParseEntries(s: seq<byte>)
    requires |s| % EntrySize == 0
    ensures SerializeEntries(ParseEntries(s)) == s
  {
    if s != [] {
      SerializeParseEntry(s);
      SerializeParseEntries(s[EntrySize..]);
      assert s == s[..EntrySize] + s[EntrySize..];
    }
  }

  /** Parsing an entry reads its first 128 bytes and nothing after them. */
  lemma ParseEntryPrefix(s: seq<byte>)
    requires |s| >= EntrySize
    ensures ParseEntry(s) == ParseEntry(s[..EntrySize])
  {
    var p := s[..EntrySize];
    assert s[0..16] == p[0..16] && s[16..32] == p[16..32];
    assert s[32..40] == p[32..40] && s[40..48] == p[40..48] && s[48..56] == p[48..56];
    assert s[56..128] == p[56..128];
  }

  /** An unused slot is 128 zero bytes. */
  lemma EmptyEntryIsZero()
    ensures SerializeEntry(EmptyEntry) == Zeros(EntrySize)
  {
    LittleEndianZero(8);
    EmptyNameIsZero(seq(36, _ => 0));
  }

  lemma {:induction false} EmptyNameIsZero(n: seq<u16>)
    requires forall i :: 0 <= i < |n| ==> n[i] == 0
    ensures SerializeName(n) == Zeros(2 * |n|)
  {
    if n != [] {
      LittleEndianZero(2);
      EmptyNameIsZero(n[1..]);
    }
  }

  /** An array of k unused slots is 128 * k zero bytes. */
  lemma {:induction false} EmptyEntriesAreZero(k: nat)
    ensures SerializeEntries(seq(k, _ => EmptyEntry)) == Zeros(EntrySize * k)
  {
    if k > 0 {
      var es := seq(k, _ => EmptyEntry);
      assert es[1..] == seq(k - 1, _ => EmptyEntry);
      EmptyEntryIsZero();
      EmptyEntriesAreZero(k - 1);
    }
  }
}
