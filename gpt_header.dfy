/**
 * Building a primary GPT header in a caller's buffer and sealing it with its
 * two CRC-32 checksums.
 *
 * The header is filled in place: the 92 header bytes first, then zeros to the
 * end of the buffer, so a buffer of one whole sector holds a ready-to-write
 * header sector. Sealing is done in two stages because the header checksum
 * covers the entry-array checksum: first partcrc, then crc.
 */
module GptHeaderInit {
  import opened Bytes
  import opened Wrappers
  import opened Crc32
  import opened GptLayout

  /**
   * Header fields that the initialisation takes from its caller and that no
   * fixed rule determines here.
   */
  datatype Placement = Placement(firstUsable: u64, partlba: u64, diskGuid: Guid)

  /**
   * A fresh primary header: it lives at LBA 1, its backup at backupLba; it
   * describes the minimum of 128 entries of 128 bytes; both checksums are
   * still zero.
   */
  function InitialHeader(backupLba: u64, lastUsable: u64, p: Placement): (h: GptHeader)
    ensures h.crc == 0 && h.partcrc == 0
  {
    GptHeader(EfiPartSignature, Revision1, HeaderSize, 0, 0, 1, backupLba,
              p.firstUsable, lastUsable, p.diskGuid, p.partlba,
              MinimumGptEntries, EntrySize, 0)
  }

  /** What a freshly initialised buffer of size bytes holds. */
  function InitialSector(size: nat, backupLba: u64, lastUsable: u64, p: Placement): (r: seq<byte>)
    requires size >= HeaderSize
    ensures |r| == size
  {
    SerializeHeader(InitialHeader(backupLba, lastUsable, p)) + Zeros(size - HeaderSize)
  }

  /**
   * Fills buf with a fresh header followed by zeros. It always succeeds, and
   * the header size stays 92 whatever the size of the buffer.
   */
  method InitializeGpt(buf: array<byte>, backupLba: u64, lastUsable: u64, p: Placement) returns (rc: int)
    requires buf.Length >= HeaderSize
    modifies buf
    ensures rc == 0
    ensures buf[..] == InitialSector(buf.Length, backupLba, lastUsable, p)
  {
    var image := SerializeHeader(InitialHeader(backupLba, lastUsable, p));
    forall i | 0 <= i < buf.Length {
      buf[i] := if i < HeaderSize then image[i] else 0;
    }
    assert buf[..] == InitialSector(buf.Length, backupLba, lastUsable, p) by {
      var expected := InitialSector(buf.Length, backupLba, lastUsable, p);
      forall i | 0 <= i < buf.Length
        ensures buf[..][i] == expected[i]
      {
        if i >= HeaderSize {
          assert expected[i] == Zeros(buf.Length - HeaderSize)[i - HeaderSize];
        }
      }
    }
    rc := 0;
  }

  /**
   * Every field the initialisation fixes, read back from the buffer's bytes:
   * the "EFI PART" signature, revision 1.0, header size 92, reserved zero,
   * this copy at LBA 1, the backup where requested, an entry size that is a
   * positive multiple of 128, at least 128 entries, and zeros from byte 92 on.
   */
  lemma InitialSectorFields(size: nat, backupLba: u64, lastUsable: u64, p: Placement)
    requires size >= HeaderSize
    ensures var s := InitialSector(size, backupLba, lastUsable, p);
      s[0..8] == [0x45, 0x46, 0x49, 0x20, 0x50, 0x41, 0x52, 0x54]
      && Dec32(s[8..12]) == 0x0001_0000
      && Dec32(s[12..16]) == 92
      && Dec32(s[20..24]) == 0
      && Dec64(s[24..32]) == 1
      && Dec64(s[32..40]) == backupLba
      && Dec64(s[48..56]) == lastUsable
      && Dec32(s[84..88]) > 0 && Dec32(s[84..88]) % 128 == 0
      && Dec32(s[80..84]) >= 128
      && forall i :: HeaderSize <= i < size ==> s[i] == 0
  {
    var h := InitialHeader(backupLba, lastUsable, p);
    var s := InitialSector(size, backupLba, lastUsable, p);
    InitialSectorParses(size, backupLba, lastUsable, p);
    assert ParseHeader(s).value == h;
    InitialSignature(size, backupLba, lastUsable, p);
    InitialPadding(size, backupLba, lastUsable, p);
  }

  lemma InitialSignature(size: nat, backupLba: u64, lastUsable: u64, p: Placement)
    requires size >= HeaderSize
    ensures InitialSector(size, backupLba, lastUsable, p)[0..8] == [0x45, 0x46, 0x49, 0x20, 0x50, 0x41, 0x52, 0x54]
  {
    var h := InitialHeader(backupLba, lastUsable, p);
    var s := InitialSector(size, backupLba, lastUsable, p);
    HeaderFieldOffsets(h);
    EfiPartSignatureBytes();
    assert s[0..8] == SerializeHeader(h)[0..8];
  }

  lemma InitialPadding(size: nat, backupLba: u64, lastUsable: u64, p: Placement)
    requires size >= HeaderSize
    ensures var s := InitialSector(size, backupLba, lastUsable, p);
      forall i :: HeaderSize <= i < size ==> s[i] == 0
  {
    var s := InitialSector(size, backupLba, lastUsable, p);
    forall i | HeaderSize <= i < size
      ensures s[i] == 0
    {
      assert s[i] == Zeros(size - HeaderSize)[i - HeaderSize];
    }
  }

  /** The header in a freshly initialised buffer parses back to the fresh header. */
  lemma InitialSectorParses(size: nat, backupLba: u64, lastUsable: u64, p: Placement)
    requires size >= HeaderSize
    ensures ParseHeader(InitialSector(size, backupLba, lastUsable, p)) == Some(InitialHeader(backupLba, lastUsable, p))
  {
    var h := InitialHeader(backupLba, lastUsable, p);
    var s := InitialSector(size, backupLba, lastUsable, p);
    ParseSerializeHeader(h);
    HeaderPrefixParses(s, SerializeHeader(h));
  }

  /** Parsing reads the first 92 bytes and nothing after them. */
  lemma HeaderPrefixParses(s: seq<byte>, image: seq<byte>)
    requires |image| == HeaderSize && |s| >= HeaderSize && s[..HeaderSize] == image
    ensures ParseHeader(s) == ParseHeader(image)
  {
    assert s[0..8] == image[0..8] && s[8..12] == image[8..12] && s[12..16] == image[12..16];
    assert s[16..20] == image[16..20] && s[20..24] == image[20..24] && s[24..32] == image[24..32];
    assert s[32..40] == image[32..40] && s[40..48] == image[40..48] && s[48..56] == image[48..56];
    assert s[56..72] == image[56..72] && s[72..80] == image[72..80] && s[80..84] == image[80..84];
    assert s[84..88] == image[84..88] && s[88..92] == image[88..92];
  }

  /*
   * Checksums
   */

  /** The number of entry-array bytes a header's checksum covers. */
  function ArrayLength(h: GptHeader): nat {
    h.partcount * h.partsize
  }

  /** The header checksum: CRC-32 of the 92 header bytes with the crc field zero. */
  function HeaderCrc(h: GptHeader): u32 {
    Crc(SerializeHeader(h.(crc := 0)))
  }

  /** A header whose stored checksums match its own bytes and the entry array. */
  predicate Sealed(h: GptHeader, entries: seq<byte>) {
    |entries| >= ArrayLength(h)
    && h.partcrc == Crc(entries[..ArrayLength(h)])
    && h.crc == HeaderCrc(h)
  }

  /** The header with both checksums recomputed: partcrc first, then crc over it. */
  function Seal(h: GptHeader, entries: seq<byte>): (r: GptHeader)
    requires |entries| >= ArrayLength(h)
    ensures Sealed(r, entries)
    ensures r.(crc := h.crc, partcrc := h.partcrc) == h
  {
    var withPart := h.(partcrc := Crc(entries[..ArrayLength(h)]));
    withPart.(crc := HeaderCrc(withPart))
  }

  /** Sealing a sealed header changes nothing: the crc field is zeroed before it is summed. */
  lemma SealIdempotent(h: GptHeader, entries: seq<byte>)
    requires Sealed(h, entries)
    ensures Seal(h, entries) == h
  {
  }

  /** Sealing twice is sealing once. */
  lemma SealTwice(h: GptHeader, entries: seq<byte>)
    requires |entries| >= ArrayLength(h)
    ensures Seal(Seal(h, entries), entries) == Seal(h, entries)
  {
    SealIdempotent(Seal(h, entries), entries);
  }

  /** The header's bytes with the crc field replaced. */
  lemma SerializeWithCrc(h: GptHeader, c: u32)
    ensures SerializeHeader(h.(crc := c)) == SerializeHeader(h)[..16] + Le32(c) + SerializeHeader(h)[20..]
  {
    var head := HeaderHead(h);
    var rest := HeaderRest(h);
    CrcFieldSplit(h);
    CrcFieldSplit(h.(crc := c));
    var a := head + Le32(h.crc) + rest;
    assert a[..16] == head;
    assert a[20..] == rest;
  }

  /** The sixteen bytes in front of the crc field. */
  function HeaderHead(h: GptHeader): (r: seq<byte>)
    ensures |r| == 16
  {
    Le64(h.signature) + Le32(h.revision) + Le32(h.headsize)
  }

  /** The 72 bytes after the crc field. */
  function HeaderRest(h: GptHeader): (r: seq<byte>)
    ensures |r| == 72
  {
    Le32(h.reserved) + Le64(h.lba) + Le64(h.backuplba) + Le64(h.firstUsable)
    + Le64(h.lastUsable) + h.diskGuid + Le64(h.partlba) + Le32(h.partcount)
    + Le32(h.partsize) + Le32(h.partcrc)
  }

  /** A serialised header is its head, its crc field and the rest. */
  lemma CrcFieldSplit(h: GptHeader)
    ensures SerializeHeader(h) == HeaderHead(h) + Le32(h.crc) + HeaderRest(h)
  {
  }

  /** Zeroing the crc field leaves every byte outside bytes 16..20 as it was. */
  lemma ZeroCrcKeeps(h: GptHeader, j: nat)
    requires j < HeaderSize && !(16 <= j < 20)
    ensures SerializeHeader(h.(crc := 0))[j] == SerializeHeader(h)[j]
  {
    CrcFieldSplit(h);
    CrcFieldSplit(h.(crc := 0));
  }

  /** The header's bytes with the partcrc field replaced. */
  lemma SerializeWithPartCrc(h: GptHeader, c: u32)
    ensures SerializeHeader(h.(partcrc := c)) == SerializeHeader(h)[..88] + Le32(c)
  {
    var a := SerializeHeader(h);
    var b := SerializeHeader(h.(partcrc := c));
    HeaderFieldOffsets(h);
    HeaderFieldOffsets(h.(partcrc := c));
    assert b[..88] == a[..88] by {
      assert b[..88] == b[0..8] + b[8..12] + b[12..16] + b[16..20] + b[20..24] + b[24..32] + b[32..40]
        + b[40..48] + b[48..56] + b[56..72] + b[72..80] + b[80..84] + b[84..88];
      assert a[..88] == a[0..8] + a[8..12] + a[12..16] + a[16..20] + a[20..24] + a[24..32] + a[32..40]
        + a[40..48] + a[48..56] + a[56..72] + a[72..80] + a[80..84] + a[84..88];
    }
    assert b == b[..88] + b[88..92];
  }

  /** Writes bytes v into buf at offset at. */
  method Store(buf: array<byte>, at: nat, v: seq<byte>)
    requires at + |v| <= buf.Length
    modifies buf
    ensures buf[..] == old(buf[..at]) + v + old(buf[at + |v|..])
  {
    forall i | at <= i < at + |v| {
      buf[i] := v[i - at];
    }
    assert buf[..] == old(buf[..at]) + v + old(buf[at + |v|..]) by {
      var expected := old(buf[..at]) + v + old(buf[at + |v|..]);
      forall i | 0 <= i < buf.Length
        ensures buf[i] == expected[i]
      {
        if i >= at + |v| {
          assert expected[i] == old(buf[at + |v|..])[i - at - |v|];
        }
      }
    }
  }

  /**
   * Stores both checksums into the header at the start of hdr: the CRC-32 of
   * the entry array into partcrc, and then the CRC-32 of the 92 header bytes,
   * taken with crc zero, into crc. Bytes after the header are untouched.
   */
  method UpdateCrc(hdr: array<byte>, entries: seq<byte>)
    requires hdr.Length >= HeaderSize
    requires |entries| >= ArrayLength(ParseHeader(hdr[..]).value)
    modifies hdr
    ensures hdr[..HeaderSize] == SerializeHeader(Seal(ParseHeader(old(hdr[..])).value, entries))
    ensures hdr[HeaderSize..] == old(hdr[HeaderSize..])
  {
    var h := ParseHeader(hdr[..]).value;
    SerializeParseHeader(hdr[..]);
    ghost var tail := hdr[HeaderSize..];
    assert hdr[..] == SerializeHeader(h) + tail;

    // Stage one: the entry-array checksum.
    var partcrc := Crc(entries[..ArrayLength(h)]);
    Store(hdr, 88, Le32(partcrc));
    var withPart := h.(partcrc := partcrc);
    StorePartCrc(h, partcrc, tail);

    // Stage two: the header checksum, over the header as it now stands.
    var image := hdr[..HeaderSize];
    var crc := Crc(image[..16] + Le32(0) + image[20..]);
    ImageCrc(withPart, image);
    Store(hdr, 16, Le32(crc));
    StoreCrc(withPart, crc, tail);
  }

  /** Overwriting bytes 88..92 of a stored header rewrites its partcrc field. */
  lemma StorePartCrc(h: GptHeader, c: u32, tail: seq<byte>)
    ensures var s := SerializeHeader(h) + tail;
      s[..88] + Le32(c) + s[92..] == SerializeHeader(h.(partcrc := c)) + tail
  {
    var s := SerializeHeader(h) + tail;
    SerializeWithPartCrc(h, c);
    assert s[..88] == SerializeHeader(h)[..88];
    assert s[92..] == tail;
  }

  /** Overwriting bytes 16..20 of a stored header rewrites its crc field. */
  lemma StoreCrc(h: GptHeader, c: u32, tail: seq<byte>)
    ensures var s := SerializeHeader(h) + tail;
      s[..16] + Le32(c) + s[20..] == SerializeHeader(h.(crc := c)) + tail
  {
    var s := SerializeHeader(h) + tail;
    SerializeWithCrc(h, c);
    assert s[..16] == SerializeHeader(h)[..16];
    assert s[20..] == SerializeHeader(h)[20..] + tail;
  }

  /** The sum taken over a header's bytes with bytes 16..20 zeroed is its header checksum. */
  lemma ImageCrc(h: GptHeader, image: seq<byte>)
    requires image == SerializeHeader(h)
    ensures Crc(image[..16] + Le32(0) + image[20..]) == HeaderCrc(h)
  {
    SerializeWithCrc(h, 0);
  }

  /*
   * What the checksums protect
   */

  /** Any one corrupted byte in the covered part of the entry array breaks the seal. */
  lemma EntryCorruptionDetected(h: GptHeader, entries: seq<byte>, bad: seq<byte>, i: nat)
    requires Sealed(h, entries)
    requires |bad| == |entries| && i < ArrayLength(h) && bad[i] != entries[i]
    requires forall j :: 0 <= j < |entries| && j != i ==> bad[j] == entries[j]
    ensures !Sealed(h, bad)
  {
    var n := ArrayLength(h);
    SingleByteChangeDetected(entries[..n], bad[..n], i);
  }

  /**
   * Any one corrupted byte of a sealed header, outside the crc field itself,
   * makes the header checksum fail when the header is read back.
   */
  lemma HeaderCorruptionDetected(h: GptHeader, bad: seq<byte>, i: nat)
    requires h.crc == HeaderCrc(h)
    requires |bad| == HeaderSize && i < HeaderSize && !(16 <= i < 20)
    requires bad[i] != SerializeHeader(h)[i]
    requires forall j :: 0 <= j < HeaderSize && j != i ==> bad[j] == SerializeHeader(h)[j]
    ensures var g := ParseHeader(bad).value; g.crc != HeaderCrc(g)
  {
    var g := ParseHeader(bad).value;
    ReadBackKeepsCrc(h, bad, i);
    var zs := SerializeHeader(h.(crc := 0));
    var zb := SerializeHeader(g.(crc := 0));
    ZeroedDifferAt(h, g, i);
    SingleByteChangeDetected(zs, zb, i);
  }

  /**
   * Header bytes corrupted outside the crc field read back as a header that
   * serialises to those bytes and still carries the original crc.
   */
  lemma ReadBackKeepsCrc(h: GptHeader, bad: seq<byte>, i: nat)
    requires |bad| == HeaderSize && i < HeaderSize && !(16 <= i < 20)
    requires forall j :: 0 <= j < HeaderSize && j != i ==> bad[j] == SerializeHeader(h)[j]
    ensures var g := ParseHeader(bad).value; SerializeHeader(g) == bad && g.crc == h.crc
  {
    var s := SerializeHeader(h);
    var g := ParseHeader(bad).value;
    SerializeParseHeader(bad);
    assert bad[..HeaderSize] == bad;
    HeaderFieldOffsets(h);
    assert bad[16..20] == s[16..20];
    DecodeEncode(h.crc, 4);
  }

  /**
   * Two headers whose bytes differ at position i alone, outside the crc
   * field, still differ there alone once both crc fields are zeroed.
   */
  lemma ZeroedDifferAt(h: GptHeader, g: GptHeader, i: nat)
    requires i < HeaderSize && !(16 <= i < 20)
    requires SerializeHeader(g)[i] != SerializeHeader(h)[i]
    requires forall j :: 0 <= j < HeaderSize && j != i ==> SerializeHeader(g)[j] == SerializeHeader(h)[j]
    ensures var zs, zb := SerializeHeader(h.(crc := 0)), SerializeHeader(g.(crc := 0));
      zb[i] != zs[i] && forall j :: 0 <= j < HeaderSize && j != i ==> zb[j] == zs[j]
  {
    var zs := SerializeHeader(h.(crc := 0));
    var zb := SerializeHeader(g.(crc := 0));
    ZeroCrcKeeps(h, i);
    ZeroCrcKeeps(g, i);
    forall j | 0 <= j < HeaderSize && j != i
      ensures zb[j] == zs[j]
    {
      if !(16 <= j < 20) {
        ZeroCrcKeeps(h, j);
        ZeroCrcKeeps(g, j);
      }
    }
  }
}
