/**
 * Creating and zapping a GUID Partition Table on a block device.
 *
 * A device descriptor carries what the scanner found on the device; the
 * device's contents are an open-able byte sequence whose open, seek, write
 * and close can each fail. What the operating system answers to each call is
 * a parameter (IoAnswers), so every failure path can be reached.
 */
module GptDisk {
  import opened Bytes
  import opened Wrappers
  import opened GptLayout

  /** What occupies a device as a whole. */
  datatype Layout = LayoutNone | LayoutMdadm | LayoutZpool | LayoutPartition

  /** A block device as the scanner describes it; size is in bytes. */
  datatype Device = Device(name: string, size: u64, layout: Layout, pttable: Option<string>)

  /**
   * The smallest disk that can hold a protective MBR plus two copies of a
   * GPT (header sector and room for 128 entries each).
   */
  const MinimumDiskSize: nat := LbaSize + 2 * (LbaSize + MinimumGptEntries * EntrySize)

  lemma MinimumDiskSizeValue()
    ensures MinimumDiskSize == 34304
  {
  }

  /** Why a GPT is not created on a device, in the order the checks are made. */
  datatype Refusal = NotADisk | Misaligned | TooSmall

  /** The checks made before the device is touched; None means all pass. */
  function CreateRefusal(d: Device): (r: Option<Refusal>)
    ensures r.None? <==> d.layout == LayoutNone && d.size % LbaSize == 0 && d.size >= MinimumDiskSize
    ensures r == Some(NotADisk) <==> d.layout != LayoutNone
    ensures r == Some(Misaligned) <==> d.layout == LayoutNone && d.size % LbaSize != 0
  {
    if d.layout != LayoutNone then Some(NotADisk)
    else if d.size % LbaSize != 0 then Some(Misaligned)
    else if d.size < MinimumDiskSize then Some(TooSmall)
    else None
  }

  /** A raw disk of exactly the minimum size passes every check. */
  lemma SmallestDiskAccepted(name: string, pt: Option<string>)
    ensures CreateRefusal(Device(name, 34304, LayoutNone, pt)) == None
  {
  }

  /** One byte less and it is refused (it is then also misaligned). */
  lemma OneByteShortRefused(name: string, pt: Option<string>)
    ensures CreateRefusal(Device(name, 34303, LayoutNone, pt)).Some?
  {
  }

  /** The largest aligned size below the minimum is refused as too small. */
  lemma OneSectorShortRefused(name: string, pt: Option<string>)
    ensures CreateRefusal(Device(name, 34304 - 512, LayoutNone, pt)) == Some(TooSmall)
  {
  }

  /*
   * Device contents and the system calls on them
   */

  /** How many bytes a write of want bytes at offset transfers, or -1 on error. */
  function WriteCount(size: nat, offset: nat, want: nat, answer: int): (n: int)
    ensures answer < 0 ==> n == -1
    ensures answer >= 0 ==> 0 <= n <= want && n <= answer
    ensures answer >= 0 && offset > size ==> n == 0
    ensures answer >= 0 && offset <= size ==>
      offset + n <= size && (n == want <==> answer >= want && offset + want <= size)
  {
    if answer < 0 then -1
    else if offset >= size then 0
    else Min(Min(answer, want), size - offset)
  }

  function Min(a: int, b: int): int {
    if a <= b then a else b
  }

  /** bytes with the first n bytes of data written at offset. */
  function Overwrite(bytes: seq<byte>, offset: nat, data: seq<byte>, n: nat): (r: seq<byte>)
    requires n <= |data| && offset + n <= |bytes|
    ensures |r| == |bytes|
    ensures r[offset..offset + n] == data[..n]
    ensures r[..offset] == bytes[..offset] && r[offset + n..] == bytes[offset + n..]
  {
    bytes[..offset] + data[..n] + bytes[offset + n..]
  }

  /** The contents of a device, reached through at most one open descriptor. */
  class Disk {
    var bytes: seq<byte>
    var isOpen: bool
    var offset: nat
    /** How many times the device has been opened. */
    ghost var opens: nat

    constructor(contents: seq<byte>)
      ensures bytes == contents && !isOpen && offset == 0 && opens == 0
    {
      bytes := contents;
      isOpen := false;
      offset := 0;
      opens := 0;
    }

    /** Opens the device for reading and writing; ok is the system's answer. */
    method Open(ok: bool) returns (success: bool)
      modifies this
      ensures success == ok && isOpen == ok && offset == 0 && bytes == old(bytes)
      ensures opens == old(opens) + 1
    {
      opens := opens + 1;
      isOpen := ok;
      offset := 0;
      success := ok;
    }

    /** Sets the file offset; landed is the offset the system reports, negative on error. */
    method Seek(target: nat, landed: int) returns (pos: int)
      requires isOpen
      modifies this
      ensures pos == landed
      ensures offset == (if landed >= 0 then landed else old(offset))
      ensures isOpen && bytes == old(bytes) && opens == old(opens)
    {
      if landed >= 0 {
        offset := landed;
      }
      pos := landed;
    }

    /**
     * Writes data at the file offset. answer is how many bytes the system
     * would take (negative on error); no write reaches past the end of the
     * device, so a write there is short.
     */
    method Write(data: seq<byte>, answer: int) returns (n: int)
      requires isOpen
      modifies this
      ensures n == WriteCount(|old(bytes)|, old(offset), |data|, answer)
      ensures bytes == (if n > 0 then Overwrite(old(bytes), old(offset), data, n) else old(bytes))
      ensures offset == old(offset) + (if n > 0 then n else 0)
      ensures isOpen && opens == old(opens)
    {
      n := WriteCount(|bytes|, offset, |data|, answer);
      if n > 0 {
        bytes := bytes[..offset] + data[..n] + bytes[offset + n..];
        offset := offset + n;
      }
    }

    /** Closes the descriptor; it is released even when the system reports an error. */
    method Close(ok: bool) returns (failed: bool)
      requires isOpen
      modifies this
      ensures failed == !ok && !isOpen && bytes == old(bytes) && opens == old(opens)
    {
      isOpen := false;
      failed := !ok;
    }
  }

  /*
   * new_gpt
   */

  /** What the system answers to the open, the seek, the write and the close. */
  datatype IoAnswers = IoAnswers(openOk: bool, seekTo: int, writeAnswer: int, closeOk: bool)

  /** How an attempt to create a GPT ends. */
  datatype CreateOutcome =
    | Refused(why: Refusal)
    | OpenFailed
    | SeekFailed
    | WriteFailed
    | CloseFailed
    | Created

  function ReturnCode(o: CreateOutcome): (rc: int)
    ensures rc == 0 <==> o == Created
    ensures rc == 0 || rc == -1
  {
    if o == Created then 0 else -1
  }

  /**
   * The outcome of creating a GPT on d, whose contents are before, and the
   * contents afterwards. The checks come first and nothing is opened when
   * one fails; the protective MBR tail is written at offset 440; a short
   * write keeps what it wrote; a failing close does not undo the write.
   */
  function CreateEffect(d: Device, before: seq<byte>, io: IoAnswers): (r: (CreateOutcome, seq<byte>))
    requires |before| == d.size
    ensures |r.1| == |before|
  {
    match CreateRefusal(d)
    case Some(why) => (Refused(why), before)
    case None =>
      if !io.openOk then (OpenFailed, before)
      else if io.seekTo != MbrOffset then (SeekFailed, before)
      else
        var mbr := ProtectiveMbr();
        var n := WriteCount(|before|, MbrOffset, |mbr|, io.writeAnswer);
        var after := if n > 0 then Overwrite(before, MbrOffset, mbr, n) else before;
        if n < |mbr| then (WriteFailed, after)
        else if !io.closeOk then (CloseFailed, after)
        else (Created, after)
  }

  /**
   * Writes a protective MBR to a raw disk: sector 0 from byte 440 on. The
   * GPT header and entry arrays are not written.
   */
  method NewGpt(d: Device, disk: Disk, io: IoAnswers) returns (rc: int)
    requires !disk.isOpen && |disk.bytes| == d.size
    modifies disk
    ensures !disk.isOpen
    ensures disk.opens == old(disk.opens) + (if CreateRefusal(d).Some? then 0 else 1)
    ensures (rc, disk.bytes) == (ReturnCode(CreateEffect(d, old(disk.bytes), io).0), CreateEffect(d, old(disk.bytes), io).1)
  {
    if CreateRefusal(d).Some? {
      return -1;
    }
    var ok := disk.Open(io.openOk);
    if !ok {
      return -1;
    }
    var pos := disk.Seek(MbrOffset, io.seekTo);
    if pos != MbrOffset {
      var _ := disk.Close(io.closeOk);
      return -1;
    }
    var mbr := ProtectiveMbr();
    var n := disk.Write(mbr, io.writeAnswer);
    if n < 0 || n < |mbr| {
      var _ := disk.Close(io.closeOk);
      return -1;
    }
    var failed := disk.Close(io.closeOk);
    if failed {
      return -1;
    }
    return 0;
  }

  /** A refused device is never opened, so its contents stay as they were. */
  lemma RefusalWritesNothing(d: Device, before: seq<byte>, io: IoAnswers)
    requires |before| == d.size && CreateRefusal(d).Some?
    ensures CreateEffect(d, before, io) == (Refused(CreateRefusal(d).value), before)
  {
  }

  /** Creation succeeds exactly when the checks pass and every system call does. */
  lemma CreatedIff(d: Device, before: seq<byte>, io: IoAnswers)
    requires |before| == d.size
    ensures CreateEffect(d, before, io).0 == Created <==>
      (CreateRefusal(d).None? && io.openOk && io.seekTo == MbrOffset
       && io.writeAnswer >= LbaSize - MbrOffset && io.closeOk)
  {
    if CreateRefusal(d).None? && io.openOk && io.seekTo == MbrOffset {
      assert d.size >= MinimumDiskSize;
      assert |ProtectiveMbr()| == LbaSize - MbrOffset;
    }
  }

  /**
   * Only bytes 440..511 can change, whatever the outcome; on success they
   * hold the protective MBR tail.
   */
  lemma CreateTouchesOnlyMbrTail(d: Device, before: seq<byte>, io: IoAnswers)
    requires |before| == d.size
    ensures var after := CreateEffect(d, before, io).1;
      forall i :: 0 <= i < |before| && !(MbrOffset <= i < LbaSize) ==> after[i] == before[i]
    ensures var r := CreateEffect(d, before, io);
      r.0 == Created ==> r.1[MbrOffset..LbaSize] == ProtectiveMbr()
  {
    var r := CreateEffect(d, before, io);
    if CreateRefusal(d).None? && io.openOk && io.seekTo == MbrOffset {
      var mbr := ProtectiveMbr();
      var n := WriteCount(|before|, MbrOffset, |mbr|, io.writeAnswer);
      if n > 0 {
        var after := Overwrite(before, MbrOffset, mbr, n);
        assert r.1 == after;
        forall i | 0 <= i < |before| && !(MbrOffset <= i < LbaSize)
          ensures after[i] == before[i]
        {
          if i < MbrOffset {
            assert after[..MbrOffset][i] == before[..MbrOffset][i];
          } else {
            assert after[MbrOffset + n..][i - MbrOffset - n] == before[MbrOffset + n..][i - MbrOffset - n];
          }
        }
        if r.0 == Created {
          assert n == |mbr|;
          assert mbr[..n] == mbr;
        }
      }
    }
  }

  /** A close that fails after a full write still leaves the MBR tail on disk. */
  lemma FailedCloseKeepsWrite(d: Device, before: seq<byte>, io: IoAnswers)
    requires |before| == d.size
    requires CreateRefusal(d).None? && io.openOk && io.seekTo == MbrOffset
    requires io.writeAnswer >= LbaSize - MbrOffset && !io.closeOk
    ensures var r := CreateEffect(d, before, io);
      r.0 == CloseFailed && ReturnCode(r.0) == -1 && r.1[MbrOffset..LbaSize] == ProtectiveMbr()
  {
    var mbr := ProtectiveMbr();
    assert mbr[..|mbr|] == mbr;
  }

  /** A short write leaves exactly its prefix of the MBR tail and reports failure. */
  lemma ShortWriteKeepsPrefix(d: Device, before: seq<byte>, io: IoAnswers)
    requires |before| == d.size
    requires CreateRefusal(d).None? && io.openOk && io.seekTo == MbrOffset
    requires 0 < io.writeAnswer < LbaSize - MbrOffset
    ensures var r := CreateEffect(d, before, io);
      r.0 == WriteFailed
      && r.1[MbrOffset..MbrOffset + io.writeAnswer] == ProtectiveMbr()[..io.writeAnswer]
      && r.1[MbrOffset + io.writeAnswer..] == before[MbrOffset + io.writeAnswer..]
  {
  }

  /*
   * zap_gpt
   */

  /**
   * Checks that a GPT may be zapped: the device must be a raw disk whose
   * detected table label is "gpt". Nothing is written either way.
   */
  function ZapGpt(d: Device): (rc: int)
    ensures rc == 0 <==> d.layout == LayoutNone && d.pttable == Some("gpt")
    ensures rc == 0 || rc == -1
  {
    if d.layout != LayoutNone then -1
    else if d.pttable.None? || d.pttable.value != "gpt" then -1
    else 0
  }

  /** Any device that may be zapped also passes the layout check of creation. */
  lemma ZapImpliesDisk(d: Device)
    requires ZapGpt(d) == 0
    ensures CreateRefusal(d) != Some(NotADisk)
  {
  }

  /** A device with no detected table, or with another kind of table, is not zapped. */
  lemma ZapRefusesOtherTables(d: Device, other: string)
    requires other != "gpt"
    ensures ZapGpt(d.(pttable := None)) == -1
    ensures ZapGpt(d.(pttable := Some(other))) == -1
  {
  }
}
