# growlight: GPT structures, table creation and the command-line helpers, in Dafny

This project models two parts of growlight, a block-device and partition
manager for Linux.

**GUID Partition Table support (`src/gpt.c`).**

- The protective MBR tail written from byte 440 of sector 0.
- The packed little-endian GPT header (92 bytes) and partition entry (128
  bytes), as serialise and parse functions over byte sequences.
- `new_gpt`: three checks on the device descriptor, then open, seek, write
  and close on the device, each of which can fail.
- `zap_gpt`, which only validates.
- Header initialisation and the two-stage CRC-32 sealing (`initialize_gpt`,
  `update_crc`), whose bodies are not in `gpt.c`; their contract is the one
  `tests/gpt.cpp` asserts. The CRC-32 is the ITU-T V.42 / ISO-HDLC checksum
  that the UEFI Specification prescribes, given bit by bit.

**Helpers of the interactive front end (`src/readline.c`).**

- The whitespace tokenizer.
- `genprefix`, `qprefix` and `bprefix`, which render a size with an SI or
  binary prefix into a fixed buffer.
- The argument-count guards and the guards of `mktable` and `map`.
- The `fxns` command table and the dispatch of `tty_ui`.
- `pcie_gen`.

Imperative code is modelled as methods proved against specification
functions:

- the device is a `Disk` class whose open, seek, write and close update its
  fields;
- header initialisation and sealing fill an `array<byte>` in place;
- the tokenizer, the prefix scaling loop and the command-table scan are
  `while` loops with invariants.

Pure data and guards are functions, and the properties are lemmas.

Files, one module each:

| file | module | what |
|---|---|---|
| wrappers.dfy | Wrappers | `Option`, standing for a pointer that may be NULL |
| bytes.dfy | Bytes | fixed-width integers and little-endian encodings |
| crc32.dfy | Crc32 | the reference CRC-32 |
| gpt_layout.dfy | GptLayout | protective MBR tail, header and entry wire formats |
| gpt_disk.dfy | GptDisk | device descriptor, `Disk`, `new_gpt`, `zap_gpt` |
| gpt_header.dfy | GptHeaderInit | header initialisation and CRC sealing |
| tokenize.dfy | Tokenizer | `tokenize` |
| si_prefix.dfy | SiPrefix | `genprefix`, `qprefix`, `bprefix` |
| commands.dfy | Commands | argument guards, `mktable`, `map`, `help`, dispatch, `pcie_gen` |

The protective MBR tail that `new_gpt` writes (src/gpt.c:14-27) differs from
the protective MBR of section 5.2.3 of the UEFI Specification 2.3.1, and the
model follows the code:

- the boot indicator is 0x80 (bootable), where the standard asks for 0x00;
- the starting CHS address is 0x000000, where the standard gives 0x000200;
- the starting LBA is 0, where the standard gives 1;
- the size in LBAs is always 0xFFFFFFFF, where the standard asks for the size
  of the disk minus one whenever that fits in 32 bits.

Its length (72 bytes from offset 440) and its three empty partition records
(48 zero bytes) agree with the standard.

## Model

| member | source | states |
|---|---|---|
| Bytes.DecodeEncode | src/gpt.c:29-45 | decoding the n-byte little-endian encoding of a value below 256^n gives the value back |
| Bytes.EncodeDecode | src/gpt.c:29-45 | re-encoding a decoded little-endian byte string gives the same bytes |
| Crc32.CheckValue | src/gpt.c:34 | the checksum is the standard CRC-32: "123456789" sums to 0xCBF43926 |
| Crc32.SingleByteChangeDetected | src/gpt.c:44 | two byte strings that differ in exactly one byte have different CRC-32s |
| Crc32.AddBytesInjective | src/gpt.c:44 | two different CRC registers that absorb the same bytes stay different |
| Crc32.AddBytesAppend | src/gpt.c:44 | absorbing a concatenation is absorbing its parts in turn |
| GptLayout.ProtectiveMbr | src/gpt.c:14-26 | the MBR tail is exactly 512 - 440 = 72 bytes |
| GptLayout.ProtectiveMbrBytes | src/gpt.c:14-26 | byte by byte: 6 zeros, 0x80, 3 zeros, 0xEE, 3 x 0xFF, 4 zeros, 4 x 0xFF, 48 zeros, 0x55 0xAA |
| GptLayout.ProtectiveMbrRecord | src/gpt.c:21-22 | read as little-endian fields, the first record starts at LBA 0 and spans 0xFFFFFFFF sectors |
| GptLayout.SerializeHeader | src/gpt.c:29-45 | a header is 92 bytes on disk |
| GptLayout.ParseHeader | src/gpt.c:29-45 | a header can be read exactly from byte strings of at least 92 bytes |
| GptLayout.HeaderFieldOffsets | src/gpt.c:29-45 | each header field lies at its offset (0, 8, 12, 16, 20, 24, 32, 40, 48, 56, 72, 80, 84, 88), little-endian |
| GptLayout.ParseSerializeHeader | src/gpt.c:29-45 | parsing a serialised header gives back every field |
| GptLayout.SerializeParseHeader | src/gpt.c:29-45 | serialising a parsed header gives back the 92 bytes it was read from |
| GptLayout.EfiPartSignatureBytes | src/gpt.c:30 | the signature constant is the ASCII bytes "EFI PART" on disk |
| GptLayout.SerializeEntry | src/gpt.c:50-57 | a partition entry is 128 bytes on disk |
| GptLayout.ParseEntry | src/gpt.c:50-57 | an entry can be read exactly from byte strings of at least 128 bytes |
| GptLayout.EntryFieldOffsets | src/gpt.c:50-57 | each entry field lies at its offset (0, 16, 32, 40, 48, 56), little-endian |
| GptLayout.ParseSerializeEntry | src/gpt.c:50-57 | parsing a serialised entry gives back every field |
| GptLayout.SerializeParseEntry | src/gpt.c:50-57 | serialising a parsed entry gives back the 128 bytes it was read from |
| GptLayout.SerializeName | src/gpt.c:56 | a name of k UTF-16 code units takes 2k bytes |
| GptLayout.ParseName | src/gpt.c:56 | 2k bytes read back as k code units |
| GptLayout.ParseSerializeName | src/gpt.c:56 | the name's code units survive a round trip through their bytes |
| GptLayout.SerializeParseName | src/gpt.c:56 | the name's bytes survive a round trip through its code units |
| GptLayout.SerializeEntries | src/gpt.c:47-49 | an array of n entries is 128n bytes |
| GptLayout.ParseEntries | src/gpt.c:47-49 | 128n bytes read back as n entries |
| GptLayout.ParseSerializeEntries | src/gpt.c:47-57 | an entry array survives a round trip through its bytes |
| GptLayout.SerializeParseEntries | src/gpt.c:47-57 | the bytes of an entry array survive a round trip through its entries |
| GptLayout.EmptyEntriesAreZero | src/gpt.c:47-49 | k unused entries are 128k zero bytes, so the minimum 128 entries are 16 KiB of zeros |
| GptDisk.MinimumDiskSizeValue | src/gpt.c:73 | the minimum disk is 512 + 2 x (512 + 128 x 128) = 34304 bytes |
| GptDisk.CreateRefusal | src/gpt.c:65-76 | the device passes the checks iff it is a raw disk, its size is a multiple of 512 and at least 34304; a non-disk is refused as such whatever its size, and a misaligned raw disk as misaligned |
| GptDisk.SmallestDiskAccepted | src/gpt.c:69-76 | a raw disk of exactly 34304 bytes passes every check |
| GptDisk.OneByteShortRefused | src/gpt.c:69-76 | a raw disk of 34303 bytes is refused |
| GptDisk.OneSectorShortRefused | src/gpt.c:73-76 | a raw disk of 34304 - 512 bytes is refused as too small |
| GptDisk.WriteCount | src/gpt.c:87-88 | a write returns -1 on error; otherwise at most the bytes asked for and the bytes the system takes, never past the device's end, and all of them iff the system takes them all and they fit |
| GptDisk.Overwrite | src/gpt.c:87 | a write of n bytes at an offset replaces exactly those n bytes and keeps the rest |
| GptDisk.Disk.Open | src/gpt.c:77-80 | opening succeeds as the system answers, leaves the contents alone and starts at offset 0 |
| GptDisk.Disk.Seek | src/gpt.c:82-86 | the offset becomes the one the system reports, unless it reports an error |
| GptDisk.Disk.Write | src/gpt.c:87-92 | the bytes written land at the offset, which advances by their number; nothing changes on error |
| GptDisk.Disk.Close | src/gpt.c:95-98 | the descriptor is released even when closing fails, and the contents stay |
| GptDisk.CreateEffect | src/gpt.c:61-100 | creating a GPT never changes the device's length |
| GptDisk.NewGpt | src/gpt.c:61-100 | the return code (0 exactly on Created, else -1) and the new contents are those of CreateEffect; the device is opened once unless a check refuses it, in which case it is never opened; it is closed afterwards |
| GptDisk.RefusalWritesNothing | src/gpt.c:65-76 | a device that fails a check ends Refused with that check's reason and its contents stay the same (that it is not opened is NewGpt's open count) |
| GptDisk.CreatedIff | src/gpt.c:77-99 | creation succeeds iff the checks pass, the open succeeds, the seek lands on 440, all 72 bytes are written and the close succeeds |
| GptDisk.CreateTouchesOnlyMbrTail | src/gpt.c:81-94 | whatever the outcome, only bytes 440..511 can change; on success they hold the protective MBR tail, and no GPT header is written |
| GptDisk.FailedCloseKeepsWrite | src/gpt.c:95-98 | a close that fails after a full write returns -1 but leaves the MBR tail on the disk |
| GptDisk.ShortWriteKeepsPrefix | src/gpt.c:87-92 | a short write returns -1 and leaves exactly the prefix it wrote |
| GptDisk.ZapGpt | src/gpt.c:102-113 | `zap_gpt` returns 0 iff the device is a raw disk whose detected table label is "gpt", and -1 otherwise; it writes nothing |
| GptDisk.ZapImpliesDisk | src/gpt.c:103-106 | a device that may be zapped is not refused by creation as a non-disk |
| GptDisk.ZapRefusesOtherTables | src/gpt.c:107-110 | a device with no detected table, or with a table of any other kind, is refused |
| GptHeaderInit.InitialHeader | tests/gpt.cpp:8-35 | a fresh header has both checksums zero |
| GptHeaderInit.InitialSector | tests/gpt.cpp:59-68 | the initialised buffer keeps the buffer's size |
| GptHeaderInit.InitializeGpt | tests/gpt.cpp:59-68 | initialisation returns 0 and leaves the buffer holding the fresh header's 92 bytes followed by zeros, whatever the buffer held before |
| GptHeaderInit.InitialSectorFields | tests/gpt.cpp:8-45 | read back from the buffer: "EFI PART", revision 0x00010000, headsize 92, reserved 0, LBA 1, the backup LBA and last usable LBA asked for, a positive multiple of 128 as entry size, at least 128 entries, and zeros from byte 92 on |
| GptHeaderInit.InitialSignature | tests/gpt.cpp:8-12 | the buffer starts with the bytes of "EFI PART" |
| GptHeaderInit.InitialPadding | tests/gpt.cpp:59-68 | every byte from 92 to the end of the buffer is zero, even in a 512-byte sector |
| GptHeaderInit.InitialSectorParses | tests/gpt.cpp:14-35 | the buffer parses back to the fresh header |
| GptHeaderInit.Seal | tests/gpt.cpp:46-50 | the sealed header's partcrc is the CRC-32 of the covered entry bytes; its crc is the CRC-32 of its own 92 bytes with crc taken as zero; no other field changes |
| GptHeaderInit.SealIdempotent | tests/gpt.cpp:46-50 | sealing an already sealed header changes nothing |
| GptHeaderInit.SealTwice | tests/gpt.cpp:46-50 | sealing twice is sealing once |
| GptHeaderInit.SerializeWithCrc | src/gpt.c:34 | changing the crc field changes only bytes 16..19 of the header |
| GptHeaderInit.SerializeWithPartCrc | src/gpt.c:44 | changing the partcrc field changes only bytes 88..91 of the header |
| GptHeaderInit.UpdateCrc | tests/gpt.cpp:46-50 | in place, the buffer's 92 header bytes become the sealed header: partcrc is stored first, then crc is taken over the header with partcrc in place; bytes after 92 are untouched |
| GptHeaderInit.EntryCorruptionDetected | src/gpt.c:44 | after sealing, any one corrupted byte in the covered entry array breaks the seal |
| GptHeaderInit.HeaderCorruptionDetected | src/gpt.c:34 | after sealing, any one corrupted header byte outside the crc field makes the header checksum fail when read back |
| Tokenizer.SkipSpaces | src/readline.c:544-546 | the first index from i that is not white space; everything passed is white space |
| Tokenizer.SkipGraph | src/readline.c:548-550 | the first index from s that is not graphic; everything passed is graphic |
| Tokenizer.ScanEnd | src/readline.c:540-566 | scanning stops at the end of the line or at the first character that is neither white space nor graphic |
| Tokenizer.TokensFrom | src/readline.c:540-566 | every word found is a non-empty run of graphic characters |
| Tokenizer.PassSpaces | src/readline.c:544-546 | the white-space loop stops where SkipSpaces says |
| Tokenizer.PassGraph | src/readline.c:548-550 | the graphic-run loop stops where SkipGraph says |
| Tokenizer.Tokenize | src/readline.c:535-571 | returns the number of words; with none the vector is absent, otherwise it holds exactly the line's words in order |
| Tokenizer.NothingPastStop | src/readline.c:566 | at the end of the line or at its NUL there are no more words |
| Tokenizer.TokensSeparated | src/readline.c:544-553 | the gaps are white space, the words are non-empty graphic runs, and two words always have white space between them |
| Tokenizer.TokensJoin | src/readline.c:544-566 | putting the gaps and words back together gives the scanned text exactly |
| Tokenizer.TokensReassemble | src/readline.c:544-566 | the gaps and words from any point form a separated split of the scanned text that joins back to it |
| Tokenizer.TokensCoverLine | src/readline.c:535-571 | the words and gaps of the whole line rebuild the line up to where scanning stops |
| Tokenizer.TokensUnique | src/readline.c:544-566 | any separated split of the scanned text has exactly the tokenizer's words: they are its maximal graphic runs |
| Tokenizer.NoTokensIff | src/readline.c:551-553 | a line has no words iff it is white space up to where scanning stops |
| SiPrefix.NatStr | src/readline.c:83 | `%ju`: at least one character, all decimal digits |
| SiPrefix.NatStrRoundTrip | src/readline.c:83 | the digits of n read back as n |
| SiPrefix.Pad2 | src/readline.c:83 | `%02ju`: two digits below 100, and its value is n |
| SiPrefix.Hundredths | src/readline.c:82-83 | the fraction digits (x mod d) / ceil(d / 100) are always below 100 |
| SiPrefix.Snprintf | src/readline.c:83-92 | snprintf keeps the buffer's size and puts a NUL right after the part of the text that fits |
| SiPrefix.StoreText | src/readline.c:83-92 | writing into the buffer leaves exactly what Snprintf describes |
| SiPrefix.SnprintfKeepsShortText | src/readline.c:83-92 | a text shorter than the buffer is kept whole and NUL-terminated |
| SiPrefix.CString | src/readline.c:14 | a buffer read as a C string is its prefix up to the first NUL |
| SiPrefix.MulWrapExact | src/readline.c:73 | a uintmax_t multiplication whose product fits does not wrap |
| SiPrefix.LoopEnd | src/readline.c:71-78 | the loop as written ends with consumed between 0 and 7, and the divisor is one or two powers of the base past consumed |
| SiPrefix.LoopEndCases | src/readline.c:71-78 | the loop ends either normally, below the next power or out of prefixes, or on the overflow check; every power it passed fits in a uintmax_t |
| SiPrefix.Magnitude | src/readline.c:71-78 | the reference order of magnitude: the largest m of at most 7 with mult^m <= v |
| SiPrefix.ScaleLoopAsWritten | src/readline.c:71-78 | the loop as written computes LoopEnd's consumed and divisor without wrapping around |
| SiPrefix.GenPrefixAsWritten | src/readline.c:64-96 | genprefix as written leaves the text PrefixText in the buffer, cut by snprintf |
| SiPrefix.PrefixIff | src/readline.c:79 | a prefix is printed iff the scaled value reaches the base and the base is above 1 |
| SiPrefix.PrefixCorrect | src/readline.c:79-87 | when the loop does not overflow, the text is the value divided by mult^m for its magnitude m, with the m-th prefix; the quotient is below the base unless the prefixes are used up |
| SiPrefix.NoPrefix | src/readline.c:88-94 | below the base, the text is the quotient, then two remainder digits unless they are omitted and zero |
| SiPrefix.ScaleMislabelled | src/readline.c:74-77 | for bases 1000 and 1024, a value of mult^5 or more breaks on the overflow check with consumed 4: divided by mult^5 and labelled 'T' |
| SiPrefix.PetabyteShownAsT | src/readline.c:64-96 | 10^15 bytes is rendered "1.00T" |
| SiPrefix.LoopEndIntended | src/readline.c:71-78 | the corrected loop ends with the divisor exactly one power past consumed, and the value reaches mult^consumed |
| SiPrefix.ScaleLoop | src/readline.c:71-78 | the corrected loop computes LoopEndIntended's consumed and divisor without wrapping around |
| SiPrefix.GenPrefix | src/readline.c:64-96 | the corrected genprefix leaves the text PrefixTextIntended in the buffer, cut by snprintf |
| SiPrefix.QPrefix | src/readline.c:98-101 | qprefix leaves in the buffer the text of genprefix as written, in base 1000 with no unit letter |
| SiPrefix.BPrefix | src/readline.c:103-106 | bprefix leaves in the buffer the text of genprefix as written, in base 1024 with unit 'i' |
| SiPrefix.QPrefixIntended | src/readline.c:98-101 | qprefix with the corrected genprefix leaves PrefixTextIntended in base 1000, whose letter names the divisor (IntendedLabelMatches) |
| SiPrefix.BPrefixIntended | src/readline.c:103-106 | bprefix with the corrected genprefix leaves PrefixTextIntended in base 1024 with unit 'i' |
| SiPrefix.IntendedLabelMatches | src/readline.c:71-78 | with the correction, a value of mult^5 or more is divided by mult^5 and labelled 'P' |
| SiPrefix.IntendedAgrees | src/readline.c:71-78 | wherever the overflow check does not fire, the corrected and the written loop end alike |
| SiPrefix.PetabyteShownAsP | src/readline.c:64-96 | with the correction, 10^15 bytes is rendered "1.00P" |
| SiPrefix.CorrectionScope | src/readline.c:71-87 | for bases 1000 and 1024, the correction changes the text iff the scaled value is at least mult^5 |
| SiPrefix.QPrefixFits | src/readline.c:108-116 | for every size below 1000^6 with decimal 1, the qprefix text fits PREFIXSTRLEN = 7 characters |
| Commands.ZeroArgCheck | src/readline.c:17-18 | ZERO_ARG_CHECK passes iff no argument follows the command |
| Commands.TwoArgCheck | src/readline.c:20-21 | TWO_ARG_CHECK passes iff exactly two arguments follow the command |
| Commands.Help | src/readline.c:596-607 | help lists iff it gets no argument, and otherwise prints its usage |
| Commands.Mktable | src/readline.c:484-495 | with no argument mktable lists or fails as printing does; with exactly two it does nothing yet; otherwise it prints its usage |
| Commands.Map | src/readline.c:497-521 | map prints its usage unless it gets none or exactly two arguments; an unknown device and a mount point not starting with '/' are refused; otherwise it mounts the device with "ext4" and "noatime" |
| Commands.Lower | src/readline.c:628 | C-locale tolower: upper-case letters move by 32, and the result is never upper case |
| Commands.LookupFrom | src/readline.c:632-637 | the scan finds the first table entry whose name matches the token ignoring case, or reaches the sentinel iff none matches |
| Commands.Dispatch | src/readline.c:628-642 | the table scan ends as Decide says: skip, quit, run entry i, or unknown command |
| Commands.HandleLine | src/readline.c:621-642 | a line read is tokenized and then dispatched as Decide says on its words |
| Commands.LowerString | src/readline.c:628 | each character of the string lowered |
| Commands.SameIffLowered | src/readline.c:628 | strcasecmp equality is equality of the lowered strings |
| Commands.NamesDistinct | src/readline.c:577-594 | no two commands in the table have the same name ignoring case |
| Commands.LookupExact | src/readline.c:632-642 | a token runs entry i iff entry i's name equals the token ignoring case |
| Commands.QuitIsNoCommand | src/readline.c:628-631 | every spelling of "quit" ends the loop, whatever follows it, and names no table entry |
| Commands.DecideIgnoresCaseAndArguments | src/readline.c:628-642 | dispatch depends only on token 0, and not on its case |
| Commands.LineSkippedIff | src/readline.c:621-624 | a line is skipped iff it is white space up to where scanning stops |
| Commands.MapSucceedsIff | src/readline.c:497-521 | map returns 0 iff it lists successfully, or mounts a known device on an absolute path successfully |
| Commands.MktableSucceedsIff | src/readline.c:484-495 | mktable returns 0 iff it lists successfully or gets exactly two arguments |
| Commands.PcieGen | src/readline.c:135-143 | generations 1 to 3 are named "1.0", "2.0", "3.0", and every other number "unknown" |
| Commands.PcieGenInjective | src/readline.c:135-143 | different known generations have different names |

## Left out

- The operating system. What open, lseek, write and close answer is a parameter (`IoAnswers`), as are what printing returns, the devices `lookup_device` knows and whether `prepare_mount` succeeds. `O_DIRECT` alignment, `O_CLOEXEC`, `devfd` and errno are not modelled.
- A write is modelled as transferring a prefix of its buffer, as POSIX allows for a short write. Partial writes scattered across the buffer are not modelled.
- The `diag` messages, the usage lines printed to stderr and every `print_*` function. The model records only which outcome is reached.
- GptDisk.NewGpt: the FIXMEs at src/gpt.c:93 and 111 (GPT header, entry arrays, backup copy, zap contents) are unimplemented in the code and not invented here.
- GptHeaderInit.InitializeGpt: the bodies of `initialize_gpt` and `update_crc` are not in `gpt.c`. The fourth test argument (34) is taken as the last usable LBA. `first_usable`, `partlba` and `disk_guid` are fixed by no code shown, so they are parameters (`Placement`).
- GptHeaderInit.UpdateCrc: the test's fixture values 0x1ec50fb7 (partcrc) and 0xc803405b (crc) are not proved. The test's entries come from `new gpt_entry[n]`, which leaves them uninitialised. The header checksum depends on the fields above that no code fixes. The CRC is instead pinned by its standard check value (Crc32.CheckValue) and by the detection lemmas.
- Tokenizer.Tokenize: the allocation failures of `strndup` and `realloc`, where the function returns -1, are not modelled, and neither is the `tty_ui` exit on that code. The vector's memory and `free_tokes` are not modelled.
- Characters are classified as in the C locale. Bytes above 127, which the source passes to `isspace` as negative `char` values, are not modelled.
- The handlers `controllers`, `blockdevs`, `partitions`, `mdadm`, `mounts` and `zpool`, `print_map`, `print_tabletypes` and the help text are left out. Dispatch records which entry would run (`Run(i)`).
- The readline prompt, the history and `main` are left out.
- SiPrefix.QPrefixFits: stated only below 1000^6. From 1000^6 on the integer part has more than three digits.
- SiPrefix.GenPrefix: the corrected loop is modelled beside the loop as written (SiPrefix.GenPrefixAsWritten), which `QPrefix` and `BPrefix` call; see Findings.
- The partition operations declared in `src/gpt.h` (`add_gpt`, `del_gpt`, `name_gpt`, `uuid_gpt`, `flag_gpt`, `flags_gpt`, `code_gpt`, `first_gpt`, `last_gpt`) are not part of this model; their bodies are not in the source.
- `src/ptable.h` and `src/libblkid.h` are not part of this model.
- The `fxns` function pointers are not modelled.

## Findings

| source | as written | input that shows it | evidently intended | confidence | as-written member | corrected member |
|---|---|---|---|---|---|---|
| src/readline.c:71-78 | the overflow check breaks out of the loop after `div *= mult` but before `++consumed`, so the prefix letter lags the divisor by one power | `qprefix(1000000000000000, 1, buf, 8, 0)`: divided by 10^15 but labelled 'T', giving "1.00T" instead of "1.00P" (and the same for every value of 1000^5 or 1024^5 and more) | the prefix always names the divisor: 10^15 is "1.00P" | high, by proof; not executed | SiPrefix.GenPrefixAsWritten | SiPrefix.GenPrefix |
