# extYuRis formats in Dafny

A model of the YU-RIS engine file formats that extYuRis reads and writes, with proofs about it.

- **YPF archives:**
  - the 32-byte header;
  - the directory of records, whose file names are hidden by a length-swapping table and a complement/xor cipher;
  - the three checksum families chosen by version: CRC-32 over the inline table, Adler-32 and MurmurHash2;
  - the directory parser `parseYpf`, the extractor `extractFileFromYpf` with its driver `extractYpf`, and the archive writer `packYpf`.
- **The compiled-script side files:**
  - the shared 8-byte generic header and the zero-terminated string reader (`YbnDef.go`);
  - the script table `parseYstl` and its instruction lines;
  - the saved-variable dump `parseYsvr`;
  - the configuration file: `parseYscf`, its `Key=value` rendering, and the override-and-write path of `packYscfFile`.

## Modules

| module | file | what it holds |
|---|---|---|
| `Bytes` | `bytes.dfy` | Bytes and little-endian integers, plus a `Reader` class (`bytes.Reader`). Its reads follow Go: `binary.Read` is all-or-nothing, leaving a zeroed destination and draining the input on a short read. `Read` copies what is there and leaves the rest zero. `Seek` refuses a negative offset. |
| `Text` | `text.dfy` | `%d`/`%05d` printing, `strconv.Atoi`, `uint32(int)`/`byte(int)` truncation, `strings.Split` on a space. |
| `Checksum` | `checksum.dfy` | `checksumByVersion` and the three checksum families. |
| `Obfuscation` | `obfuscation.dfy` | The two length-swapping tables, the name key, the name cipher and `IndexOfByte`. |
| `Ybn` | `ybn.dfy` | `GenericHeader` and `readAnsiStr`. |
| `Ypf` | `ypf.dfy` | The archive header and records, `parseYpf`, `extractFileFromYpf` and `extractYpf`. |
| `YpfPack` | `ypf_pack.dfy` | `packYpf`. |
| `Ystl`, `Ysvr`, `Yscf` | `ystl.dfy`, `ysvr.dfy`, `yscf.dfy` | The three side formats. |

Most operations have two forms:
- a function that says what the operation yields;
- a method with the source's own loops over a `Reader`, an `array` or a growing buffer, proved equal to that function.

For example, `Ypf.ParseYpf` reads the records into an array by index, sorts them in place and deciphers the name bytes in place. `YpfPack.PackYpf` fills the records, sorts them, runs the payload and directory loops and checks the directory size.

**Parameters.** Go's integers are modelled with their widths. Anything outside the repository is a parameter:
- the code-page decoder and encoder;
- zlib compression and inflation;
- the file reader used by the packer.

**Where the code is followed.** In several places the code and the format's published description differ; the model follows the code:
- **Name checksums.** They are taken over the plain name bytes: after deciphering when reading (YpfDef.go:79-83) and over `[]byte(FileName)` when packing (YpfDef.go:244-245). They are not taken over the stored bytes.
- **The CRC table** at YpfDef.go:110-141 is the standard reflected table of polynomial 0xEDB88320. It is computed here from the polynomial, and proved equal to the inline constants line by line.
- **Short input is not an error.**
  - Reads past the end yield zeros, as `binary.Read` and `Read` leave them.
  - A short zlib read is not an error either (YpfDef.go:172-179).
- **The payload pass of `packYpf`** does not deduplicate, and does not fill in the records (see Findings).
- **The directory size** counts each name's length as Go text (YpfDef.go:251-254), while the records hold its code-page encoding; the two agree only for names whose encoding keeps their length (see Findings).
- **The version** is an `int`. The header and the ciphers use `uint32(version)`, while the record width and the output check use the int itself. A negative version whose 32-bit form is 479 or more therefore always fails the size check (YpfPack.NegativeVersionOversized).

**The YSCF header.** `YbnHeader` (YscfDef.go:16) is not part of this model. The YSCF header is taken to begin with the same 4-byte magic and u32 version as `GenericHeader`, which its uses at YscfDef.go:63, 91 and 134 imply.

## Model

| member | source | states |
|---|---|---|
| Bytes.LeValueOfLeBytes | YpfDef.go:323-344 | An integer that fits n bytes, written little-endian by `binary.Write`, reads back as itself. |
| Bytes.LeBytesOfLeValue | YpfDef.go:72-98 | Re-encoding the value read from n bytes gives those n bytes back. |
| Bytes.LeWordsOfWordsBytes | YsvrDef.go:70 | A run of u32 values written back to back reads back as the same run. |
| Bytes.WordsBytesOfLeWords | YsvrDef.go:70 | Any 4n bytes are the encoding of the n words read from them. |
| Bytes.Int64Of | YsvrDef.go:75-77 | An 8-byte signed read lies in the int64 range. |
| Bytes.FirstIndex | YpfDef.go:183-190 | The index of the first occurrence: it holds the byte and no earlier index does. |
| Bytes.FirstIndexIsFirst | YpfDef.go:183-190 | An index holding the byte with none before it is the first index. |
| Bytes.FullRead | YpfDef.go:60 | `binary.Read` yields n bytes, namely those at the position when n are left. |
| Bytes.AfterFullRead | YpfDef.go:60 | After a complete read the position has moved by n; it never moves back. |
| Bytes.Available | YpfDef.go:162 | One `Read` copies at most n bytes and never reads past the end. |
| Bytes.PartialRead | YpfDef.go:161-162 | The n-byte buffer after one `Read` holds the bytes at the position when n are left. |
| Bytes.AfterPartialRead | YpfDef.go:162 | After a complete `Read` the position has moved by n. |
| Bytes.ReadUintAt | YpfDef.go:72 | An n-byte unsigned read yields a value below 256^n. On complete input it is the little-endian value of the n bytes, and the position moves by n. |
| Bytes.ReadBytesAt | YpfDef.go:77-78 | A fresh n-byte buffer filled by one `Read`: on complete input it holds the n bytes at the position, and the position moves by n. |
| Bytes.Zeros | YpfDef.go:22 | n zero bytes. |
| Bytes.Reader.constructor | YpfDef.go:59 | `bytes.NewReader`: the reader stands at 0 over the data. |
| Bytes.Reader.ReadFull | YpfDef.go:60 | Reports whether n bytes were there; returns FullRead and moves to AfterFullRead. |
| Bytes.Reader.ReadByte | YbnDef.go:45 | Yields the next byte and moves by one, or reports the end and stays put. |
| Bytes.Reader.ReadUint | YpfDef.go:72 | Yields ReadUintAt's value and position. |
| Bytes.Reader.Read | YpfDef.go:78 | Yields ReadBytesAt's buffer and position. |
| Bytes.Reader.Seek | YpfDef.go:160 | Moves to a non-negative offset; a negative offset leaves the position unchanged. |
| Checksum.ChecksumByVersion | YpfDef.go:106-149 | Before version 479: CRC-32 for names and Adler-32 for data. From 479 on: MurmurHash2 with seed 0 for both. |
| Checksum.ChecksumOfEmpty | YpfDef.go:106-149 | Empty input checksums to 0, except the Adler-32 of data before 479, which is 1. |
| Checksum.CrcRegisterSnoc | YpfDef.go:109 | Each further byte is one table-driven update of the CRC register. |
| Checksum.Crc32CheckValue | YpfDef.go:109-142 | The CRC-32 of "123456789" over this table is the standard check value 0xCBF43926. |
| Checksum.InlineTableLines110To113 | YpfDef.go:110-113 | Table entries 0-31 computed from polynomial 0xEDB88320 equal the inline constants. |
| Checksum.InlineTableLines114To117 | YpfDef.go:114-117 | Entries 32-63 equal the inline constants. |
| Checksum.InlineTableLines118To121 | YpfDef.go:118-121 | Entries 64-95 equal the inline constants. |
| Checksum.InlineTableLines122To125 | YpfDef.go:122-125 | Entries 96-127 equal the inline constants. |
| Checksum.InlineTableLines126To129 | YpfDef.go:126-129 | Entries 128-159 equal the inline constants. |
| Checksum.InlineTableLines130To133 | YpfDef.go:130-133 | Entries 160-191 equal the inline constants. |
| Checksum.InlineTableLines134To137 | YpfDef.go:134-137 | Entries 192-223 equal the inline constants. |
| Checksum.InlineTableLines138To141 | YpfDef.go:138-141 | Entries 224-255 equal the inline constants. |
| Checksum.AdlerSums | YpfDef.go:144 | Both running sums of Adler-32 stay below 65521. |
| Checksum.Adler32 | YpfDef.go:144 | The second sum is in the high 16 bits and the first in the low 16. |
| Checksum.AdlerClosedForm | YpfDef.go:144 | Reducing after every byte equals summing in full and reducing once at the end. |
| Checksum.MurmurHash2OfEmpty | YpfDef.go:147 | Reference value of MurmurHash2 with seed 0 on empty input. |
| Checksum.MurmurHash2OfOneByte | YpfDef.go:147 | Reference value on one byte (the tail path). |
| Checksum.MurmurHash2OfOneBlock | YpfDef.go:147 | Reference value on one 4-byte block (the body path). |
| Obfuscation.LengthSwappingTable | YpfDef.go:41-46 | 256 entries; entry b is b's partner in the table chosen by `version >= 500`. |
| Obfuscation.SwapByteInvolution | YpfDef.go:41-46 | Each table exchanges disjoint pairs, so partnering twice gives the byte back. |
| Obfuscation.TableIsInvolution | YpfDef.go:41-46 | `t[t[b]] == b` for both tables and every byte. |
| Obfuscation.FileNameEncryptionKey | YpfDef.go:48-56 | 64 exactly for version 290, 54 exactly above 500, 0 otherwise (500 included). |
| Obfuscation.CipherIsDecipher | YpfDef.go:80 | The writer's `^(x^k)` and the reader's `(^x)^k` are the same map, and it undoes itself. |
| Obfuscation.DecipherName | YpfDef.go:79-81 | Each stored name byte is complemented, then xored with the key. |
| Obfuscation.CipherName | YpfDef.go:331-333 | Each name byte is xored with the key, then complemented. |
| Obfuscation.NameCipherRoundTrip | YpfDef.go:331-333 | Deciphering a ciphered name gives the name back. |
| Obfuscation.IndexOfByte | YpfDef.go:183-190 | Returns the first index holding the byte, truncated to a byte, or 0 when there is none. |
| Obfuscation.IndexInSwappingTable | YpfDef.go:329 | Every length occurs in each table, first at its partner's index. |
| Obfuscation.EncodeLengthAsWritten | YpfDef.go:329 | The length byte the packer writes is the length's partner in the table. |
| Obfuscation.IndexOfByteInTable | YpfDef.go:329 | Whatever `IndexOfByte` returns when it looks a length up in the table is that length's partner. |
| Obfuscation.LengthRoundTrip | YpfDef.go:74-76 | A complemented partner always decodes to the length it encodes. |
| Obfuscation.LengthAsWrittenNeverRoundTrips | YpfDef.go:329-330 | The length byte as written never decodes to its length, for any version and length. |
| Obfuscation.LengthAsWrittenExample | YpfDef.go:329-330 | For version 500, a 5-byte name is written with length byte 5, which reads back as 250. |
| Text.Decimal | YstlDef.go:54 | `%v` of a natural number is one or more decimal digits. |
| Text.Pad5 | YstlDef.go:54 | `%05d` is at least five decimal digits. |
| Text.DigitsValueOfDecimal | YstlDef.go:54 | The digits printed for n have value n. |
| Text.DigitsValueLeadingZeros | YstlDef.go:54 | Leading zeros do not change a value. |
| Text.Atoi | YscfDef.go:130 | `strconv.Atoi` succeeds only on non-empty text, with a value in the int64 range. |
| Text.AtoiOfDecimal | YscfDef.go:130 | A number printed with `%v` reads back as that number. |
| Text.AtoiOfPad5 | YstlDef.go:54 | A number printed with `%05d` reads back as that number. |
| Text.ToU32 | YscfDef.go:134 | `uint32(in)` keeps every value from 0 to 2^32-1 unchanged. |
| Text.ToByte | YscfDef.go:167 | `byte(in)` keeps every value from 0 to 255 unchanged. |
| Text.SplitSpace | YscfDef.go:160 | The pieces between single spaces; none of them holds a space. |
| Text.SplitJoin | YscfDef.go:160 | Joining the pieces with single spaces gives the text back. |
| Text.JoinSplit | YscfDef.go:160 | Space-free pieces joined by single spaces split back into those pieces. |
| Ybn.GenericHeaderOf | YbnDef.go:12-15 | Eight bytes decode to a 4-byte magic and a little-endian u32 version. |
| Ybn.GenericHeaderBytes | YbnDef.go:12-15 | A header encodes to eight bytes. |
| Ybn.GenericHeaderRoundTrip | YbnDef.go:12-15 | Encoding and decoding a header gives it back. |
| Ybn.GenericHeaderBytesRoundTrip | YbnDef.go:12-15 | Decoding and re-encoding eight bytes gives them back. |
| Ybn.AnsiStrFacts | YbnDef.go:42-55 | The string holds no zero. A zero follows it and is consumed. At the end of input nothing is read and the reader stays. |
| Ybn.ReadAnsiStr | YbnDef.go:42-55 | Returns "" undecoded when the first byte is 0 or the input is exhausted, and the decoded bytes before the first zero otherwise. The reader ends just past that zero. |
| Ybn.BytesUntilZero | YbnDef.go:46-49 | The byte loop collects exactly the bytes before the first zero and consumes that zero. |
| Ypf.HeaderOf | YpfDef.go:18-23 | 32 bytes decode to a header with a 4-byte magic and 16 reserved bytes. |
| Ypf.HeaderBytes | YpfDef.go:18-23 | A header encodes to 32 bytes that begin with its magic. |
| Ypf.HeaderRoundTrip | YpfDef.go:18-23 | Encoding and decoding a header gives it back. |
| Ypf.HeaderMagic | YpfDef.go:60-66 | The header read has the YPF magic exactly when the data holds a whole header starting with "YPF\0". It is then the first 32 bytes, and the reader stands at 32. |
| Ypf.EntryTailAt | YpfDef.go:87-98 | The reads after the name never move the reader back; what they yield is given by YpfPack.TailReadsBack. |
| Ypf.StoredNameAt | YpfDef.go:73-78 | The length-byte and name reads never move the reader back; what they yield is given by YpfPack.StoredNameBack. |
| Ypf.EntryAt | YpfDef.go:71-98 | A record read succeeds with the stored name checksum, or fails only on a name-check mismatch. |
| Ypf.EntriesFrom | YpfDef.go:70-99 | k records read in stored order yield exactly k entries, or the first name-check failure. |
| Ypf.EntriesFromNext | YpfDef.go:70-99 | The run of k+1 records is the run of k followed by the record read where it ended. |
| Ypf.EntriesStayErr | YpfDef.go:83-86 | Once a name check fails, every longer run ends in that failure. |
| Ypf.DirectoryOf | YpfDef.go:58-99 | The only errors are a bad magic (exactly when the data does not start with a whole "YPF\0" header) and a name-check failure. Otherwise: the header is the first 32 bytes, followed by exactly `FileCount` records. |
| Ypf.ReadEntryTail | YpfDef.go:87-98 | The field reads yield EntryTailAt's fields and position. |
| Ypf.DecipherInPlace | YpfDef.go:79-81 | The array ends up deciphered byte by byte. |
| Ypf.ReadStoredName | YpfDef.go:73-78 | Yields StoredNameAt's bytes and position. |
| Ypf.ReadEntry | YpfDef.go:71-98 | Yields EntryAt's result and position. |
| Ypf.Swap | YpfDef.go:100-102 | Exchanges two records, keeps the others, and permutes the array. |
| Ypf.InsertLast | YpfDef.go:100-102 | Extends a sorted prefix by one record and permutes the array. |
| Ypf.SortBy | YpfDef.go:100-102 | `sort.Slice`: the array ends sorted by the key and is a permutation of what it held. |
| Ypf.ReadNextEntry | YpfDef.go:70-99 | One loop pass extends the run of records by one, or ends it with its error. |
| Ypf.ReadEntries | YpfDef.go:70-99 | The record loop yields EntriesFrom's records or its error, in a fresh array. |
| Ypf.ParseYpf | YpfDef.go:58-104 | `parseYpf` returns DirectoryOf's error, or its header with the records sorted by offset as a permutation of the stored ones. |
| Ypf.AsInt64 | YpfDef.go:160 | `int64(offset)` is negative exactly from 2^63 on, and equal to the offset below that. |
| Ypf.HugeOffsetReadsAfterHeader | YpfDef.go:160 | An offset of 2^63 or more is refused by `Seek`, so the payload is read from 32, just after the header. |
| Ypf.Filled | YpfDef.go:172-179 | The raw-size buffer after one zlib `Read`: what was delivered, cut to size, then zeros. |
| Ypf.ExtractFileSpec | YpfDef.go:151-181 | A file without the "YPF\0" header yields no bytes and the not-a-YPF error. |
| Ypf.ExtractedSize | YpfDef.go:161-179 | On a valid archive the bytes returned number the raw size when compressed and the compressed size otherwise. |
| Ypf.ExtractPlainPayload | YpfDef.go:160-171 | A plainly stored payload inside the archive is returned byte for byte from its offset. |
| Ypf.ExtractError | YpfDef.go:163-178 | A stream zlib rejects reports the zlib error. Otherwise the error is absent exactly when the payload's checksum matches, and a mismatch still returns the bytes. |
| Ypf.ExtractFileFromYpf | YpfDef.go:151-181 | The seek-and-read method yields ExtractFileSpec's bytes and error. |
| Ypf.ExtractRun | YpfDef.go:364-370 | The files written are the first records in order, each with its extracted bytes. The run stops at the first record with an error and reports failure. |
| Ypf.ExtractRunOk | YpfDef.go:364-371 | `extractYpf` succeeds exactly when every record extracts without error. |
| Ypf.ExtractRunStaysFailed | YpfDef.go:365-368 | After the first failure, later records change nothing. |
| Ypf.ExtractAll | YpfDef.go:364-370 | The loop yields ExtractRun's outcome. |
| Ypf.ExtractYpf | YpfDef.go:359-372 | `extractYpf` parses (as ParseYpf) and fails with nothing written on a parse error; otherwise it extracts in the parsed order. |
| YpfPack.Ext | YpfDef.go:230 | `filepath.Ext` is empty or starts with the dot. |
| YpfPack.ExtIsSuffix | YpfDef.go:230 | The extension is a suffix of the path. |
| YpfPack.ExtSnoc | YpfDef.go:230 | How the extension changes with one more character. |
| YpfPack.ExtOfPng | YpfDef.go:230 | A name ending in ".png" has the extension ".png", dot included. |
| YpfPack.TypeCode | YpfDef.go:246-250 | A map lookup gives the key's code, and 0 for a missing key. |
| YpfPack.TypeNamesHaveNoDot | YpfDef.go:213-224 | Every key of the type map is three letters with no dot. |
| YpfPack.TypeAsWrittenIsZero | YpfDef.go:230-250 | Every record's type is 0. |
| YpfPack.YcgBranchUnreachable | YpfDef.go:231-233 | The ".ycg" name-cutting branch never runs. |
| YpfPack.TypeCorrectedExample | YpfDef.go:230-250 | With the dot dropped, a ".png" name gets type 2; as written it gets 0. |
| YpfPack.EntryFor | YpfDef.go:226-256 | The name pass leaves a record with the name, its checksum and type 0, and every size, offset and data field zero. |
| YpfPack.EntriesFor | YpfDef.go:226-256 | One record per file. |
| YpfPack.EntriesForAt | YpfDef.go:226-256 | Record i is the record of file i. |
| YpfPack.EntriesForSnoc | YpfDef.go:226-256 | One more file adds its record at the end. |
| YpfPack.NameChecksumOfPlainName | YpfDef.go:244-245 | Each record's name checksum is taken over the plain name bytes, with the version's name checksum. |
| YpfPack.NamesCheckOk | YpfDef.go:234-243 | The name pass succeeds exactly when every name is non-empty and the names are pairwise distinct. |
| YpfPack.NamesCheckKinds | YpfDef.go:234-243 | The name pass fails only with an empty name or a duplicate name. |
| YpfPack.NamesCheckStep | YpfDef.go:234-243 | One more name fails the pass exactly when it is empty or already listed. |
| YpfPack.NamesStayFailed | YpfDef.go:234-243 | The first failing name decides the pass's error. |
| YpfPack.NamesInEntries | YpfDef.go:238-243 | Scanning the earlier records for a name is membership in the earlier names. |
| YpfPack.SeenBefore | YpfDef.go:238-243 | The duplicate scan is true exactly when an earlier record has the name. |
| YpfPack.DirSize | YpfDef.go:251-254 | The header's directory size is 32 plus every record's size (23 + name + 4 from 479 on), when that fits 32 bits. |
| YpfPack.DirSizeStep | YpfDef.go:251-254 | Each file adds its record size with 32-bit wrap-around. |
| YpfPack.CollectNames | YpfDef.go:226-256 | The name loop fails as NamesCheck. Otherwise it fills the array with EntriesFor's records and sums the size to DirSize. |
| YpfPack.StoredForm | YpfDef.go:284-312 | The bytes stored are the zlib stream when it is shorter, the file otherwise; never longer than the file. |
| YpfPack.FirstMatch | YpfDef.go:290-297 | The first record with the same data checksum and raw size; none before it matches. |
| YpfPack.WriteUntilMatch | YpfDef.go:290-297 | The inner loop writes the payload once for each record before the first match, and takes that match's offset if there is one. |
| YpfPack.PayloadStep | YpfDef.go:262-317 | One pass fails only with read, too-large, empty or output-too-long. It fails with one of the first three exactly when the file is unreadable, over 0xFFFFFFFF bytes or empty, and with output-too-long only below version 479. On success the file was read and is 1..2^32-1 bytes long, and the buffer only grows. |
| YpfPack.Payloads | YpfDef.go:262-318 | A failed pass carries the error that one of the records' steps reports. |
| YpfPack.PayloadsFail | YpfDef.go:268-280 | The payload pass fails whenever one of its files is unreadable, over 0xFFFFFFFF bytes or empty. When no file is, it can fail only with output-too-long, and only below version 479 (YpfDef.go:313-316). |
| YpfPack.PayloadsStayFailed | YpfDef.go:268-316 | The first failing record decides the error of the pass. |
| YpfPack.AddPayload | YpfDef.go:262-317 | One loop pass on a copy of the record yields PayloadStep; the records are not modified. |
| YpfPack.AddPayloads | YpfDef.go:262-318 | The payload loop yields Payloads over the sorted records. |
| YpfPack.DedupNeverMatches | YpfDef.go:290-297 | As written no record ever matches, because every record's raw size is still 0. |
| YpfPack.PayloadWrittenPerRecord | YpfDef.go:288-312 | As written each pass appends the stored bytes once per record. |
| YpfPack.PayloadsAsWritten | YpfDef.go:262-318 | As written the payload buffer is every file's stored bytes repeated once per record. |
| YpfPack.PayloadStepCorrected | YpfDef.go:262-318 | The corrected pass fails with the same error kinds as the original. |
| YpfPack.PlacedLocatesPayload | YpfDef.go:281-312 | The corrected record gets the file's sizes, checksum and flag. New data is appended once, the record's offset points at it and the bytes there are the stored form. Repeated data shares the earlier offset and appends nothing. |
| YpfPack.PlacedExtracts | YpfDef.go:281-312 | A corrected record placed after a valid header extracts to the file's bytes with no error. |
| YpfPack.ExtractsStored | YpfDef.go:160-171 | A record whose stored bytes are in place and whose checksum fits extracts to the file's bytes with no error. |
| YpfPack.HeaderKept | YpfDef.go:154-159 | Appending bytes after a valid header leaves its magic and version as they were. |
| YpfPack.PackHeader | YpfDef.go:207-210 | The header the packer writes never carries the YPF magic. |
| YpfPack.PackedNeverParses | YpfDef.go:207-210 | The packer's output is rejected as not a YPF file by both the parser and the extractor. |
| YpfPack.PackHeaderCorrected | YpfDef.go:207-210 | The corrected header: the same fields with the YPF magic. |
| YpfPack.CorrectedHeaderReadsBack | YpfDef.go:60-66 | The corrected header reads back field for field, and the parser does not reject the archive. |
| YpfPack.OffsetBytes | YpfDef.go:339-343 | The offset is written in 4 bytes before version 479 and in 8 from then on. |
| YpfPack.RecordFields | YpfDef.go:323-344 | A record's layout takes 23 bytes plus the name, plus 4 from 479 on. |
| YpfPack.TailFields | YpfDef.go:335-344 | The fields after the name take 18 bytes, or 22 from 479 on. |
| YpfPack.RecordAsWritten | YpfDef.go:323-344 | A record fails exactly when the encoded name is over 255 bytes; otherwise it has the record length. |
| YpfPack.RecordAsWrittenMisreadsName | YpfDef.go:329-330 | The parser never takes the right number of name bytes from a record as written. |
| YpfPack.RecordCorrected | YpfDef.go:323-344 | The corrected record fails exactly as the original and has the same length. |
| YpfPack.CorrectedRecordReadsBack | YpfDef.go:71-98 | The parser reads a corrected record back: its checksum, its decoded name and all its fields, with the offset cut to 32 bits before 479. It stops right after the record. |
| YpfPack.RecordReadsBack | YpfDef.go:71-98 | Any record whose length byte decodes to its name's length and whose checksum fits the deciphered name reads back field for field. |
| YpfPack.StoredNameBack | YpfDef.go:73-78 | A length byte that decodes to the stored name's length makes the reader take exactly those bytes. |
| YpfPack.TailReadsBack | YpfDef.go:87-98 | The fields after the name read back, with the offset cut to 32 bits before version 479. |
| YpfPack.DirectoryFrom | YpfDef.go:322-345 | A failed pass carries the error of one of the records written. |
| YpfPack.DirectoryFromFails | YpfDef.go:322-345 | Whatever writes the records, the directory loop fails exactly when one record fails. |
| YpfPack.DirectoryFromLength | YpfDef.go:322-345 | Whatever writes the records, a successful directory loop is as long as the records' sizes added up. |
| YpfPack.DirectoryFails | YpfDef.go:324-328 | The directory loop fails exactly when some name encodes to more than 255 bytes, and then with name-too-long. Otherwise it takes DirectoryLength bytes. |
| YpfPack.DirectoryStaysFailed | YpfDef.go:325-328 | The first too-long name decides the error. |
| YpfPack.CipherInPlace | YpfDef.go:331-333 | The array ends up ciphered byte by byte. |
| YpfPack.WriteRecord | YpfDef.go:323-344 | The writes of one record yield RecordAsWritten. |
| YpfPack.WriteDirectory | YpfDef.go:322-345 | The record loop yields DirectoryFrom over the sorted records. |
| YpfPack.PackFinish | YpfDef.go:319-350 | Everything after the sort fails only with the packer's own error kinds, and a successful result holds at least a header. |
| YpfPack.OversizedHeaderExactly | YpfDef.go:346-349 | Once both loops succeed, packing fails with "Oversized Header" exactly when the header's directory size differs, in 32 bits, from 32 plus the records' encoded lengths; otherwise it succeeds. |
| YpfPack.PackFinishFails | YpfDef.go:268-349 | After the sort, packing fails whenever a file is bad or a name encodes to more than 255 bytes. It fails for no other reason than output-too-long below 479, or a directory size that differs from the bytes written. |
| YpfPack.PackFailsOnBadInput | YpfDef.go:268-328 | Past the name pass, `packYpf` fails whenever a listed file is unreadable, empty or over 0xFFFFFFFF bytes, or a listed name encodes to more than 255 bytes. |
| YpfPack.SizeSumRemove | YpfDef.go:322-345 | Taking one record out of the list takes exactly its size out of the total. |
| YpfPack.SizeSumPermutation | YpfDef.go:257-259 | The directory's total size does not depend on the order the sort leaves the records in. |
| YpfPack.DirectoryLengthOfNames | YpfDef.go:251-254 | When no record is longer than the header counts it (name as Go text, 4 bytes from `uint32(version)` 479 on), the records take no more than counted. They take exactly as much when every record matches, and less when one is shorter. |
| YpfPack.HeaderCheckPasses | YpfDef.go:346-349 | With names that keep their length when encoded and a version in 0..2^32-1, the directory-size check passes. |
| YpfPack.DirectoryShorter | YpfDef.go:251-254 | Records shorter than counted make the directory shorter than the header says, and, when the count fits 32 bits, a different 32-bit size. |
| YpfPack.ShorterEncodingOversized | YpfDef.go:346-349 | When no name grows and one shrinks under the code page, `packYpf` fails with "Oversized Header". |
| YpfPack.NegativeVersionOversized | YpfDef.go:251-254 | A negative version whose 32-bit form is 479 or more makes `packYpf` fail with "Oversized Header": the header counts 4 bytes a record that the records leave out. |
| YpfPack.CorrectedSizeMatches | YpfDef.go:346-349 | The corrected directory size equals, in 32 bits, what the header and the sorted records take. |
| YpfPack.CorrectedDirSizePasses | YpfDef.go:346-349 | With the directory size summed over the encoded names, the size check always passes once both loops succeed. |
| YpfPack.PackYpf | YpfDef.go:207-350 | `packYpf` fails as the name pass when that fails. Otherwise the records are sorted by name checksum as a permutation of EntriesFor's records, and the result is PackFinish's over them. |
| YpfPack.SortedRecordsBlank | YpfDef.go:262 | Every record written has a name from the list and its checksum; its sizes, offset, data checksum, flag and type are 0. |
| YpfPack.BlankRecordExtractsEmpty | YpfDef.go:161-171 | Even under a valid header, such a record extracts to no bytes. |
| YpfPack.BlankPackLayout | YpfDef.go:319-350 | Over blank records the archive is the header, the records, then each file's stored bytes once per record. |
| YpfPack.PackedLayout | YpfDef.go:262-350 | The archive `packYpf` writes: the magic-less header, the sorted records, then each file's stored bytes once per record. |
| Yscf.HeaderOf | YscfDef.go:15-38 | 78 bytes decode to a header with 8 image and 4 sound slots. |
| Yscf.HeaderBytes | YscfDef.go:15-38 | A header encodes to 78 bytes. |
| Yscf.HeaderRoundTrip | YscfDef.go:15-38 | Encoding and decoding a header gives it back. |
| Yscf.HeaderBytesRoundTrip | YscfDef.go:15-38 | Decoding and re-encoding 78 bytes gives them back. |
| Yscf.HeaderMagic | YscfDef.go:88-94 | The header read has the YSCF magic exactly when the data holds a whole header starting with "YSCF". |
| Yscf.HeaderBytesMagic | YscfDef.go:235 | The first four bytes written are the magic. |
| Yscf.ParseYscfFacts | YscfDef.go:86-99 | `parseYscf` fails only on a bad or missing magic. Otherwise the header is the first 78 bytes and the caption is the decoding of the `CaptionLength` bytes after it. |
| Yscf.ParseYscf | YscfDef.go:86-99 | The reader method yields ParseYscfSpec. |
| Yscf.SlotTexts | YscfDef.go:68-69 | Each slot prints as its decimal digits. |
| Yscf.SlotTextsHaveNoSpace | YscfDef.go:68-69 | No printed slot holds a space. |
| Yscf.RenderedValues | YscfDef.go:63-78 | The sixteen values the instruction text shows, in key order. |
| Yscf.RenderLine | YscfDef.go:63-78 | Each `Key=value` line ends in a newline. |
| Yscf.RenderLines | YscfDef.go:63-79 | The lines so far end in a newline. |
| Yscf.RenderInstructions | YscfDef.go:61-80 | The instruction text ends in a newline: the trimmed string is discarded. |
| Yscf.SlotsFrom | YscfDef.go:160-169 | The slot loop yields an array of the slot count, or a number or overflow error. |
| Yscf.SlotsFromValues | YscfDef.go:160-169 | Slot j holds piece j's number truncated to a byte; the unlisted slots are 0. |
| Yscf.ParseSlots | YscfDef.go:159-169 | The split-and-store loop yields ParseSlotsSpec. |
| Yscf.StoreSlot | YscfDef.go:162-168 | One pass stores piece j at index j, or fails with its error. |
| Yscf.SlotsFromStaysErr | YscfDef.go:162-166 | The first bad piece decides the error. |
| Yscf.TooManySlotsPanics | YscfDef.go:161-167 | More numbers than slots index past the array (a panic). |
| Yscf.SlotsFromAllNumbers | YscfDef.go:160-169 | Numbers that fit the array always store. |
| Yscf.TrailingSpaceRefused | YscfDef.go:160-166 | "1 " leaves an empty last piece, which is refused. |
| Yscf.ShortSlotListZeroFills | YscfDef.go:160-169 | "7" as the image slots gives 7 and seven zeros. |
| Yscf.SlotsFromOfTexts | YscfDef.go:160-169 | Reading back the first k printed slots rebuilds them, followed by zeros. |
| Yscf.SlotListRoundTrip | YscfDef.go:159-169 | A slot list as printed parses back to the same array. |
| Yscf.SetWord | YscfDef.go:128-228 | Setting one numeric field leaves every other field unchanged. |
| Yscf.SetWordOfGetWord | YscfDef.go:128-228 | Setting a field to its own value changes nothing. |
| Yscf.Override | YscfDef.go:123-232 | An empty capture changes nothing. Every capture keeps the padding and the magic. Only a non-empty capture outside the caption group can fail, and never with the not-a-YBN error. |
| Yscf.OverrideFields | YscfDef.go:128-232 | A capture sets only its own field: a number truncated to 32 bits or a parsed slot array. Only the caption group touches the caption and its length. |
| Yscf.OverrideWord | YscfDef.go:129-134 | A numeric capture sets its field to the number truncated to 32 bits. |
| Yscf.CaptionLengthAsWritten | YscfDef.go:230 | The caption length is the text's length modulo 2^16. |
| Yscf.OverridesFrom | YscfDef.go:122-233 | The loop keeps the fixed fields and never fails with the not-a-YBN error. Captures that are all empty change nothing. |
| Yscf.OverridesFromWord | YscfDef.go:122-233 | After the loop, each numeric field holds its capture's number truncated to 32 bits when the capture is non-empty, and its parsed value otherwise. |
| Yscf.OverridesFromSlots | YscfDef.go:122-233 | After the loop, each slot array holds its capture's list when the capture is non-empty, and its parsed value otherwise. |
| Yscf.OverridesStayErr | YscfDef.go:130-133 | The first failing capture decides the error. |
| Yscf.ApplyCapture | YscfDef.go:123-232 | One case of the switch yields Override. |
| Yscf.ApplyOverrides | YscfDef.go:122-233 | The capture loop yields OverridesFrom over the sixteen groups. |
| Yscf.RenderedValueIsFixpoint | YscfDef.go:63-77 | Each of the first fifteen rendered values, applied to its own script, changes nothing. |
| Yscf.RenderedWordIsFixpoint | YscfDef.go:63-77 | Each rendered number, applied to its own script, changes nothing. |
| Yscf.RenderedPrefixIsFixpoint | YscfDef.go:63-77 | The first fifteen rendered values together change nothing. |
| Yscf.RenderedValuesRoundTrip | YscfDef.go:122-233 | Packing with the text exactly as rendered restores every field, except a non-empty caption's length field, which becomes its length as text. |
| Yscf.PackedBytes | YscfDef.go:234-236 | The output is the header's 78 bytes followed by the encoded caption. |
| Yscf.PackYscfSpec | YscfDef.go:101-238 | The packer fails with the not-a-YBN error exactly when the original does not parse. |
| Yscf.PackYscf | YscfDef.go:101-238 | Parse, apply and serialise yield PackYscfSpec. |
| Yscf.PackedHeaderReadsBack | YscfDef.go:234-236 | The header of a packed file parses back as the header that was packed. |
| Yscf.CaptionLengthAsWrittenMisreads | YscfDef.go:229-236 | A caption whose encoded length differs from its text length is read back from the wrong number of bytes. |
| Yscf.CaptionLengthCorrected | YscfDef.go:230 | The corrected length field is the encoded caption's length. |
| Yscf.CaptionLengthCorrectedReadsBack | YscfDef.go:95-97 | With the corrected length, the packed caption parses back as the decoding of its encoding. |
| Ystl.ScriptAt | YstlDef.go:74-84 | A record read never moves back, and its `SourceLength` stays 0. |
| Ystl.ScriptAtWellFormed | YstlDef.go:74-84 | A complete record takes 28 + length bytes. Its source is the decoding of exactly the name bytes, and every field is the bytes at its place. |
| Ystl.ScriptsFrom | YstlDef.go:72-85 | k records read one after another, each with `SourceLength` 0. |
| Ystl.HeaderMagic | YstlDef.go:65-71 | The header read has the YSTL magic exactly when the data holds a whole 12-byte header starting with "YSTL". |
| Ystl.ParseYstlSpec | YstlDef.go:63-87 | Fails only on a bad or missing magic. Otherwise it yields the header and exactly `Count` records, each with `SourceLength` 0. |
| Ystl.ReadScript | YstlDef.go:74-84 | The record reads yield ScriptAt. |
| Ystl.ReadNextScript | YstlDef.go:73-85 | One loop pass extends the run of records by one. |
| Ystl.ReadScripts | YstlDef.go:72-85 | The record loop yields ScriptsFrom. |
| Ystl.ParseYstl | YstlDef.go:63-87 | The reader method yields ParseYstlSpec. |
| Ystl.InstructionLine | YstlDef.go:54 | Each instruction line starts with "yst" and ends in a newline. |
| Ystl.InstructionLineId | YstlDef.go:54 | The script number reads back from the digits after "yst". |
| Ystl.RenderInstructions | YstlDef.go:51-57 | The `+=` loop builds the lines of the records in order. |
| Ystl.InstructionsEndWithNewline | YstlDef.go:51-57 | A non-empty text ends in a newline: the trimmed string is discarded. |
| Ysvr.PayloadAt | YsvrDef.go:71-91 | Type 0 and types above 3 read nothing. Type 1 is a long, type 2 eight raw bytes, type 3 a string. |
| Ysvr.PayloadAtWellFormed | YsvrDef.go:71-91 | On complete input a payload takes exactly its size. The long is the signed 8 bytes, the double the 8 bytes, and the string the decoding of its length-prefixed bytes. |
| Ysvr.VariableAt | YsvrDef.go:67-91 | A variable has `DimCount` dimension sizes, and the reader never moves back. |
| Ysvr.VariableAtWellFormed | YsvrDef.go:68-91 | On complete input a variable is its 7 header bytes, `DimCount` u32 sizes and then its payload. |
| Ysvr.VariablesFrom | YsvrDef.go:66-92 | k variables read one after another. |
| Ysvr.HeaderMagic | YsvrDef.go:58-64 | The header read has the YSVR magic exactly when the data holds a whole 10-byte header starting with "YSVR". |
| Ysvr.ParseYsvrSpec | YsvrDef.go:56-94 | Fails only on a bad or missing magic. Otherwise it yields the header and exactly `Count` variables. |
| Ysvr.ReadPayload | YsvrDef.go:71-91 | The type switch yields PayloadAt. |
| Ysvr.ReadVariable | YsvrDef.go:67-91 | The variable reads yield VariableAt. |
| Ysvr.ReadVariables | YsvrDef.go:66-92 | The variable loop yields VariablesFrom. |
| Ysvr.ParseYsvr | YsvrDef.go:56-94 | The reader method yields ParseYsvrSpec. |

## Left out

- **File and console I/O.**
  - `filepath.Abs`, `filepath.WalkDir`, `os.ReadFile`, `os.WriteFile`, `readFileToString`, `fmt.Println` and `logln` are not modelled.
  - The packer starts from the list of relative paths and takes file contents through a `read` parameter.
  - The extractor returns (name, bytes) pairs instead of writing files.
- **zlib.** Compression and inflation are parameters. Only the "shorter than the file" decision is modelled. The writer is never closed, so nothing is assumed about the compressed bytes.
- **Code pages.** `codec.Decode` and `codec.Encode` are parameters, and nothing is assumed about their lengths.
- **MurmurHash2** follows the published reference algorithm, because the `go-murmur` package is not part of this model.
- **The CRC-32 table lookup** is not proved equal to the bitwise register it tabulates. Instead each table entry is computed from the polynomial and proved equal to the inline constant.
- **JSON output.** `json.MarshalIndent` in the three side-format front ends is left out.
- **The instruction-text regular expression** of `packYscfFile` (YscfDef.go:116-121) is left out. Its result enters as sixteen captured strings, empty when a group did not match.
- **Doubles in YSVR** are carried as their 8 raw bytes; no floating point is modelled.
- **Sort order among ties.** `sort.Slice` is unstable, so both sorts promise only "sorted and a permutation". The insertion sort used is one admissible order.
- Ybn.ReadAnsiStr: requires a zero byte after the position, or an exhausted reader. On input that ends in a non-zero byte the Go loop never terminates, because the failed read leaves the last byte in place.
- YpfPack.PayloadStep: `OutputTooLong` is checked against the buffer length only for versions below 479, as in the source. The 64-bit offset of later versions is not bounded.
- YpfPack.Ext: models `filepath.Ext` as built for Unix, where only '/' ends the scan for the dot. On Windows `\` ends it too. The as-written type is 0 either way; only YpfPack.TypeCorrected would differ, on names such as `a.b\c`.
- YpfPack.PackYpf: `ghost sorted` names the sorted records, because the tie order of the sort is left open.
- Ypf.EntryTailAt and Ypf.StoredNameAt: their own contracts only bound the position. What they read is stated on complete input by YpfPack.TailReadsBack and YpfPack.StoredNameBack.

## Findings

| source | as written | input that shows it | evidently intended | confidence | as-written member | corrected member |
|---|---|---|---|---|---|---|
| YpfDef.go:207-210 | The packer never sets the header magic, so it stays four zero bytes. | Any list of files that packs without error. | The header carries "YPF\0", as `parseYpf` and `extractFileFromYpf` require. | not executed | YpfPack.PackedNeverParses | YpfPack.CorrectedHeaderReadsBack |
| YpfDef.go:329-330 | The length byte is the index of the length in the table, written without a complement, while the reader complements it first (YpfDef.go:75). | A 5-byte name at version 500: byte 5 is written and read back as 250. | Write the complement of the index. | not executed | YpfPack.RecordAsWrittenMisreadsName | YpfPack.CorrectedRecordReadsBack |
| YpfDef.go:230-250 | `filepath.Ext` keeps the dot, so no extension matches a key of the type map, and the ".ycg" branch never runs. | "a.png" gets type 0. | Look up the extension without its dot: "a.png" gets type 2. | not executed | YpfPack.TypeAsWrittenIsZero | YpfPack.TypeCorrectedExample |
| YpfDef.go:262-312 | The payload loop fills in a copy of each record and drops it. The written records keep zero sizes, offsets and checksums, no record ever matches, and each payload is appended once per record. | Two files "a" and "b" of 2 bytes each: the payload area holds four copies, and both records extract to nothing. | Fill in each record where it lies. Append a payload once, unless an earlier record holds the same data, whose offset is then shared. | not executed | YpfPack.PackedLayout | YpfPack.PlacedExtracts |
| YscfDef.go:229-236 | The caption length field is set from the caption's length as text, but the bytes written are its code-page encoding. | A caption whose encoding is longer or shorter than its text, such as one with non-ASCII characters under a double-byte code page. | Set the length field to the encoded length. | not executed | Yscf.CaptionLengthAsWrittenMisreads | Yscf.CaptionLengthCorrectedReadsBack |
| YpfDef.go:251-254 | The header's directory size adds up each name's length as Go text, but the records hold the name's code-page encoding (YpfDef.go:324), and the sizes are compared at YpfDef.go:346-349. | One file named with a single kana under code page 932: 3 bytes as Go text, 2 encoded. The header counts one byte more than is written, and packing fails with "Oversized Header". | Sum the encoded lengths. | not executed | YpfPack.ShorterEncodingOversized | YpfPack.CorrectedDirSizePasses |
