# LG DZ / KDZ firmware container readers, modelled in Dafny

Two small C tools unpack LG firmware images: `dz.c` reads the DZ container
and `kdz.c` reads the KDZ container. This project models both of them. Each
tool checks a magic number, then walks a partition table of fixed-size
records into a 64-slot array. It then lists the table, extracts one entry by
index, or extracts every entry.

The input file is an immutable byte sequence. It is read through `fread`
semantics (`Bytes.ReadAt`, `Bytes.Fread`), where a read near the end of the
file returns fewer bytes. Each output file is a `Write(path, data)` value.
zlib's `uncompress` is a function parameter (an oracle). So are the contents
of freshly `malloc`ed memory.

- `bytes.dfy` (module `Bytes`) holds the shared vocabulary:
  - bytes and `uint32_t` values;
  - the `fread` model;
  - little-endian decoding;
  - C strings cut out of zero-padded fields.
- `cli.dfy` (module `Cli`) holds the parsed options and the observable
  outcome of a run.
- `dz.dfy` (module `Dz`) models `dz.c`.
  - The magic is `32 96 18 74`.
  - Sub-records are 512 bytes long, start at byte 512 and carry the
    sub-magic `30 12 95 78`.
  - An entry's payload offset is the cursor just past its sub-record, kept
    as a `uint32_t`.
  - The walk stops on a short read, a bad sub-magic, a payload that reaches
    the end of the file (tested in 32-bit unsigned arithmetic), or 64
    entries.
  - Extraction inflates the payload. When that fails it writes the raw
    bytes to `<name>.gz`.
- `kdz.dfy` (module `Kdz`) models `kdz.c`.
  - Only 4 of the 8 magic bytes are compared.
  - Records are 272 bytes long and start at byte 8.
  - After each record a 4-byte peek ends the table on a short read or on
    four zero bytes. Any other peek rewinds the cursor.
  - Extraction copies the payload in chunks of at most 1024 bytes.
  - `safeStringCopy` is a bounded string copy.

The table walks, the KDZ copy loop and `safeStringCopy` are imperative
methods. Each is proved against a specification function:
- each table walk against `EntriesFrom`;
- the KDZ copy loop against `Extraction`;
- `safeStringCopy` against `StrNCpy`.

The properties of the formats are lemmas about those functions.

## Model

| member | source | states |
|---|---|---|
| Bytes.ReadAt | dz.c:103-105 | `fread` of n bytes at a position returns the next n bytes, fewer at the end of the file, none past it; a read is full exactly when the file has n bytes there |
| Bytes.Fread | kdz.c:196 | the bytes read land at the start of the buffer, the count is their number, and the rest of the buffer is unchanged |
| Bytes.ReadAtSplit | kdz.c:194-202 | two consecutive reads, the first of them full, return what one read of the combined size returns |
| Bytes.LeU32RoundTrip | dz.c:127-128 | decoding the four little-endian bytes of a `uint32_t` gives the value back |
| Bytes.LeU32Injective | dz.c:127-128 | encoding the value decoded from four bytes gives the same bytes back, so distinct fields decode to distinct values |
| Bytes.CutAtZeroUnique | dz.c:122-125 | a fixed-width text field read as a C string is the unique prefix without zero bytes that ends at the first zero byte or at the end of the field |
| Dz.ReadRecord | dz.c:103-115 | one 512-byte read followed by the sub-magic test yields exactly the entry `RecordAt` describes, or none |
| Dz.RecordAtFound | dz.c:103-135 | a record is found exactly when 512 bytes can be read and they open with `30 12 95 78`; its bytes are the file's bytes at that position, and its offset is the position just past them, reduced to 32 bits |
| Dz.ReadPartitionTable | dz.c:95-149 | the loop that fills the 64-entry array returns exactly the entries of the table walk from the given position |
| Dz.TableBounds | dz.c:136-148 | the table never holds more than 64 entries, so every store into `partitions` is in bounds |
| Dz.EntriesFromBound | dz.c:148 | a walk with room for k entries collects at most k |
| Dz.EntryBlock | dz.c:100-135 | entry i of the table is the 512-byte block at its block start, the block opens with the sub-magic, and the entry's offset is the end of the block |
| Dz.EntryFields | dz.c:117-135 | entry i opens with the sub-magic; its type, name, length and checksum are read at byte offsets 4, 36, 104 and 108 of its 512-byte block; its offset is the end of that block |
| Dz.BlockFields | dz.c:117-132 | each accessor of an entry reads the file's bytes at its fixed offset from the start of the block |
| Dz.OffsetsFollowLengths | dz.c:134-146 | the first payload starts at byte 1024, and each next payload starts `length + 512` bytes after the previous one (files under 4 GiB) |
| Dz.BlockStartsStep | dz.c:145-146 | consecutive sub-records are one 512-byte block plus one payload apart |
| Dz.WalkRecord | dz.c:100-146 | each entry of a walk is the record found at its block start |
| Dz.WalkInner | dz.c:140-143 | no entry except the last has `offset + length >= file_length` in 32-bit arithmetic |
| Dz.InnerPayloadsInsideFile | dz.c:140-146 | every payload but the last is followed by at least one full sub-record inside the file (files under 4 GiB) |
| Dz.WalkStop | dz.c:100-149 | a walk that stops with room left stops after an entry that reaches the end of the file, or at a block that is short or lacks the sub-magic |
| Dz.WalkFromBytes | dz.c:100-148 | a walk with room left over blocks that hold the given marked records, none reaching the end of the file, followed by a short or unmarked block, collects exactly those records |
| Dz.TableStops | dz.c:100-149 | the table ends in one of three ways: it holds 64 entries, its last entry reaches the end of the file, or the next block is short or lacks the sub-magic |
| Dz.BadRecordEndsTable | dz.c:100-148 | stated from the file's bytes: when the blocks from byte 512 hold k < 64 records with the sub-magic, none of whose payloads passes the end-of-file test, and block k is short or lacks the sub-magic, the table is exactly those k entries |
| Dz.ExtractPartition | dz.c:181-252 | fills a `length`-byte heap buffer from the file and writes exactly the file `Extraction` describes |
| Dz.CompressedDataReadsPayload | dz.c:195-203 | the compressed buffer is `length` bytes long and starts with every byte the file holds at `offset`; when the payload lies inside the file, the buffer is exactly the payload |
| Dz.ExtractionTargets | dz.c:220-247 | exactly one of two files is written: `<dir>/<name>` with the inflated bytes when `uncompress` succeeds, otherwise `<dir>/<name>.gz` with the compressed buffer |
| Dz.FallbackWritesStoredBytes | dz.c:222-235 | a payload inside the file that does not inflate is written verbatim, `length` bytes, to `<dir>/<name>.gz` |
| Dz.ExtractAll | dz.c:164-167 | extract-all writes one file per entry, in table order, each extraction with its own freshly allocated buffer |
| Dz.Run | dz.c:84-168 | a file without the magic is rejected before the table is read; otherwise list, single extraction or extract-all follows, the first selected mode wins, and an index past the table reports an error and writes nothing |
| Kdz.ReadPartitionTable | kdz.c:94-133 | the loop with its peek and rewind returns exactly the entries of the table walk from the given position |
| Kdz.TableBounds | kdz.c:115-132 | the table never holds more than 64 entries, so every store into `partitions` is in bounds |
| Kdz.EntriesFromBound | kdz.c:132 | a walk with room for k entries collects at most k |
| Kdz.WalkRecord | kdz.c:94-129 | entry i of a walk is the 272 bytes at `pos + 272 * i`: the rewind means no peeked bytes are consumed |
| Kdz.EntryFields | kdz.c:99-113 | record i is the 272 bytes at `8 + 272 * i`; its name is the first 32 bytes up to a zero byte; its length is the little-endian `uint32_t` at byte 256 and its offset the one at byte 264 |
| Kdz.RecordFields | kdz.c:104-113 | each accessor of an entry reads the file's bytes at its fixed offset from the start of the record |
| Kdz.WalkMark | kdz.c:119-129 | after every entry but the last of a walk, the 4-byte peek was full and not all zeros |
| Kdz.TablePeeks | kdz.c:119-129 | after every table entry but the last, the peek was full and not all zeros |
| Kdz.WalkStop | kdz.c:94-133 | a walk that stops with room left stops at a short record read, or at a short or all-zero peek after its last entry |
| Kdz.TableStops | kdz.c:94-133 | the table ends in one of three ways: it holds 64 entries, the next record read is short, or the peek after its last entry is short or all zeros |
| Kdz.TerminatorEndsTable | kdz.c:119-125 | an all-zero peek right after record k, with full non-zero peeks before it, ends the table with exactly k + 1 entries; the terminator is not an entry |
| Kdz.ShortFileHasNoTable | kdz.c:76-100 | a file shorter than the 8-byte header leaves the cursor at its end, and the table is empty as it is from byte 8 |
| Kdz.MagicTailIgnored | kdz.c:76-79 | bytes 4 to 8 of the header never matter: changing them changes neither acceptance nor the table |
| Kdz.CopyStep | kdz.c:196-201 | a read that continues a full prefix of the payload extends that prefix |
| Kdz.CopyInvStep | kdz.c:194-202 | one pass of the copy loop keeps its invariant: the output so far is the payload prefix read so far, every chunk holds 1 to 1024 bytes, all chunks but the last are full, and a short last chunk means the file or the length ran out |
| Kdz.ExtractPartition | kdz.c:169-206 | the chunked copy writes `<dir>/<name>` holding the `fread` of `length` bytes at `offset`, as chunks of at most 1024 bytes, all full but the last |
| Kdz.ExtractionIsCopy | kdz.c:183-202 | the output equals the file's bytes in `[offset, offset + length)` when they lie inside the file, and otherwise everything from `offset` to the end of the file |
| Kdz.SafeStringCopy | kdz.c:223-226 | `dest[..size]` becomes the source string truncated to `size - 1` bytes and zero-padded (`strncpy`), followed by a zero byte; nothing past `size` changes |
| Kdz.SafeCopyReadsBack | kdz.c:223-226 | the copy always reads back as a terminated C string holding the first `size - 1` bytes of the source string |
| Kdz.ExtractAll | kdz.c:149-153 | extract-all writes one file per entry, in table order |
| Kdz.Run | kdz.c:75-154 | a file whose first four bytes are not `28 05 00 00` is rejected; otherwise the table is read from where the 8-byte header read left the cursor, then list, single extraction or extract-all follows, and an index past the table reports an error and writes nothing |
| Kdz.BootExample | kdz.c:94-202 | a container with one record named "boot" (length 10, offset 284) followed by a zero terminator and the bytes 0 to 9 has a one-entry table, and extracting that entry writes the bytes 0 to 9 to `<dir>/boot` |

## Left out

- Argument parsing and `printUsage` (dz.c:53-70, kdz.c:46-66) are not modelled. `Run` takes the parsed options. Its precondition is the usage check that at least one mode is selected.
- `printf` status text and the formatting in `listPartitions` are not modelled. A listing is the table itself.
- Failures of `fopen`, `fwrite` and `malloc` are not modelled. A real run writes nothing, or part of a file, in those cases. The model assumes every file opens and every allocation succeeds.
- zlib `uncompress` is an oracle parameter (`Dz.Inflate`). Deflate itself is not modelled. A result that does not fit the `length * 4 + 50 MiB` buffer counts as a failure. The buffer size wraps modulo 2^32, as in the C code.
- Paths are `dir + "/" + name` and `path + ".gz"`. The 512-byte `snprintf` truncation is not modelled. Neither is the overlapping `sprintf(outPath, "%s.gz", outPath)` (dz.c:225), which is undefined behaviour in C.
- The DZ checksum is carried but never verified, as in the source.
- The count that `fread` returns for the DZ payload is ignored (dz.c:203), so a short payload read is not detected. It leaves uninitialised heap bytes in the buffer, and the buffer is written or inflated as the code does. Each `extractPartition` call `malloc`s a fresh buffer (dz.c:196); `Dz.Run` and `Dz.ExtractAll` take one function of the call index and the byte index, `heap(i)` for the i-th call, so the filler may differ from call to call.
- A KDZ payload read that comes up short ends the copy with a shorter file. No error is reported. The model follows the code here too.
- The main header check of both tools ignores the count `fread` returns (dz.c:85, kdz.c:76). A file too short to supply the compared bytes leaves uninitialised bytes in `header_check`. The model rejects such a file.
- A KDZ file of 4 to 7 bytes leaves the cursor at its end. Its table is then empty (`Kdz.ShortFileHasNoTable`).
- `memcpy` of a field into a `uint32_t` is modelled as a little-endian decode. Big-endian hosts are not modelled.
- Cursor positions are unbounded, which assumes a 64-bit `long` (LP64), where overflow needs files of 2^63 bytes. Where `long` is 32 bits, the code differs and the model does not follow it: `fseek(fp, length, SEEK_CUR)` (dz.c:146) seeks backwards for any `length >= 2^31`, and `fseek(fp, offset, SEEK_SET)` (dz.c:193, kdz.c:184) fails for `offset >= 2^31` and leaves the cursor where it was. The model always moves to the exact forward position.
- `safeStringCopy` is never called by `main`. It is modelled on its own, over a byte array.
  - Its source string is a byte sequence, and a source without a zero byte ends where the sequence ends.
  - `size == 0` is excluded because `size - 1` wraps in C.
- Dz.OffsetsFollowLengths: stated only for files under 4 GiB. For larger files the 32-bit offset wraps and payload positions no longer follow offsets.
- Dz.InnerPayloadsInsideFile: stated only for files under 4 GiB, for the same reason.
