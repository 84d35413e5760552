/** The KDZ container reader (kdz.c).

    A KDZ file opens with an 8-byte magic of which only the first four bytes
    are compared. The partition table follows at once: 272-byte records, each
    naming a partition and giving its payload length and absolute offset. After
    every record a 4-byte peek decides whether the table goes on: four zero
    bytes end it, anything else belongs to the next record. Extraction copies a
    payload to `<outDir>/<name>` in chunks of at most 1024 bytes. */
module Kdz {
  import opened Bytes
  import opened Cli

  /** `KDZ_HEADER`. */
  const Magic: seq<byte> := [0x28, 0x05, 0x00, 0x00, 0x34, 0x31, 0x25, 0x80]
  /** The header read is 8 bytes long ... */
  const HeaderLen: nat := 8
  /** ... but only this many of them are compared. */
  const CheckedLen: nat := 4
  /** Size of one record (`KDZ_SUB_LEN`). */
  const SubLen: nat := 272
  /** Size of the peek after each record. */
  const MarkLen: nat := 4
  /** Capacity of the `partitions` array (`MAX_PARTITIONS`). */
  const MaxPartitions: nat := 64
  /** Size of the copy buffer of `extractPartition`. */
  const ChunkSize: nat := 1024

  /** A whole 272-byte record as read from the file. */
  type Record = b: seq<byte> | |b| == SubLen witness seq(SubLen, _ => 0)

  /** One table entry, held as the record it was read from. The fields of
      `PartitionEntry` are read from it at fixed offsets. */
  datatype Entry = Entry(record: Record)
  {
    /** The partition name: the first 32 bytes up to the first zero byte. */
    function Name(): seq<byte> { CutAtZero(record[..32]) }
    /** The payload length, a little-endian `uint32_t` at byte 256. */
    function Length(): u32 { LeU32(record[256..260]) }
    /** The absolute payload offset, a little-endian `uint32_t` at byte 264. */
    function Offset(): u32 { LeU32(record[264..268]) }
  }

  /** The header check: the first four bytes are `28 05 00 00`. A file too
      short to supply them is rejected. */
  predicate HasMagic(src: seq<byte>)
  {
    |src| >= CheckedLen && src[..CheckedLen] == Magic[..CheckedLen]
  }

  /** The end-of-table test on a full 4-byte peek: every byte is zero. */
  predicate IsTerminator(mark: seq<byte>)
    requires |mark| == MarkLen
  {
    mark[0] == 0 && mark[1] == 0 && mark[2] == 0 && mark[3] == 0
  }

  /** The entries the table walk collects from the cursor `pos` on, with room
      for `room` more entries: a short record read ends the walk; a full one is
      always collected; then a short peek or a terminator ends the walk, and
      otherwise the next record starts right after this one. */
  function EntriesFrom(src: seq<byte>, pos: nat, room: nat): seq<Entry>
    decreases room
  {
    if room == 0 then []
    else
      var buf := ReadAt(src, pos, SubLen);
      if |buf| < SubLen then []
      else
        var mark := ReadAt(src, pos + SubLen, MarkLen);
        if |mark| < MarkLen || IsTerminator(mark) then [Entry(buf)]
        else [Entry(buf)] + EntriesFrom(src, pos + SubLen, room - 1)
  }

  /** The partition table of a KDZ file: the walk from just past the header. */
  function Table(src: seq<byte>): seq<Entry>
  {
    EntriesFrom(src, HeaderLen, MaxPartitions)
  }

  /** The walk in the shape of the loop of `main`: `done` holds the entries
      already stored in `partitions`, and the result is the full array. */
  ghost function Collect(src: seq<byte>, done: seq<Entry>, pos: nat, room: nat): seq<Entry>
    decreases room
  {
    if room == 0 then done
    else
      var buf := ReadAt(src, pos, SubLen);
      if |buf| < SubLen then done
      else
        var mark := ReadAt(src, pos + SubLen, MarkLen);
        if |mark| < MarkLen || IsTerminator(mark) then done + [Entry(buf)]
        else Collect(src, done + [Entry(buf)], pos + SubLen, room - 1)
  }

  /** The loop's accumulated view and the table agree. */
  lemma {:induction false} CollectIsEntries(src: seq<byte>, done: seq<Entry>, pos: nat, room: nat)
    ensures Collect(src, done, pos, room) == done + EntriesFrom(src, pos, room)
    decreases room
  {
    if room > 0 && |ReadAt(src, pos, SubLen)| == SubLen {
      var e := Entry(ReadAt(src, pos, SubLen));
      var mark := ReadAt(src, pos + SubLen, MarkLen);
      if |mark| == MarkLen && !IsTerminator(mark) {
        var rest := EntriesFrom(src, pos + SubLen, room - 1);
        CollectIsEntries(src, done + [e], pos + SubLen, room - 1);
        assert EntriesFrom(src, pos, room) == [e] + rest;
        assert done + [e] + rest == done + ([e] + rest);
      }
    } else {
      assert done + [] == done;
    }
  }

  /** The table walk of `main` from the cursor `start`: reads records into a
      fixed array of 64 entries, peeking after each one and restoring the
      cursor unless the peek ends the table. */
  method ReadPartitionTable(src: seq<byte>, start: nat) returns (parts: seq<Entry>)
    ensures parts == EntriesFrom(src, start, MaxPartitions)
  {
    var partitions := new Entry[MaxPartitions];
    var count := 0;
    var pos: nat := start;
    while true
      invariant 0 <= count < MaxPartitions
      invariant Collect(src, partitions[..count], pos, MaxPartitions - count)
                == Collect(src, [], start, MaxPartitions)
      decreases MaxPartitions - count
    {
      var buf := ReadAt(src, pos, SubLen);
      ghost var done := partitions[..count];
      if |buf| < SubLen {
        break;
      }
      var part := Entry(buf);
      partitions[count] := part;
      count := count + 1;
      assert partitions[..count] == done + [part];
      pos := pos + SubLen;
      var currentOffset := pos;
      var mark := ReadAt(src, pos, MarkLen);
      if |mark| != MarkLen {
        break;
      }
      pos := pos + MarkLen;
      if IsTerminator(mark) {
        break;
      }
      pos := currentOffset;
      if count >= MaxPartitions {
        break;
      }
    }
    parts := partitions[..count];
    CollectIsEntries(src, [], start, MaxPartitions);
    assert [] + EntriesFrom(src, start, MaxPartitions) == EntriesFrom(src, start, MaxPartitions);
  }

  // ---------------------------------------------------------------------------
  // Extraction

  /** The concatenation of the chunks written, in order. */
  function Concat(chunks: seq<seq<byte>>): seq<byte>
  {
    if chunks == [] then [] else Concat(chunks[..|chunks| - 1]) + chunks[|chunks| - 1]
  }

  lemma ConcatAppend(chunks: seq<seq<byte>>, c: seq<byte>)
    ensures Concat(chunks + [c]) == Concat(chunks) + c
  {
    assert (chunks + [c])[..|chunks|] == chunks;
  }

  /** One chunk of the copy: a read that continues a full prefix extends it. */
  lemma CopyStep(src: seq<byte>, off: nat, done: nat, n: nat)
    requires |ReadAt(src, off, done)| == done
    ensures var got := ReadAt(src, off + done, n);
            && ReadAt(src, off, done) + got == ReadAt(src, off, done + |got|)
            && |ReadAt(src, off, done + |got|)| == done + |got|
  {
    var got := ReadAt(src, off + done, n);
    assert ReadAt(src, off + done, |got|) == got;
    ReadAtSplit(src, off, done, |got|);
  }

  /** Appending a chunk after full chunks keeps every chunk but the last full. */
  lemma ChunkSizes(chunks: seq<seq<byte>>, c: seq<byte>)
    requires forall i | 0 <= i < |chunks| :: 0 < |chunks[i]| <= ChunkSize
    requires forall i | 0 <= i < |chunks| - 1 :: |chunks[i]| == ChunkSize
    requires |chunks| > 0 ==> |chunks[|chunks| - 1]| == ChunkSize
    requires 0 < |c| <= ChunkSize
    ensures forall i | 0 <= i < |chunks + [c]| :: 0 < |(chunks + [c])[i]| <= ChunkSize
    ensures forall i | 0 <= i < |chunks + [c]| - 1 :: |(chunks + [c])[i]| == ChunkSize
  {
  }

  /** The file `extractPartition` writes for an entry: `<outDir>/<name>`,
      holding what the file has at `offset`, `length` bytes or fewer where the
      file ends first. */
  function Extraction(src: seq<byte>, part: Entry, outDir: seq<byte>): Write
  {
    Write(JoinPath(outDir, part.Name()), ReadAt(src, part.Offset(), part.Length()))
  }

  /** What the copy loop keeps after `done` bytes: they are the file's bytes
      from `offset` on and were all there to read, the chunks written so far
      hold exactly them, every chunk is between 1 and 1024 bytes, all but the
      last are full, and a short last chunk means the file or the length ran
      out. */
  ghost predicate CopyInv(src: seq<byte>, offset: nat, length: nat, done: nat, chunks: seq<seq<byte>>)
  {
    && done <= length
    && |ReadAt(src, offset, done)| == done
    && Concat(chunks) == ReadAt(src, offset, done)
    && (forall i | 0 <= i < |chunks| :: 0 < |chunks[i]| <= ChunkSize)
    && (forall i | 0 <= i < |chunks| - 1 :: |chunks[i]| == ChunkSize)
    && (|chunks| > 0 && |chunks[|chunks| - 1]| < ChunkSize ==> offset + done >= |src| || done == length)
  }

  /** One pass of the copy loop that reads something keeps `CopyInv`. */
  lemma CopyInvStep(src: seq<byte>, offset: nat, length: nat, done: nat, chunks: seq<seq<byte>>, toRead: nat)
    requires CopyInv(src, offset, length, done, chunks)
    requires done < length && toRead == Min(length - done, ChunkSize)
    requires |ReadAt(src, offset + done, toRead)| > 0
    ensures var c := ReadAt(src, offset + done, toRead);
            CopyInv(src, offset, length, done + |c|, chunks + [c])
  {
    var c := ReadAt(src, offset + done, toRead);
    assert offset + done < |src|;
    CopyStep(src, offset, done, toRead);
    ConcatAppend(chunks, c);
    ChunkSizes(chunks, c);
    if |c| < ChunkSize {
      if |c| < toRead {
        assert offset + done + |c| == |src|;
      } else {
        assert done + |c| == length;
      }
    }
  }

  /** `extractPartition`: copies the payload through a 1024-byte buffer, one
      `fread` and one `fwrite` per chunk, until `length` bytes are copied or a
      read returns nothing. `chunks` are the successive `fwrite`s. */
  method ExtractPartition(src: seq<byte>, part: Entry, outDir: seq<byte>)
    returns (w: Write, chunks: seq<seq<byte>>)
    ensures w == Extraction(src, part, outDir)
    ensures Concat(chunks) == w.data
    ensures forall i | 0 <= i < |chunks| :: 0 < |chunks[i]| <= ChunkSize
    ensures forall i | 0 <= i < |chunks| - 1 :: |chunks[i]| == ChunkSize
  {
    var outPath := JoinPath(outDir, part.Name());
    var offset: nat, length: nat := part.Offset(), part.Length();
    var buffer := new byte[ChunkSize];
    var totalRead: nat := 0;
    var cursor: nat := offset;
    chunks := [];
    while totalRead < length
      invariant cursor == offset + totalRead
      invariant CopyInv(src, offset, length, totalRead, chunks)
      decreases length - totalRead
    {
      var toRead := if length - totalRead > ChunkSize then ChunkSize else length - totalRead;
      var readNow := Fread(buffer, src, cursor, toRead);
      if readNow == 0 {
        break;
      }
      var chunk := buffer[..readNow];
      assert chunk == ReadAt(src, offset + totalRead, toRead);
      CopyInvStep(src, offset, length, totalRead, chunks, toRead);
      chunks := chunks + [chunk];
      totalRead := totalRead + readNow;
      cursor := cursor + readNow;
    }
    if totalRead < length {
      ReadAtExhausted(src, offset, totalRead, length);
    }
    w := Write(outPath, Concat(chunks));
  }

  /** An extraction is a byte-exact copy: the output holds the file's bytes
      from `offset` on, `length` of them when the payload lies inside the file
      and otherwise every byte up to the end of the file. */
  lemma ExtractionIsCopy(src: seq<byte>, part: Entry, outDir: seq<byte>)
    ensures var w := Extraction(src, part, outDir);
            var off := part.Offset();
            && w.path == JoinPath(outDir, part.Name())
            && (off + part.Length() <= |src| ==> w.data == src[off..off + part.Length()])
            && (off + part.Length() > |src| ==> w.data == if off < |src| then src[off..] else [])
  {
    var off := part.Offset();
    if off + part.Length() <= |src| {
      ReadAtFull(src, off, part.Length());
    }
  }

  // ---------------------------------------------------------------------------
  // safeStringCopy

  /** `strncpy(dest, s, n)` as the n bytes it stores: the C string held in `s`
      (its bytes up to the first zero) truncated to n bytes and padded with
      zeros up to n. */
  function StrNCpy(s: seq<byte>, n: nat): seq<byte>
  {
    var str := CutAtZero(s);
    seq(n, i requires 0 <= i < n => if i < |str| then str[i] else 0)
  }

  /** `safeStringCopy(dest, src, size)`: `strncpy` of `size - 1` bytes, then a
      zero at `dest[size - 1]`. Nothing past the first `size` bytes changes. */
  method SafeStringCopy(dest: array<byte>, src: seq<byte>, size: nat)
    requires 1 <= size <= dest.Length
    modifies dest
    ensures dest[..size] == StrNCpy(src, size - 1) + [0]
    ensures dest[size..] == old(dest[size..])
  {
    ghost var str := CutAtZero(src);
    ghost var want := StrNCpy(src, size - 1);
    var n := size - 1;
    var i := 0;
    while i < n && i < |src| && src[i] != 0
      invariant i <= n && i <= |str|
      invariant dest[..i] == want[..i]
      invariant dest[size..] == old(dest[size..])
    {
      assert i < |str| && want[i] == src[i];
      dest[i] := src[i];
      i := i + 1;
    }
    while i < n
      invariant i <= n && (i == n || |str| <= i)
      invariant dest[..i] == want[..i]
      invariant dest[size..] == old(dest[size..])
    {
      assert want[i] == 0;
      dest[i] := 0;
      i := i + 1;
    }
    dest[size - 1] := 0;
    assert dest[..size] == dest[..size - 1] + [0];
  }

  /** What `safeStringCopy` leaves behind reads back as a C string holding the
      first `size - 1` bytes of the source string: the copy is always
      terminated and never longer than the buffer allows. */
  lemma SafeCopyReadsBack(s: seq<byte>, size: nat)
    requires size >= 1
    ensures var str := CutAtZero(s);
            CutAtZero(StrNCpy(s, size - 1) + [0]) == str[..Min(|str|, size - 1)]
  {
    var str := CutAtZero(s);
    var d := StrNCpy(s, size - 1) + [0];
    var r := str[..Min(|str|, size - 1)];
    assert r == d[..|r|];
    CutAtZeroUnique(d, r);
  }

  // ---------------------------------------------------------------------------
  // Command dispatch

  /** `main` after the arguments are parsed: the 8-byte header read and its
      4-byte check, the table walk from where the header read left the cursor,
      then the first selected mode among list, single extraction, extract all. */
  method Run(src: seq<byte>, cmd: Command, outDir: seq<byte>) returns (o: Outcome<Entry>)
    requires Selected(cmd)
    ensures o == Rejected <==> !HasMagic(src)
    ensures HasMagic(src) && cmd.listOnly ==> o == Listed(Table(src))
    ensures HasMagic(src) && !cmd.listOnly && cmd.extractId >= 0 ==>
      o == if cmd.extractId < |Table(src)|
           then Extracted([Extraction(src, Table(src)[cmd.extractId], outDir)])
           else IdOutOfRange
    ensures HasMagic(src) && !cmd.listOnly && cmd.extractId < 0 ==>
      && o.Extracted?
      && |o.files| == |Table(src)|
      && forall i | 0 <= i < |o.files| :: o.files[i] == Extraction(src, Table(src)[i], outDir)
  {
    var headerCheck := ReadAt(src, 0, HeaderLen);
    if |headerCheck| < CheckedLen || headerCheck[..CheckedLen] != Magic[..CheckedLen] {
      return Rejected;
    }
    if |headerCheck| < HeaderLen {
      ShortFileHasNoTable(src);
    }
    var partitions := ReadPartitionTable(src, |headerCheck|);
    if cmd.listOnly {
      o := Listed(partitions);
    } else if cmd.extractId >= 0 {
      if cmd.extractId < |partitions| {
        var w, _ := ExtractPartition(src, partitions[cmd.extractId], outDir);
        o := Extracted([w]);
      } else {
        o := IdOutOfRange;
      }
    } else {
      var files := ExtractAll(src, partitions, outDir);
      o := Extracted(files);
    }
  }

  /** The extract-all mode of `main`: every entry of the table in order. */
  method ExtractAll(src: seq<byte>, partitions: seq<Entry>, outDir: seq<byte>)
    returns (files: seq<Write>)
    ensures |files| == |partitions|
    ensures forall k | 0 <= k < |files| :: files[k] == Extraction(src, partitions[k], outDir)
  {
    files := [];
    for i := 0 to |partitions|
      invariant |files| == i
      invariant forall k | 0 <= k < i :: files[k] == Extraction(src, partitions[k], outDir)
    {
      var w, _ := ExtractPartition(src, partitions[i], outDir);
      files := files + [w];
    }
  }

  /** A file shorter than the header leaves the cursor at its end, where the
      walk finds nothing, as it does from byte 8. */
  lemma ShortFileHasNoTable(src: seq<byte>)
    requires |src| < HeaderLen
    ensures EntriesFrom(src, |src|, MaxPartitions) == [] == Table(src)
  {
  }

  // ---------------------------------------------------------------------------
  // Properties of the table walk

  /** A walk with room for `room` entries collects at most that many. */
  lemma {:induction false} EntriesFromBound(src: seq<byte>, pos: nat, room: nat)
    ensures |EntriesFrom(src, pos, room)| <= room
    decreases room
  {
    if room > 0 {
      EntriesFromBound(src, pos + SubLen, room - 1);
    }
  }

  /** A walk that goes on past its first entry. */
  lemma WalkUnfold(src: seq<byte>, pos: nat, room: nat)
    requires |EntriesFrom(src, pos, room)| > 1
    ensures room > 0 && pos + SubLen + MarkLen <= |src|
    ensures !IsTerminator(src[pos + SubLen..pos + SubLen + MarkLen])
    ensures var r := EntriesFrom(src, pos, room);
            && r[0] == Entry(src[pos..pos + SubLen])
            && r[1..] == EntriesFrom(src, pos + SubLen, room - 1)
  {
    ReadAtFull(src, pos, SubLen);
    ReadAtFull(src, pos + SubLen, MarkLen);
  }

  /** Entry i of a walk from `pos` is the record at `pos + 272 * i`: the
      records lie back to back, with no peeked bytes consumed in between. */
  lemma {:induction false} WalkRecord(src: seq<byte>, pos: nat, room: nat, i: nat)
    requires i < |EntriesFrom(src, pos, room)|
    ensures pos + 272 * (i + 1) <= |src|
    ensures EntriesFrom(src, pos, room)[i].record == src[pos + 272 * i..pos + 272 * (i + 1)]
    decreases i
  {
    if i == 0 {
      ReadAtFull(src, pos, SubLen);
    } else {
      WalkUnfold(src, pos, room);
      WalkRecord(src, pos + SubLen, room - 1, i - 1);
    }
  }

  /** After every entry but the last, a full 4-byte peek found something other
      than the terminator. */
  lemma {:induction false} WalkMark(src: seq<byte>, pos: nat, room: nat, i: nat)
    requires i + 1 < |EntriesFrom(src, pos, room)|
    ensures var peek := ReadAt(src, pos + 272 * (i + 1), MarkLen);
            |peek| == MarkLen && !IsTerminator(peek)
    decreases i
  {
    WalkUnfold(src, pos, room);
    if i == 0 {
      ReadAtFull(src, pos + SubLen, MarkLen);
    } else {
      WalkMark(src, pos + SubLen, room - 1, i - 1);
    }
  }

  /** A walk that stops with room left stops because the record after its
      last entry is short, or because the peek after its last entry is short
      or a terminator. */
  lemma {:induction false} WalkStop(src: seq<byte>, pos: nat, room: nat)
    requires |EntriesFrom(src, pos, room)| < room
    ensures var n := |EntriesFrom(src, pos, room)|;
            var after := ReadAt(src, pos + 272 * n, MarkLen);
            || pos + 272 * (n + 1) > |src|
            || (n > 0 && (|after| < MarkLen || IsTerminator(after)))
    decreases room
  {
    var n := |EntriesFrom(src, pos, room)|;
    if n > 1 {
      WalkUnfold(src, pos, room);
      WalkStop(src, pos + SubLen, room - 1);
    } else if n == 1 && |ReadAt(src, pos + SubLen, MarkLen)| == MarkLen
                     && !IsTerminator(ReadAt(src, pos + SubLen, MarkLen)) {
      assert EntriesFrom(src, pos + SubLen, room - 1) == [];
    }
  }

  /** The table holds at most 64 entries, so every store into the fixed array
      of `main` is in bounds. */
  lemma TableBounds(src: seq<byte>)
    ensures |Table(src)| <= MaxPartitions
  {
    EntriesFromBound(src, HeaderLen, MaxPartitions);
  }

  /** Where record i of the table starts: records lie back to back after the
      header. The record size `SubLen` is written out as 272 in these offsets
      so that they stay linear arithmetic for the verifier. */
  function RecordStart(i: nat): nat
  {
    HeaderLen + 272 * i
  }

  /** The 4-byte peek after record i of the table. */
  function PeekAfter(src: seq<byte>, i: nat): seq<byte>
  {
    ReadAt(src, RecordStart(i + 1), MarkLen)
  }

  /** Record i of the table is the 272 bytes at `8 + 272 * i`, and its fields
      are read at fixed offsets from there. */
  lemma EntryFields(src: seq<byte>, i: nat)
    requires i < |Table(src)|
    ensures var p := RecordStart(i);
            var e := Table(src)[i];
            && p + SubLen <= |src|
            && e.record == src[p..p + SubLen]
            && e.Name() == CutAtZero(src[p..p + 32])
            && e.Length() == LeU32(src[p + 256..p + 260])
            && e.Offset() == LeU32(src[p + 264..p + 268])
  {
    var p := RecordStart(i);
    WalkRecord(src, HeaderLen, MaxPartitions, i);
    var e := Table(src)[i];
    assert e == Entry(src[p..p + SubLen]);
    RecordFields(src, p);
  }

  /** The accessors of an entry read the file bytes at fixed offsets from the
      start of its record. */
  lemma RecordFields(src: seq<byte>, p: nat)
    requires p + SubLen <= |src|
    ensures var e := Entry(src[p..p + SubLen]);
            && e.Name() == CutAtZero(src[p..p + 32])
            && e.Length() == LeU32(src[p + 256..p + 260])
            && e.Offset() == LeU32(src[p + 264..p + 268])
  {
    SliceOfSlice(src, p, p + SubLen, 0, 32);
    SliceOfSlice(src, p, p + SubLen, 256, 260);
    SliceOfSlice(src, p, p + SubLen, 264, 268);
  }

  /** Every entry but the last is followed by a full peek that is not a
      terminator. */
  lemma TablePeeks(src: seq<byte>, i: nat)
    requires i + 1 < |Table(src)|
    ensures |PeekAfter(src, i)| == MarkLen && !IsTerminator(PeekAfter(src, i))
  {
    WalkMark(src, HeaderLen, MaxPartitions, i);
    assert PeekAfter(src, i) == ReadAt(src, HeaderLen + 272 * (i + 1), MarkLen);
  }

  /** A table with fewer than 64 entries stopped at a short record read, or
      at a short peek or a terminator after its last entry. */
  lemma TableStops(src: seq<byte>)
    ensures var n := |Table(src)|;
            || n == MaxPartitions
            || RecordStart(n + 1) > |src|
            || (n > 0 && (|PeekAfter(src, n - 1)| < MarkLen || IsTerminator(PeekAfter(src, n - 1))))
  {
    var n := |Table(src)|;
    TableBounds(src);
    if n < MaxPartitions {
      WalkStop(src, HeaderLen, MaxPartitions);
      if n > 0 {
        assert PeekAfter(src, n - 1) == ReadAt(src, HeaderLen + 272 * n, MarkLen);
      }
    }
  }

  /** A terminator right after record k ends the table with exactly k + 1
      entries when the peeks after the records before it are full and are not
      terminators; the terminator itself is not an entry. */
  lemma TerminatorEndsTable(src: seq<byte>, k: nat)
    requires k < MaxPartitions
    requires forall i | 0 <= i < k :: |PeekAfter(src, i)| == MarkLen && !IsTerminator(PeekAfter(src, i))
    requires |PeekAfter(src, k)| == MarkLen && IsTerminator(PeekAfter(src, k))
    ensures |Table(src)| == k + 1
  {
    var n := |Table(src)|;
    if n > k + 1 {
      TablePeeks(src, k);
    } else if n < k + 1 {
      TableStops(src);
      assert false;
    }
  }

  /** Two files that agree from byte 8 on and have the same length give the
      same reads from byte 8 on. */
  lemma ReadAtSameTail(a: seq<byte>, b: seq<byte>, pos: nat, n: nat)
    requires |a| == |b| && HeaderLen <= |a| && a[HeaderLen..] == b[HeaderLen..] && pos >= HeaderLen
    ensures ReadAt(a, pos, n) == ReadAt(b, pos, n)
  {
    if pos < |a| {
      var e := Min(pos + n, |a|);
      SliceOfSlice(a, HeaderLen, |a|, pos - HeaderLen, e - HeaderLen);
      SliceOfSlice(b, HeaderLen, |b|, pos - HeaderLen, e - HeaderLen);
    }
  }

  /** The walk from byte 8 on only reads bytes from 8 on. */
  lemma {:induction false} EntriesFromSameTail(a: seq<byte>, b: seq<byte>, pos: nat, room: nat)
    requires |a| == |b| && HeaderLen <= |a| && a[HeaderLen..] == b[HeaderLen..] && pos >= HeaderLen
    ensures EntriesFrom(a, pos, room) == EntriesFrom(b, pos, room)
    decreases room
  {
    if room > 0 {
      ReadAtSameTail(a, b, pos, SubLen);
      ReadAtSameTail(a, b, pos + SubLen, MarkLen);
      EntriesFromSameTail(a, b, pos + SubLen, room - 1);
    }
  }

  /** Bytes 4 to 8 of the header are read but never compared: replacing them
      changes neither the acceptance of the file nor its table. */
  lemma MagicTailIgnored(src: seq<byte>, tail: seq<byte>)
    requires |src| >= HeaderLen && |tail| == HeaderLen - CheckedLen
    ensures var other := src[..CheckedLen] + tail + src[HeaderLen..];
            && (HasMagic(other) <==> HasMagic(src))
            && Table(other) == Table(src)
  {
    var other := src[..CheckedLen] + tail + src[HeaderLen..];
    assert other[..CheckedLen] == src[..CheckedLen];
    assert other[HeaderLen..] == src[HeaderLen..];
    EntriesFromSameTail(other, src, HeaderLen, MaxPartitions);
  }

  // ---------------------------------------------------------------------------
  // A worked example

  /** "boot" padded with zeros to the 32-byte name field. */
  const BootName: seq<byte> := [0x62, 0x6F, 0x6F, 0x74]

  /** A record naming "boot", with length 10 and offset 284: the payload sits
      right after the header, this record and the terminator. */
  function BootRecord(): Record
  {
    BootName + seq(252, _ => 0) + [10, 0, 0, 0] + [0, 0, 0, 0] + [0x1C, 0x01, 0, 0] + seq(4, _ => 0)
  }

  /** The bytes 0 to 9. */
  function TenBytes(): seq<byte>
  {
    seq(10, k requires 0 <= k < 10 => k as byte)
  }

  /** The full header, one record, a terminator, then the 10-byte payload. */
  function BootImage(): seq<byte>
  {
    Magic + BootRecord() + [0, 0, 0, 0] + TenBytes()
  }

  /** The image is accepted, its table is the one "boot" entry of length 10 at
      offset 284, and extracting that entry writes the bytes 0 to 9 to
      `<outDir>/boot`. */
  lemma BootExample(outDir: seq<byte>)
    ensures HasMagic(BootImage())
    ensures Table(BootImage()) == [Entry(BootRecord())]
    ensures var e := Entry(BootRecord());
            && e.Name() == BootName
            && e.Length() == 10
            && e.Offset() == 284
            && Extraction(BootImage(), e, outDir) == Write(JoinPath(outDir, BootName), TenBytes())
  {
    var src := BootImage();
    var rec := BootRecord();
    assert src[..CheckedLen] == Magic[..CheckedLen];
    assert ReadAt(src, HeaderLen, SubLen) == rec;
    assert ReadAt(src, HeaderLen + SubLen, MarkLen) == [0, 0, 0, 0];
    var e := Entry(rec);
    assert rec[..32] == BootName + seq(28, _ => 0);
    CutAtZeroUnique(rec[..32], BootName);
    assert rec[256..260] == [10, 0, 0, 0];
    LeValueDigits(rec[256..260]);
    assert rec[264..268] == [0x1C, 0x01, 0, 0];
    LeValueDigits(rec[264..268]);
    assert ReadAt(src, 284, 10) == TenBytes();
  }
}
