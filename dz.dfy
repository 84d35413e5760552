/** The DZ container reader (dz.c).

    A DZ file opens with a 4-byte magic; its partition table starts at byte 512
    and is a chain of 512-byte sub-records, each followed directly by its
    payload. A sub-record carries its own sub-magic, a type tag, a name, the
    payload length and a checksum; the payload offset is not stored but is the
    position just past the sub-record. Extraction inflates the payload with
    zlib and falls back to writing the raw bytes as `<name>.gz`. */
module Dz {
  import opened Bytes
  import opened Cli

  const Magic: seq<byte> := [0x32, 0x96, 0x18, 0x74]
  const SubMagic: seq<byte> := [0x30, 0x12, 0x95, 0x78]
  /** Size of one sub-record (`DZ_SUB_LEN`). */
  const SubLen: nat := 512
  /** The table starts after the file header, at this absolute position. */
  const TableStart: nat := 512
  /** Capacity of the `partitions` array (`MAX_PARTITIONS`). */
  const MaxPartitions: nat := 64
  /** The fixed margin of the decompression buffer: 50 MiB. */
  const InflateMargin: nat := 50 * 1024 * 1024

  /** A whole 512-byte sub-record as read from the file. */
  type Block = b: seq<byte> | |b| == SubLen witness seq(SubLen, _ => 0)

  /** One table entry: its sub-record and the offset of its payload. The
      fields of `DZPartitionEntry` are read from the sub-record at fixed
      offsets; every numeric field is a little-endian `uint32_t`. */
  datatype Entry = Entry(record: Block, offset: u32)
  {
    function Header(): seq<byte> { record[..4] }
    /** The type tag, up to its first zero byte. */
    function Kind(): seq<byte> { CutAtZero(record[4..36]) }
    /** The partition name, up to its first zero byte. */
    function Name(): seq<byte> { CutAtZero(record[36..100]) }
    function Unknown(): u32 { LeU32(record[100..104]) }
    /** The payload length. */
    function Length(): u32 { LeU32(record[104..108]) }
    /** Carried through, never checked. */
    function Checksum(): seq<byte> { record[108..124] }
    function Spacer1(): u32 { LeU32(record[124..128]) }
    function Spacer2(): u32 { LeU32(record[128..132]) }
    function Spacer3(): u32 { LeU32(record[132..136]) }
  }

  /** The main header check: the first four bytes are the DZ magic. A file too
      short to supply them is rejected. */
  predicate HasMagic(src: seq<byte>)
  {
    |src| >= |Magic| && src[..|Magic|] == Magic
  }

  /** The entry whose sub-record starts at `pos`: none when fewer than 512
      bytes can be read there or the block lacks the sub-magic. Its offset is
      the cursor just past the block, as `ftell` stores it into a `uint32_t`. */
  function RecordAt(src: seq<byte>, pos: nat): Option<Entry>
  {
    if pos + SubLen > |src| then None
    else
      var block := src[pos..pos + SubLen];
      if block[..4] == SubMagic then Some(Entry(block, Wrap32(pos + SubLen))) else None
  }

  /** The end-of-file test after an entry is appended. Both sides are
      `uint32_t`: the sum wraps and the file length is truncated. */
  predicate ReachesEnd(src: seq<byte>, e: Entry)
  {
    Wrap32(e.offset + e.Length()) >= Wrap32(|src|)
  }

  /** The entries the table walk collects from the sub-record at `pos` on,
      with room for `room` more entries. After an entry the walk skips its
      payload (`fseek` by `length` from the cursor, in `long` arithmetic). */
  function EntriesFrom(src: seq<byte>, pos: nat, room: nat): seq<Entry>
    decreases room
  {
    if room == 0 then []
    else match RecordAt(src, pos)
      case None => []
      case Some(e) =>
        if ReachesEnd(src, e) then [e]
        else [e] + EntriesFrom(src, pos + SubLen + e.Length(), room - 1)
  }

  /** The partition table of a DZ file. */
  function Table(src: seq<byte>): seq<Entry>
  {
    EntriesFrom(src, TableStart, MaxPartitions)
  }

  /** The walk in the shape of the loop of `main`: `done` holds the entries
      already stored in `partitions`, and the result is the full array. */
  ghost function Collect(src: seq<byte>, done: seq<Entry>, pos: nat, room: nat): seq<Entry>
    decreases room
  {
    if room == 0 then done
    else match RecordAt(src, pos)
      case None => done
      case Some(e) =>
        if ReachesEnd(src, e) then done + [e]
        else Collect(src, done + [e], pos + SubLen + e.Length(), room - 1)
  }

  /** The loop's accumulated view and the table agree. */
  lemma {:induction false} CollectIsEntries(src: seq<byte>, done: seq<Entry>, pos: nat, room: nat)
    ensures Collect(src, done, pos, room) == done + EntriesFrom(src, pos, room)
    decreases room
  {
    if room > 0 && RecordAt(src, pos).Some? {
      var e := RecordAt(src, pos).value;
      if !ReachesEnd(src, e) {
        var next := pos + SubLen + e.Length();
        var rest := EntriesFrom(src, next, room - 1);
        CollectIsEntries(src, done + [e], next, room - 1);
        assert EntriesFrom(src, pos, room) == [e] + rest;
        assert done + [e] + rest == done + ([e] + rest);
      }
    } else {
      assert done + [] == done;
    }
  }

  /** The walk stops without a new entry at a bad or short block. */
  lemma CollectNone(src: seq<byte>, done: seq<Entry>, pos: nat, room: nat)
    requires RecordAt(src, pos).None?
    ensures Collect(src, done, pos, room) == done
  {
  }

  /** The walk stops right after an entry that reaches the end of the file. */
  lemma CollectLast(src: seq<byte>, done: seq<Entry>, pos: nat, room: nat, e: Entry)
    requires room > 0 && RecordAt(src, pos) == Some(e) && ReachesEnd(src, e)
    ensures Collect(src, done, pos, room) == done + [e]
  {
  }

  /** One step of the walk past an entry that does not reach the end. */
  lemma CollectNext(src: seq<byte>, done: seq<Entry>, pos: nat, room: nat, e: Entry)
    requires room > 0 && RecordAt(src, pos) == Some(e) && !ReachesEnd(src, e)
    ensures Collect(src, done + [e], pos + SubLen + e.Length(), room - 1) == Collect(src, done, pos, room)
  {
  }

  /** The table walk of `main` from the cursor `start`: reads sub-records into
      a fixed array of 64 entries and returns the entries it filled. */
  method ReadPartitionTable(src: seq<byte>, start: nat) returns (parts: seq<Entry>)
    ensures parts == EntriesFrom(src, start, MaxPartitions)
  {
    var partitions := new Entry[MaxPartitions];
    var count := 0;
    var pos: nat := start;
    while true
      invariant 0 <= count < MaxPartitions
      invariant Collect(src, partitions[..count], pos, MaxPartitions - count)
                == Collect(src, [], start, MaxPartitions)
      decreases MaxPartitions - count
    {
      var rec := ReadRecord(src, pos);
      ghost var done := partitions[..count];
      if rec.None? {
        CollectNone(src, done, pos, MaxPartitions - count);
        break;
      }
      var part := rec.value;
      partitions[count] := part;
      count := count + 1;
      assert partitions[..count] == done + [part];
      if ReachesEnd(src, part) {
        CollectLast(src, done, pos, MaxPartitions - count + 1, part);
        break;
      }
      CollectNext(src, done, pos, MaxPartitions - count + 1, part);
      pos := pos + SubLen + part.Length();
      if count >= MaxPartitions {
        break;
      }
    }
    parts := partitions[..count];
    CollectIsEntries(src, [], start, MaxPartitions);
    assert [] + EntriesFrom(src, start, MaxPartitions) == EntriesFrom(src, start, MaxPartitions);
  }

  /** One pass of the loop body up to the entry: `fread` of 512 bytes at
      `pos`, then the sub-magic test. */
  method ReadRecord(src: seq<byte>, pos: nat) returns (rec: Option<Entry>)
    ensures rec == RecordAt(src, pos)
  {
    var buf := ReadAt(src, pos, SubLen);
    if |buf| < SubLen {
      return None;
    }
    ReadAtFull(src, pos, SubLen);
    if buf[..4] != SubMagic {
      return None;
    }
    return Some(Entry(buf, Wrap32(pos + SubLen)));
  }

  // ---------------------------------------------------------------------------
  // Extraction

  /** The zlib `uncompress` oracle: what inflating a stream produces when the
      output buffer is unbounded, or None when the stream is not valid. */
  type Inflate = seq<byte> -> Option<seq<byte>>

  /** The size of the decompression buffer, `length * 4 + 50 MiB`, computed in
      `unsigned int` arithmetic and therefore wrapping modulo 2^32. */
  function InflateCapacity(length: u32): u32
  {
    Wrap32(length * 4 + InflateMargin)
  }

  /** The definition of `uncompress` into a buffer of `capacity` bytes, in
      terms of the `inflate` oracle: it succeeds exactly when the stream
      inflates and its output fits. */
  function Uncompress(inflate: Inflate, comp: seq<byte>, capacity: nat): (r: Option<seq<byte>>)
    ensures r.Some? <==> inflate(comp).Some? && |inflate(comp).value| <= capacity
    ensures r.Some? ==> r == inflate(comp)
  {
    match inflate(comp)
    case Some(out) => if |out| <= capacity then Some(out) else None
    case None => None
  }

  /** The `length`-byte buffer handed to `uncompress`. `malloc` leaves it
      holding whatever the heap held, `stale(k)` at index k, and `fread` then
      overwrites its first bytes with the file's bytes at `offset`; the count
      `fread` returns is not checked. */
  function CompressedData(src: seq<byte>, part: Entry, stale: nat -> byte): seq<byte>
  {
    var got := ReadAt(src, part.offset, part.Length());
    seq(part.Length(), k requires 0 <= k < part.Length() => if k < |got| then got[k] else stale(k))
  }

  /** The file `extractPartition` writes for an entry: the inflated data at
      `<outDir>/<name>`, or, when `uncompress` fails, the compressed buffer
      verbatim at `<outDir>/<name>.gz`. */
  function Extraction(src: seq<byte>, part: Entry, outDir: seq<byte>,
                      stale: nat -> byte, inflate: Inflate): Write
  {
    var comp := CompressedData(src, part, stale);
    var outPath := JoinPath(outDir, part.Name());
    match Uncompress(inflate, comp, InflateCapacity(part.Length()))
    case None => Write(outPath + GzSuffix, comp)
    case Some(out) => Write(outPath, out)
  }

  /** `extractPartition`: fills a heap buffer from the file, inflates it and
      writes one file. */
  method ExtractPartition(src: seq<byte>, part: Entry, outDir: seq<byte>,
                          stale: nat -> byte, inflate: Inflate) returns (w: Write)
    ensures w == Extraction(src, part, outDir, stale, inflate)
  {
    var outPath := JoinPath(outDir, part.Name());
    var compData := new byte[part.Length()](k requires 0 <= k => stale(k));
    var count := Fread(compData, src, part.offset, part.Length());
    assert compData[..] == CompressedData(src, part, stale);
    var uncompSize := InflateCapacity(part.Length());
    var r := Uncompress(inflate, compData[..], uncompSize);
    if r.None? {
      w := Write(outPath + GzSuffix, compData[..]);
      return;
    }
    w := Write(outPath, r.value);
  }

  /** The compressed buffer is `length` bytes long and starts with every byte
      the file holds at `offset`; when the payload lies inside the file, it is
      exactly the payload. */
  lemma CompressedDataReadsPayload(src: seq<byte>, part: Entry, stale: nat -> byte)
    ensures var comp := CompressedData(src, part, stale);
            var got := ReadAt(src, part.offset, part.Length());
            && |comp| == part.Length()
            && comp[..|got|] == got
            && (part.offset + part.Length() <= |src| ==> comp == src[part.offset..part.offset + part.Length()])
  {
    var comp := CompressedData(src, part, stale);
    var got := ReadAt(src, part.offset, part.Length());
    assert comp[..|got|] == got;
  }

  /** An extraction writes exactly one of two files: the inflated data at
      `<outDir>/<name>` when `uncompress` succeeds (the stream inflates and fits
      the buffer), and otherwise the compressed buffer at `<outDir>/<name>.gz`. */
  lemma ExtractionTargets(src: seq<byte>, part: Entry, outDir: seq<byte>,
                          stale: nat -> byte, inflate: Inflate)
    ensures var w := Extraction(src, part, outDir, stale, inflate);
            var comp := CompressedData(src, part, stale);
            var outPath := JoinPath(outDir, part.Name());
            var capacity := InflateCapacity(part.Length());
            && (w.path == outPath || w.path == outPath + GzSuffix)
            && (w.path == outPath <==> inflate(comp).Some? && |inflate(comp).value| <= capacity)
            && (w.path == outPath ==> inflate(comp) == Some(w.data))
            && (w.path == outPath + GzSuffix ==> w.data == comp)
  {
    var outPath := JoinPath(outDir, part.Name());
    assert |outPath + GzSuffix| != |outPath|;
  }

  /** When the payload lies inside the file and does not inflate, the `.gz`
      file holds exactly the `length` bytes stored at `offset`. */
  lemma FallbackWritesStoredBytes(src: seq<byte>, part: Entry, outDir: seq<byte>,
                                  stale: nat -> byte, inflate: Inflate)
    requires part.offset + part.Length() <= |src|
    requires inflate(src[part.offset..part.offset + part.Length()]).None?
    ensures Extraction(src, part, outDir, stale, inflate)
            == Write(JoinPath(outDir, part.Name()) + GzSuffix, src[part.offset..part.offset + part.Length()])
  {
    CompressedDataReadsPayload(src, part, stale);
  }

  // ---------------------------------------------------------------------------
  // Command dispatch

  /** `main` after the arguments are parsed: header check, table walk, then
      the first selected mode among list, single extraction, extract all.
      Every `extractPartition` call `malloc`s a fresh buffer, so the
      uninitialised bytes of the i-th call's buffer are `heap(i)`. */
  method Run(src: seq<byte>, cmd: Command, outDir: seq<byte>,
             heap: nat -> nat -> byte, inflate: Inflate) returns (o: Outcome<Entry>)
    requires Selected(cmd)
    ensures o == Rejected <==> !HasMagic(src)
    ensures HasMagic(src) && cmd.listOnly ==> o == Listed(Table(src))
    ensures HasMagic(src) && !cmd.listOnly && cmd.extractId >= 0 ==>
      o == if cmd.extractId < |Table(src)|
           then Extracted([Extraction(src, Table(src)[cmd.extractId], outDir, heap(0), inflate)])
           else IdOutOfRange
    ensures HasMagic(src) && !cmd.listOnly && cmd.extractId < 0 ==>
      && o.Extracted?
      && |o.files| == |Table(src)|
      && forall i | 0 <= i < |o.files| ::
           o.files[i] == Extraction(src, Table(src)[i], outDir, heap(i), inflate)
  {
    var headerCheck := ReadAt(src, 0, |Magic|);
    if |headerCheck| < |Magic| || headerCheck != Magic {
      return Rejected;
    }
    var partitions := ReadPartitionTable(src, TableStart);
    if cmd.listOnly {
      o := Listed(partitions);
    } else if cmd.extractId >= 0 {
      if cmd.extractId < |partitions| {
        var w := ExtractPartition(src, partitions[cmd.extractId], outDir, heap(0), inflate);
        o := Extracted([w]);
      } else {
        o := IdOutOfRange;
      }
    } else {
      var files := ExtractAll(src, partitions, outDir, heap, inflate);
      o := Extracted(files);
    }
  }

  /** The extract-all mode of `main`: every entry of the table in order, the
      k-th extraction with its own freshly allocated buffer `heap(k)`. */
  method ExtractAll(src: seq<byte>, partitions: seq<Entry>, outDir: seq<byte>,
                    heap: nat -> nat -> byte, inflate: Inflate) returns (files: seq<Write>)
    ensures |files| == |partitions|
    ensures forall k | 0 <= k < |files| ::
              files[k] == Extraction(src, partitions[k], outDir, heap(k), inflate)
  {
    files := [];
    for i := 0 to |partitions|
      invariant |files| == i
      invariant forall k | 0 <= k < i ::
                  files[k] == Extraction(src, partitions[k], outDir, heap(k), inflate)
    {
      var w := ExtractPartition(src, partitions[i], outDir, heap(i), inflate);
      files := files + [w];
    }
  }

  // ---------------------------------------------------------------------------
  // Properties of the table walk

  /** Where the sub-records of a walk from `pos` start: one position per entry
      plus the position of the block after the last one. */
  function BlockStarts(t: seq<Entry>, pos: nat): (s: seq<nat>)
    ensures |s| == |t| + 1 && s[0] == pos
  {
    if t == [] then [pos]
    else [pos] + BlockStarts(t[1..], pos + SubLen + t[0].Length())
  }

  /** Consecutive block starts are one sub-record and one payload apart. */
  lemma {:induction false} BlockStartsStep(t: seq<Entry>, pos: nat, i: nat)
    requires i < |t|
    ensures BlockStarts(t, pos)[i + 1] == BlockStarts(t, pos)[i] + SubLen + t[i].Length()
    decreases i
  {
    if i > 0 {
      BlockStartsStep(t[1..], pos + SubLen + t[0].Length(), i - 1);
    }
  }

  /** A walk with room for `room` entries collects at most that many. */
  lemma {:induction false} EntriesFromBound(src: seq<byte>, pos: nat, room: nat)
    ensures |EntriesFrom(src, pos, room)| <= room
    decreases room
  {
    if room > 0 && RecordAt(src, pos).Some? && !ReachesEnd(src, RecordAt(src, pos).value) {
      EntriesFromBound(src, pos + SubLen + RecordAt(src, pos).value.Length(), room - 1);
    }
  }

  /** A walk that goes on past its first entry, with its block starts. */
  lemma WalkUnfold(src: seq<byte>, pos: nat, room: nat)
    requires |EntriesFrom(src, pos, room)| > 1
    ensures room > 0 && RecordAt(src, pos).Some? && !ReachesEnd(src, RecordAt(src, pos).value)
    ensures var e := RecordAt(src, pos).value;
            var next := pos + SubLen + e.Length();
            var r := EntriesFrom(src, pos, room);
            && r[0] == e
            && r[1..] == EntriesFrom(src, next, room - 1)
            && BlockStarts(r, pos)[1..] == BlockStarts(EntriesFrom(src, next, room - 1), next)
  {
  }

  /** Entry i of a walk is the record found at its block start. */
  lemma {:induction false} WalkRecord(src: seq<byte>, pos: nat, room: nat, i: nat)
    requires i < |EntriesFrom(src, pos, room)|
    ensures RecordAt(src, BlockStarts(EntriesFrom(src, pos, room), pos)[i]) == Some(EntriesFrom(src, pos, room)[i])
    decreases i
  {
    if i > 0 {
      WalkUnfold(src, pos, room);
      var next := pos + SubLen + RecordAt(src, pos).value.Length();
      var r := EntriesFrom(src, pos, room);
      var r' := EntriesFrom(src, next, room - 1);
      WalkRecord(src, next, room - 1, i - 1);
      assert r[i] == r'[i - 1];
      assert BlockStarts(r, pos)[i] == BlockStarts(r', next)[i - 1];
    }
  }

  /** No entry but the last of a walk reaches the end of the file. */
  lemma {:induction false} WalkInner(src: seq<byte>, pos: nat, room: nat, i: nat)
    requires i + 1 < |EntriesFrom(src, pos, room)|
    ensures !ReachesEnd(src, EntriesFrom(src, pos, room)[i])
    decreases i
  {
    WalkUnfold(src, pos, room);
    if i > 0 {
      var next := pos + SubLen + RecordAt(src, pos).value.Length();
      WalkInner(src, next, room - 1, i - 1);
    }
  }

  /** A walk that stops with room left stops because its last entry reaches
      the end of the file or because the block after it is short or lacks the
      sub-magic. */
  lemma {:induction false} WalkStop(src: seq<byte>, pos: nat, room: nat)
    requires |EntriesFrom(src, pos, room)| < room
    ensures var r := EntriesFrom(src, pos, room);
            (|r| > 0 && ReachesEnd(src, r[|r| - 1])) || RecordAt(src, BlockStarts(r, pos)[|r|]).None?
    decreases room
  {
    var r := EntriesFrom(src, pos, room);
    if |r| > 1 {
      WalkUnfold(src, pos, room);
      var next := pos + SubLen + RecordAt(src, pos).value.Length();
      WalkStop(src, next, room - 1);
      var r' := EntriesFrom(src, next, room - 1);
      assert r[|r| - 1] == r'[|r'| - 1];
      assert BlockStarts(r, pos)[|r|] == BlockStarts(r', next)[|r'|];
    } else if |r| == 1 && RecordAt(src, pos).Some? && !ReachesEnd(src, RecordAt(src, pos).value) {
      var next := pos + SubLen + r[0].Length();
      assert EntriesFrom(src, next, room - 1) == [];
      assert BlockStarts(r, pos)[1] == next;
    }
  }

  /** A record is found at `pos` exactly when 512 bytes can be read there and
      they open with the sub-magic; the entry then holds those 512 bytes, and
      its offset is the position just past them, reduced to 32 bits. */
  lemma RecordAtFound(src: seq<byte>, pos: nat)
    ensures RecordAt(src, pos).Some? <==> pos + SubLen <= |src| && src[pos..pos + 4] == SubMagic
    ensures RecordAt(src, pos).Some? ==>
              RecordAt(src, pos).value == Entry(src[pos..pos + SubLen], Wrap32(pos + SubLen))
  {
    if pos + SubLen <= |src| {
      SliceOfSlice(src, pos, pos + SubLen, 0, 4);
    }
  }

  /** The table holds at most 64 entries, so every store into the fixed array
      of `main` is in bounds. */
  lemma TableBounds(src: seq<byte>)
    ensures |Table(src)| <= MaxPartitions
  {
    EntriesFromBound(src, TableStart, MaxPartitions);
  }

  /** For files under 4 GiB nothing wraps: the first payload starts at byte
      1024, and each next payload starts `length + 512` bytes after the
      previous one. */
  lemma OffsetsFollowLengths(src: seq<byte>)
    requires |src| < U32Mod
    ensures var t := Table(src);
            && (|t| > 0 ==> t[0].offset == TableStart + SubLen)
            && (forall i | 0 <= i < |t| - 1 :: t[i + 1].offset == t[i].offset + t[i].Length() + SubLen)
  {
    var t := Table(src);
    var s := BlockStarts(t, TableStart);
    if |t| > 0 {
      WalkRecord(src, TableStart, MaxPartitions, 0);
    }
    forall i | 0 <= i < |t| - 1
      ensures t[i + 1].offset == t[i].offset + t[i].Length() + SubLen
    {
      WalkRecord(src, TableStart, MaxPartitions, i);
      WalkRecord(src, TableStart, MaxPartitions, i + 1);
      BlockStartsStep(t, TableStart, i);
    }
  }

  /** For files under 4 GiB, every payload but the last lies inside the file,
      followed by at least one full sub-record, and ends before the file does. */
  lemma InnerPayloadsInsideFile(src: seq<byte>)
    requires |src| < U32Mod
    ensures var t := Table(src);
            forall i | 0 <= i < |t| - 1 ::
              t[i].offset + t[i].Length() + SubLen <= |src| && t[i].offset + t[i].Length() < |src|
  {
    var t := Table(src);
    var s := BlockStarts(t, TableStart);
    forall i | 0 <= i < |t| - 1
      ensures t[i].offset + t[i].Length() + SubLen <= |src|
    {
      WalkRecord(src, TableStart, MaxPartitions, i);
      WalkRecord(src, TableStart, MaxPartitions, i + 1);
      BlockStartsStep(t, TableStart, i);
    }
  }

  /** The last entry is the first whose payload reaches the end of the file,
      unless the walk ran out of room or hit a short or unmarked block. */
  lemma TableStops(src: seq<byte>)
    ensures var t := Table(src);
            |t| == MaxPartitions
            || (|t| > 0 && ReachesEnd(src, t[|t| - 1]))
            || RecordAt(src, BlockStarts(t, TableStart)[|t|]).None?
  {
    TableBounds(src);
    if |Table(src)| < MaxPartitions {
      WalkStop(src, TableStart, MaxPartitions);
    }
  }

  /** The blocks from `pos` on hold the marked records `es`, one after the
      other with their payloads between them, none of them reaching the end
      of the file, and the block after them is short or lacks the sub-magic. */
  predicate BadBlockAfter(src: seq<byte>, pos: nat, es: seq<Entry>)
  {
    && (forall i | 0 <= i < |es| ::
          RecordAt(src, BlockStarts(es, pos)[i]) == Some(es[i]) && !ReachesEnd(src, es[i]))
    && RecordAt(src, BlockStarts(es, pos)[|es|]).None?
  }

  /** A walk with room left over such a layout collects exactly its records. */
  lemma {:induction false} WalkFromBytes(src: seq<byte>, pos: nat, room: nat, es: seq<Entry>)
    requires |es| < room && BadBlockAfter(src, pos, es)
    ensures EntriesFrom(src, pos, room) == es
    decreases |es|
  {
    if es != [] {
      var next := pos + SubLen + es[0].Length();
      assert BlockStarts(es, pos)[1..] == BlockStarts(es[1..], next);
      forall i | 0 <= i < |es[1..]|
        ensures RecordAt(src, BlockStarts(es[1..], next)[i]) == Some(es[1..][i])
        ensures !ReachesEnd(src, es[1..][i])
      {
        assert BlockStarts(es[1..], next)[i] == BlockStarts(es, pos)[i + 1];
      }
      WalkFromBytes(src, next, room - 1, es[1..]);
    }
  }

  /** A short or unmarked sub-record ends the table: when the blocks from byte
      512 on hold k < 64 marked records, none of whose payloads reaches the
      end of the file, and block k is short or lacks the sub-magic, the table
      is exactly those k entries. */
  lemma BadRecordEndsTable(src: seq<byte>, es: seq<Entry>)
    requires |es| < MaxPartitions && BadBlockAfter(src, TableStart, es)
    ensures Table(src) == es
  {
    WalkFromBytes(src, TableStart, MaxPartitions, es);
  }

  /** Entry i of the table is the 512-byte block at its block start, which
      opens with the sub-magic, and its offset is the end of that block. */
  lemma EntryBlock(src: seq<byte>, i: nat)
    requires i < |Table(src)|
    ensures var p := BlockStarts(Table(src), TableStart)[i];
            && p + SubLen <= |src|
            && src[p..p + 4] == SubMagic
            && Table(src)[i] == Entry(src[p..p + SubLen], Wrap32(p + SubLen))
  {
    var p := BlockStarts(Table(src), TableStart)[i];
    WalkRecord(src, TableStart, MaxPartitions, i);
    RecordAtFound(src, p);
  }

  /** The fields of entry i are read at fixed offsets of its 512-byte block,
      which opens with the sub-magic. */
  lemma EntryFields(src: seq<byte>, i: nat)
    requires i < |Table(src)|
    ensures var p := BlockStarts(Table(src), TableStart)[i];
            var e := Table(src)[i];
            && p + SubLen <= |src|
            && e.Header() == SubMagic
            && e.Kind() == CutAtZero(src[p + 4..p + 36])
            && e.Name() == CutAtZero(src[p + 36..p + 100])
            && e.Length() == LeU32(src[p + 104..p + 108])
            && e.Checksum() == src[p + 108..p + 124]
            && e.offset == Wrap32(p + SubLen)
  {
    var p := BlockStarts(Table(src), TableStart)[i];
    EntryBlock(src, i);
    BlockFields(src, p, Wrap32(p + SubLen));
  }

  /** The accessors of an entry read the file bytes at fixed offsets from the
      start of its block. */
  lemma BlockFields(src: seq<byte>, p: nat, offset: u32)
    requires p + SubLen <= |src|
    ensures var e := Entry(src[p..p + SubLen], offset);
            && e.Header() == src[p..p + 4]
            && e.Kind() == CutAtZero(src[p + 4..p + 36])
            && e.Name() == CutAtZero(src[p + 36..p + 100])
            && e.Length() == LeU32(src[p + 104..p + 108])
            && e.Checksum() == src[p + 108..p + 124]
  {
    SliceOfSlice(src, p, p + SubLen, 0, 4);
    SliceOfSlice(src, p, p + SubLen, 4, 36);
    SliceOfSlice(src, p, p + SubLen, 36, 100);
    SliceOfSlice(src, p, p + SubLen, 104, 108);
    SliceOfSlice(src, p, p + SubLen, 108, 124);
  }
}
