/**
 * A minimal ZIP reader: finding the end-of-central-directory record, listing the
 * central directory and reading stored entries, against a writer of the same
 * records.
 */
module Zip {
  import opened Basics

  type Bytes = seq<Byte>

  const END_SIGNATURE: int := 0x06054b50
  const CENTRAL_SIGNATURE: int := 0x02014b50
  const LOCAL_SIGNATURE: int := 0x04034b50
  const MAX_ENTRY_BYTES: int := 50 * 1024 * 1024

  // Little-endian reads, in range only; Node throws outside the buffer.
  function U16(bytes: Bytes, at: nat): (v: nat)
    requires at + 2 <= |bytes|
    ensures v < 0x1_0000
  {
    (bytes[at] as int) + 256 * (bytes[at + 1] as int)
  }

  function U32(bytes: Bytes, at: nat): (v: nat)
    requires at + 4 <= |bytes|
    ensures v < 0x1_0000_0000
  {
    U16(bytes, at) + 0x1_0000 * U16(bytes, at + 2)
  }

  /** Buffer.subarray: ends past the buffer are cut off. */
  function Subarray(bytes: Bytes, from: nat, to: nat): Bytes {
    bytes[Min(from, |bytes|)..Max(Min(from, |bytes|), Min(to, |bytes|))]
  }

  datatype Entry = Entry(name: Bytes, compression: nat, compressedSize: nat, size: nat, offset: nat)

  /** The last place, no earlier than `low`, where an end record's signature stands. */
  function FindEnd(bytes: Bytes, from: int, low: int): Option<nat>
    requires low >= 0 && from + 22 <= |bytes|
    decreases from
  {
    if from < low then None
    else if U32(bytes, from) == END_SIGNATURE then Some(from)
    else FindEnd(bytes, from - 1, low)
  }

  function EntryAt(bytes: Bytes, p: nat): Entry
    requires p + 46 <= |bytes|
  {
    Entry(Subarray(bytes, p + 46, p + 46 + U16(bytes, p + 28)), U16(bytes, p + 10), U32(bytes, p + 20), U32(bytes, p + 24), U32(bytes, p + 42))
  }

  predicate HeaderAt(bytes: Bytes, p: nat) { p + 46 <= |bytes| && U32(bytes, p) == CENTRAL_SIGNATURE }

  function NextHeader(bytes: Bytes, p: nat): nat
    requires p + 46 <= |bytes|
  {
    p + 46 + U16(bytes, p + 28) + U16(bytes, p + 30) + U16(bytes, p + 32)
  }

  function EntriesFrom(bytes: Bytes, p: nat, count: nat): seq<Entry>
    decreases count
  {
    if count == 0 || !HeaderAt(bytes, p) then []
    else [EntryAt(bytes, p)] + EntriesFrom(bytes, NextHeader(bytes, p), count - 1)
  }

  function EntriesAt(bytes: Bytes, end: Option<nat>): seq<Entry> {
    if end.None? || end.value + 22 > |bytes| then []
    else EntriesFrom(bytes, U32(bytes, end.value + 16), U16(bytes, end.value + 10))
  }

  function Entries(bytes: Bytes): seq<Entry> { EntriesAt(bytes, FindEnd(bytes, |bytes| - 22, Max(0, |bytes| - 65557))) }

  lemma {:induction false} FindEndInRange(bytes: Bytes, from: int, low: int)
    requires low >= 0 && from + 22 <= |bytes|
    ensures match FindEnd(bytes, from, low)
            case None => forall i | low <= i <= from :: U32(bytes, i) != END_SIGNATURE
            case Some(e) => low <= e <= from && U32(bytes, e) == END_SIGNATURE
                            && forall i | e < i <= from :: U32(bytes, i) != END_SIGNATURE
    decreases from
  {
    if from >= low && U32(bytes, from) != END_SIGNATURE { FindEndInRange(bytes, from - 1, low); }
  }

  method ZipEntries(bytes: Bytes) returns (entries: seq<Entry>)
    ensures entries == Entries(bytes)
  {
    var low := Max(0, |bytes| - 65557);
    var eocd := -1;
    var i := |bytes| - 22;
    while i >= low
      invariant i + 22 <= |bytes| && eocd == -1
      invariant FindEnd(bytes, i, low) == FindEnd(bytes, |bytes| - 22, low)
    {
      if U32(bytes, i) == END_SIGNATURE {
        eocd := i;
        break;
      }
      i := i - 1;
    }
    if eocd < 0 { return []; }
    entries := ListDirectory(bytes, U32(bytes, eocd + 16), U16(bytes, eocd + 10));
  }

  /** These are the entries of the headers that stand one after another from `start` up to `next`. */
  ghost predicate Chain(bytes: Bytes, start: nat, entries: seq<Entry>, next: nat)
    decreases |entries|
  {
    if entries == [] then next == start
    else HeaderAt(bytes, start) && entries[0] == EntryAt(bytes, start) && Chain(bytes, NextHeader(bytes, start), entries[1..], next)
  }

  lemma {:induction false} LongerChain(bytes: Bytes, start: nat, entries: seq<Entry>, p: nat)
    requires Chain(bytes, start, entries, p) && HeaderAt(bytes, p)
    ensures Chain(bytes, start, entries + [EntryAt(bytes, p)], NextHeader(bytes, p))
    decreases |entries|
  {
    var longer := entries + [EntryAt(bytes, p)];
    if entries == [] {
      assert longer[1..] == [];
    } else {
      LongerChain(bytes, NextHeader(bytes, start), entries[1..], p);
      assert longer[1..] == entries[1..] + [EntryAt(bytes, p)];
    }
  }

  lemma {:induction false} ChainIsListing(bytes: Bytes, start: nat, entries: seq<Entry>, next: nat, left: nat)
    requires Chain(bytes, start, entries, next) && (left == 0 || !HeaderAt(bytes, next))
    ensures EntriesFrom(bytes, start, |entries| + left) == entries
    decreases |entries|
  {
    if entries != [] {
      ChainIsListing(bytes, NextHeader(bytes, start), entries[1..], next, left);
      assert entries == [entries[0]] + entries[1..];
    }
  }

  method ListDirectory(bytes: Bytes, start: nat, count: nat) returns (entries: seq<Entry>)
    ensures entries == EntriesFrom(bytes, start, count)
  {
    var p: nat, n: nat := start, 0;
    entries := [];
    while n < count && p + 46 <= |bytes|
      invariant |entries| == n <= count && Chain(bytes, start, entries, p)
      decreases count - n
    {
      if !HeaderAt(bytes, p) { break; }
      LongerChain(bytes, start, entries, p);
      entries := entries + [EntryAt(bytes, p)];
      p := NextHeader(bytes, p);
      n := n + 1;
    }
    ghost var left := count - n;
    assert left == 0 || !HeaderAt(bytes, p);
    assert EntriesFrom(bytes, start, |entries| + left) == entries by { ChainIsListing(bytes, start, entries, p, left); }
    assert |entries| + left == count;
  }

  /** What an entry's bytes are; a compressed entry is handed to the inflater. */
  datatype Content = Nothing | Stored(data: Bytes) | Deflated(data: Bytes)

  function ReadEntry(bytes: Bytes, e: Entry): Content {
    if e.size > MAX_ENTRY_BYTES || e.offset + 30 > |bytes| || U32(bytes, e.offset) != LOCAL_SIGNATURE then Nothing
    else
      var start := e.offset + 30 + U16(bytes, e.offset + 26) + U16(bytes, e.offset + 28);
      var data := Subarray(bytes, start, start + e.compressedSize);
      if e.compression == 0 then Stored(data) else if e.compression == 8 then Deflated(data) else Nothing
  }

  // ----- The writer (sections 4.3.7, 4.3.12 and 4.3.16 of the ZIP APPNOTE) ----

  function Le16(v: nat): (b: Bytes)
    requires v < 0x1_0000
    ensures |b| == 2
  {
    [v % 256, v / 256]
  }

  function Le32(v: nat): (b: Bytes)
    requires v < 0x1_0000_0000
    ensures |b| == 4
  {
    Le16(v % 0x1_0000) + Le16(v / 0x1_0000)
  }

  /** The fields a central directory header spells out that the reader skips: versions, times, attributes. */
  datatype Skipped = Skipped(before: Bytes, between: Bytes, after: Bytes)

  datatype Header = Header(entry: Entry, skipped: Skipped, extra: Bytes, comment: Bytes)

  predicate HeaderOk(h: Header) {
    && |h.entry.name| < 0x1_0000 && |h.extra| < 0x1_0000 && |h.comment| < 0x1_0000
    && h.entry.compression < 0x1_0000 && h.entry.compressedSize < 0x1_0000_0000
    && h.entry.size < 0x1_0000_0000 && h.entry.offset < 0x1_0000_0000
    && |h.skipped.before| == 6 && |h.skipped.between| == 8 && |h.skipped.after| == 8
  }

  function HeaderFixed(h: Header): (b: Bytes)
    requires HeaderOk(h)
    ensures |b| == 46
  {
    Le32(CENTRAL_SIGNATURE) + h.skipped.before + Le16(h.entry.compression) + h.skipped.between
    + Le32(h.entry.compressedSize) + Le32(h.entry.size)
    + Le16(|h.entry.name|) + Le16(|h.extra|) + Le16(|h.comment|) + h.skipped.after + Le32(h.entry.offset)
  }

  function HeaderBytes(h: Header): (b: Bytes)
    requires HeaderOk(h)
    ensures |b| == 46 + |h.entry.name| + |h.extra| + |h.comment|
  {
    HeaderFixed(h) + (h.entry.name + (h.extra + h.comment))
  }

  predicate HeadersOk(hs: seq<Header>) { forall h | h in hs :: HeaderOk(h) }

  function Directory(hs: seq<Header>): Bytes
    requires HeadersOk(hs)
  {
    if hs == [] then [] else HeaderBytes(hs[0]) + Directory(hs[1..])
  }

  /** `disks` and `size` are the record's other fields, which the reader skips. */
  function EndRecord(disks: Bytes, count: nat, size: Bytes, offset: nat, comment: Bytes): (b: Bytes)
    requires |disks| == 6 && count < 0x1_0000 && |size| == 4 && offset < 0x1_0000_0000 && |comment| < 0x1_0000
    ensures |b| == 22 + |comment|
  {
    Le32(END_SIGNATURE) + disks + Le16(count) + size + Le32(offset) + Le16(|comment|) + comment
  }

  // ----- Reading back what was written -------------------------------------------

  lemma ReadsLe16(v: nat, bytes: Bytes, at: nat)
    requires v < 0x1_0000 && Stands(Le16(v), bytes, at)
    ensures U16(bytes, at) == v
  {
    assert bytes[at + 0] == Le16(v)[0] && bytes[at + 1] == Le16(v)[1];
  }

  lemma ReadsLe32(v: nat, bytes: Bytes, at: nat)
    requires v < 0x1_0000_0000 && Stands(Le32(v), bytes, at)
    ensures U32(bytes, at) == v
  {
    StandsSplit(Le16(v % 0x1_0000), Le16(v / 0x1_0000), bytes, at);
    ReadsLe16(v % 0x1_0000, bytes, at);
    ReadsLe16(v / 0x1_0000, bytes, at + 2);
  }

  lemma SubarrayOfStanding(part: Bytes, bytes: Bytes, at: nat)
    requires Stands(part, bytes, at)
    ensures Subarray(bytes, at, at + |part|) == part
  {
  }

  lemma FixedFields(h: Header, bytes: Bytes, p: nat)
    requires HeaderOk(h) && Stands(HeaderFixed(h), bytes, p)
    ensures U32(bytes, p) == CENTRAL_SIGNATURE
    ensures U16(bytes, p + 10) == h.entry.compression
    ensures U32(bytes, p + 20) == h.entry.compressedSize && U32(bytes, p + 24) == h.entry.size
    ensures U16(bytes, p + 28) == |h.entry.name| && U16(bytes, p + 30) == |h.extra| && U16(bytes, p + 32) == |h.comment|
    ensures U32(bytes, p + 42) == h.entry.offset
  {
    var a := Le32(CENTRAL_SIGNATURE) + h.skipped.before;
    var b := a + Le16(h.entry.compression) + h.skipped.between;
    var c := b + Le32(h.entry.compressedSize) + Le32(h.entry.size);
    var d := c + Le16(|h.entry.name|) + Le16(|h.extra|);
    var e := d + Le16(|h.comment|) + h.skipped.after;
    StandsSplit(e, Le32(h.entry.offset), bytes, p);
    ReadsLe32(h.entry.offset, bytes, p + 42);
    StandsSplit(d + Le16(|h.comment|), h.skipped.after, bytes, p);
    StandsSplit(d, Le16(|h.comment|), bytes, p);
    ReadsLe16(|h.comment|, bytes, p + 32);
    StandsSplit(c + Le16(|h.entry.name|), Le16(|h.extra|), bytes, p);
    ReadsLe16(|h.extra|, bytes, p + 30);
    StandsSplit(c, Le16(|h.entry.name|), bytes, p);
    ReadsLe16(|h.entry.name|, bytes, p + 28);
    StandsSplit(b + Le32(h.entry.compressedSize), Le32(h.entry.size), bytes, p);
    ReadsLe32(h.entry.size, bytes, p + 24);
    StandsSplit(b, Le32(h.entry.compressedSize), bytes, p);
    ReadsLe32(h.entry.compressedSize, bytes, p + 20);
    StandsSplit(a + Le16(h.entry.compression), h.skipped.between, bytes, p);
    StandsSplit(a, Le16(h.entry.compression), bytes, p);
    ReadsLe16(h.entry.compression, bytes, p + 10);
    StandsSplit(Le32(CENTRAL_SIGNATURE), h.skipped.before, bytes, p);
    ReadsLe32(CENTRAL_SIGNATURE, bytes, p);
  }

  function EntriesOf(hs: seq<Header>): seq<Entry> { seq(|hs|, i requires 0 <= i < |hs| => hs[i].entry) }

  lemma HeaderIsRead(h: Header, bytes: Bytes, p: nat)
    requires HeaderOk(h) && Stands(HeaderBytes(h), bytes, p)
    ensures HeaderAt(bytes, p) && EntryAt(bytes, p) == h.entry
    ensures NextHeader(bytes, p) == p + |HeaderBytes(h)|
  {
    StandsSplit(HeaderFixed(h), h.entry.name + (h.extra + h.comment), bytes, p);
    StandsSplit(h.entry.name, h.extra + h.comment, bytes, p + 46);
    FixedFields(h, bytes, p);
    SubarrayOfStanding(h.entry.name, bytes, p + 46);
  }

  lemma {:induction false} DirectoryIsListed(hs: seq<Header>, bytes: Bytes, p: nat)
    requires HeadersOk(hs) && Stands(Directory(hs), bytes, p)
    ensures EntriesFrom(bytes, p, |hs|) == EntriesOf(hs)
    decreases |hs|
  {
    if hs != [] {
      var h, tail := hs[0], hs[1..];
      assert h in hs && forall x | x in tail :: x in hs;
      var next := p + |HeaderBytes(h)|;
      StandsSplit(HeaderBytes(h), Directory(tail), bytes, p);
      assert EntriesFrom(bytes, next, |tail|) == EntriesOf(tail) by { DirectoryIsListed(tail, bytes, next); }
      HeaderIsRead(h, bytes, p);
      assert EntriesOf(hs) == [h.entry] + EntriesOf(tail);
    }
  }

  lemma EndFields(disks: Bytes, count: nat, size: Bytes, offset: nat, comment: Bytes, bytes: Bytes, at: nat)
    requires |disks| == 6 && count < 0x1_0000 && |size| == 4 && offset < 0x1_0000_0000 && |comment| < 0x1_0000
    requires Stands(EndRecord(disks, count, size, offset, comment), bytes, at)
    ensures U32(bytes, at) == END_SIGNATURE && U16(bytes, at + 10) == count && U32(bytes, at + 16) == offset
  {
    var a := Le32(END_SIGNATURE) + disks;
    var b := a + Le16(count) + size;
    StandsSplit(b + Le32(offset) + Le16(|comment|), comment, bytes, at);
    StandsSplit(b + Le32(offset), Le16(|comment|), bytes, at);
    StandsSplit(b, Le32(offset), bytes, at);
    ReadsLe32(offset, bytes, at + 16);
    StandsSplit(a + Le16(count), size, bytes, at);
    StandsSplit(a, Le16(count), bytes, at);
    ReadsLe16(count, bytes, at + 10);
    StandsSplit(Le32(END_SIGNATURE), disks, bytes, at);
    ReadsLe32(END_SIGNATURE, bytes, at);
  }

  /** No end-record signature stands after the record at `end` (in the comment, say). */
  predicate LastSignature(bytes: Bytes, end: int) {
    forall i | Max(0, end + 1) <= i <= |bytes| - 22 :: U32(bytes, i) != END_SIGNATURE
  }

  lemma EndIsFound(bytes: Bytes, end: nat)
    requires end + 22 <= |bytes| <= end + 22 + 0xffff && U32(bytes, end) == END_SIGNATURE && LastSignature(bytes, end)
    ensures FindEnd(bytes, |bytes| - 22, Max(0, |bytes| - 65557)) == Some(end)
  {
    FindEndInRange(bytes, |bytes| - 22, Max(0, |bytes| - 65557));
  }

  /**
   * Whatever else the file holds, the entries listed are those of the directory
   * the end record points at, when that record ends the file and no later
   * signature imitates it.
   */
  lemma WrittenDirectoryIsRead(hs: seq<Header>, disks: Bytes, size: Bytes, offset: nat, comment: Bytes, bytes: Bytes, end: nat)
    requires HeadersOk(hs) && |hs| < 0x1_0000 && Stands(Directory(hs), bytes, offset)
    requires |disks| == 6 && |size| == 4 && offset < 0x1_0000_0000 && |comment| < 0x1_0000
    requires Stands(EndRecord(disks, |hs|, size, offset, comment), bytes, end)
    requires |bytes| == end + 22 + |comment| && LastSignature(bytes, end)
    ensures Entries(bytes) == EntriesOf(hs)
  {
    EndFields(disks, |hs|, size, offset, comment, bytes, end);
    EntriesStartAt(bytes, end, |hs|, offset);
    DirectoryIsListed(hs, bytes, offset);
  }

  lemma EntriesStartAt(bytes: Bytes, end: nat, count: nat, offset: nat)
    requires end + 22 <= |bytes| <= end + 22 + 0xffff && U32(bytes, end) == END_SIGNATURE && LastSignature(bytes, end)
    requires U16(bytes, end + 10) == count && U32(bytes, end + 16) == offset
    ensures Entries(bytes) == EntriesFrom(bytes, offset, count)
  {
    EndIsFound(bytes, end);
  }

  // ----- Whole archives of stored files ---------------------------------------------

  datatype File = File(name: Bytes, data: Bytes, local: Bytes, localExtra: Bytes, skipped: Skipped, extra: Bytes, comment: Bytes)

  predicate FileOk(f: File) {
    && |f.name| < 0x1_0000 && |f.localExtra| < 0x1_0000 && |f.extra| < 0x1_0000 && |f.comment| < 0x1_0000
    && |f.data| <= MAX_ENTRY_BYTES && |f.local| == 22
    && |f.skipped.before| == 6 && |f.skipped.between| == 8 && |f.skipped.after| == 8
  }

  function LocalHeader(f: File): (b: Bytes)
    requires FileOk(f)
    ensures |b| == 30
  {
    Le32(LOCAL_SIGNATURE) + f.local + Le16(|f.name|) + Le16(|f.localExtra|)
  }

  function LocalRecord(f: File): (b: Bytes)
    requires FileOk(f)
  {
    LocalHeader(f) + (f.name + (f.localExtra + f.data))
  }

  function StoredHeader(f: File, offset: nat): Header {
    Header(Entry(f.name, 0, |f.data|, |f.data|, offset), f.skipped, f.extra, f.comment)
  }

  predicate FilesOk(fs: seq<File>) { forall f | f in fs :: FileOk(f) }

  /** The local records, one after another. */
  function Records(fs: seq<File>): Bytes
    requires FilesOk(fs)
  {
    if fs == [] then [] else LocalRecord(fs[0]) + Records(fs[1..])
  }

  /** The directory headers for records that start at `offset`. */
  function HeadersFor(fs: seq<File>, offset: nat): (hs: seq<Header>)
    requires FilesOk(fs)
    ensures |hs| == |fs|
  {
    if fs == [] then []
    else [StoredHeader(fs[0], offset)] + HeadersFor(fs[1..], offset + |LocalRecord(fs[0])|)
  }

  lemma LocalFields(f: File, offset: nat, bytes: Bytes)
    requires FileOk(f) && Stands(LocalRecord(f), bytes, offset)
    ensures offset + 30 <= |bytes| && U32(bytes, offset) == LOCAL_SIGNATURE
    ensures U16(bytes, offset + 26) == |f.name| && U16(bytes, offset + 28) == |f.localExtra|
    ensures Stands(f.data, bytes, offset + 30 + |f.name| + |f.localExtra|)
  {
    StandsSplit(LocalHeader(f), f.name + (f.localExtra + f.data), bytes, offset);
    StandsSplit(f.name, f.localExtra + f.data, bytes, offset + 30);
    StandsSplit(f.localExtra, f.data, bytes, offset + 30 + |f.name|);
    var a := Le32(LOCAL_SIGNATURE) + f.local;
    StandsSplit(a + Le16(|f.name|), Le16(|f.localExtra|), bytes, offset);
    StandsSplit(a, Le16(|f.name|), bytes, offset);
    StandsSplit(Le32(LOCAL_SIGNATURE), f.local, bytes, offset);
    ReadsLe32(LOCAL_SIGNATURE, bytes, offset);
    ReadsLe16(|f.name|, bytes, offset + 26);
    ReadsLe16(|f.localExtra|, bytes, offset + 28);
  }

  /**
   * Whatever an entry claims, what lies behind its local header is taken as it
   * is by method 0 and handed to the inflater by method 8; by any other method,
   * or when the entry claims more than fifty megabytes, nothing is read.
   */
  lemma EveryMethodIsRead(f: File, e: Entry, bytes: Bytes)
    requires FileOk(f) && Stands(LocalRecord(f), bytes, e.offset) && e.compressedSize == |f.data|
    ensures ReadEntry(bytes, e) ==
      if e.size > 52_428_800 then Nothing
      else if e.compression == 0 then Stored(f.data)
      else if e.compression == 8 then Deflated(f.data)
      else Nothing
  {
    LocalFields(f, e.offset, bytes);
    SubarrayOfStanding(f.data, bytes, e.offset + 30 + |f.name| + |f.localExtra|);
  }

  lemma StoredFileIsRead(f: File, offset: nat, bytes: Bytes)
    requires FileOk(f) && Stands(LocalRecord(f), bytes, offset)
    ensures ReadEntry(bytes, StoredHeader(f, offset).entry) == Stored(f.data)
  {
    EveryMethodIsRead(f, StoredHeader(f, offset).entry, bytes);
  }

  /** An entry that points outside the file or at no local header reads as nothing. */
  lemma BadOffsetReadsNothing(bytes: Bytes, e: Entry)
    requires e.offset + 30 > |bytes| || bytes[e.offset..e.offset + 4] != Le32(0x04034b50)
    ensures ReadEntry(bytes, e) == Nothing
  {
    if e.offset + 30 <= |bytes| && U32(bytes, e.offset) == LOCAL_SIGNATURE { FourBytes(bytes, e.offset); }
  }

  lemma FourBytes(bytes: Bytes, at: nat)
    requires at + 4 <= |bytes|
    ensures bytes[at..at + 4] == Le32(U32(bytes, at))
  {
    var a, b, c, d := bytes[at] as int, bytes[at + 1] as int, bytes[at + 2] as int, bytes[at + 3] as int;
    assert U32(bytes, at) == a + 256 * b + 0x1_0000 * (c + 256 * d);
    assert U32(bytes, at) % 0x1_0000 == a + 256 * b && U32(bytes, at) / 0x1_0000 == c + 256 * d;
    assert Le32(U32(bytes, at)) == [a, b] + [c, d];
  }

  /** Directory headers can be written for any archive below 4 GB. */
  lemma {:induction false} HeadersFit(fs: seq<File>, offset: nat)
    requires FilesOk(fs) && offset + |Records(fs)| < 0x1_0000_0000
    ensures HeadersOk(HeadersFor(fs, offset))
    decreases |fs|
  {
    if fs != [] {
      assert fs[0] in fs && forall x | x in fs[1..] :: x in fs;
      HeadersFit(fs[1..], offset + |LocalRecord(fs[0])|);
    }
  }

  predicate ArchiveOk(fs: seq<File>, lead: Bytes, disks: Bytes, size: Bytes, comment: Bytes) {
    && FilesOk(fs) && |fs| < 0x1_0000 && |disks| == 6 && |size| == 4 && |comment| < 0x1_0000
    && |lead| + |Records(fs)| < 0x1_0000_0000
  }

  /** An archive: any preamble, the local records, the directory and the end record. */
  function Archive(fs: seq<File>, lead: Bytes, disks: Bytes, size: Bytes, comment: Bytes): Bytes
    requires ArchiveOk(fs, lead, disks, size, comment)
  {
    HeadersFit(fs, |lead|);
    var offset := |lead| + |Records(fs)|;
    lead + (Records(fs) + (Directory(HeadersFor(fs, |lead|)) + EndRecord(disks, |fs|, size, offset, comment)))
  }

  lemma {:induction false} RecordsAreRead(fs: seq<File>, offset: nat, bytes: Bytes, i: nat)
    requires FilesOk(fs) && Stands(Records(fs), bytes, offset) && i < |fs|
    ensures var e := HeadersFor(fs, offset)[i].entry;
            e.name == fs[i].name && ReadEntry(bytes, e) == Stored(fs[i].data)
    decreases |fs|
  {
    hide ReadEntry, LocalHeader, HeaderBytes;
    var f, tail := fs[0], fs[1..];
    assert f in fs && forall x | x in tail :: x in fs;
    StandsSplit(LocalRecord(f), Records(tail), bytes, offset);
    if i == 0 {
      StoredFileIsRead(f, offset, bytes);
    } else {
      RecordsAreRead(tail, offset + |LocalRecord(f)|, bytes, i - 1);
    }
  }

  /**
   * Every file of an archive comes back in its place, under its name and with
   * its bytes, unless the archive's comment imitates an end record.
   */
  lemma ArchiveRoundTrip(fs: seq<File>, lead: Bytes, disks: Bytes, size: Bytes, comment: Bytes, i: nat)
    requires ArchiveOk(fs, lead, disks, size, comment)
    requires var bytes := Archive(fs, lead, disks, size, comment);
             LastSignature(bytes, |bytes| - 22 - |comment|)
    ensures var bytes := Archive(fs, lead, disks, size, comment);
            var entries := Entries(bytes);
            && |entries| == |fs|
            && (i < |fs| ==> entries[i].name == fs[i].name && ReadEntry(bytes, entries[i]) == Stored(fs[i].data))
  {
    HeadersFit(fs, |lead|);
    var bytes, hs := Archive(fs, lead, disks, size, comment), HeadersFor(fs, |lead|);
    var records, directory := Records(fs), Directory(hs);
    var offset := |lead| + |records|;
    var last := EndRecord(disks, |fs|, size, offset, comment);
    assert Stands(lead + (records + (directory + last)), bytes, 0);
    StandsSplit(lead, records + (directory + last), bytes, 0);
    StandsSplit(records, directory + last, bytes, |lead|);
    StandsSplit(directory, last, bytes, offset);
    WrittenDirectoryIsRead(hs, disks, size, offset, comment, bytes, offset + |directory|);
    if i < |fs| { RecordsAreRead(fs, |lead|, bytes, i); }
  }

  /** Each kind of record begins with its own four bytes, the first two of them the letters P and K. */
  lemma RecordsBeginWith(f: File, h: Header, disks: Bytes, count: nat, size: Bytes, offset: nat, comment: Bytes)
    requires FileOk(f) && HeaderOk(h)
    requires |disks| == 6 && count < 0x1_0000 && |size| == 4 && offset < 0x1_0000_0000 && |comment| < 0x1_0000
    ensures [0x50, 0x4b, 3, 4] <= LocalRecord(f)
    ensures [0x50, 0x4b, 1, 2] <= HeaderBytes(h)
    ensures [0x50, 0x4b, 5, 6] <= EndRecord(disks, count, size, offset, comment)
  {
    assert Le32(LOCAL_SIGNATURE) == [0x50, 0x4b, 3, 4];
    assert Le32(CENTRAL_SIGNATURE) == [0x50, 0x4b, 1, 2];
    assert Le32(END_SIGNATURE) == [0x50, 0x4b, 5, 6];
  }

  /** Without an end record in the last 65,557 bytes nothing is listed. */
  lemma WithoutEndNothingIsListed(bytes: Bytes)
    requires forall i | Max(0, |bytes| - 65_557) <= i <= |bytes| - 22 :: U32(bytes, i) != 0x06054b50
    ensures Entries(bytes) == []
  {
    FindEndInRange(bytes, |bytes| - 22, Max(0, |bytes| - 65557));
  }
}
