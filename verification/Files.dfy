/** Files of a board question or workspace: quotas, storage in chunks, reassembly and removal. */
module Files {
  import opened Basics
  import opened Store
  import opened Records

  const MAX_FILE_BYTES: nat := 20 * 1024 * 1024
  const MAX_FILES: nat := 100
  const MAX_OWNER_BYTES: nat := 250 * 1024 * 1024
  const BYTE_CHUNK: nat := 23_000
  const TEXT_CHUNK: nat := 15_000

  // ----- Chunks ---------------------------------------------------------------------------

  /** Math.ceil(length / size) */
  function Chunks(length: nat, size: nat): nat
    requires size > 0
  {
    (length + size - 1) / size
  }

  function Chunk<T>(s: seq<T>, n: nat, size: nat): seq<T> {
    s[Min(n * size, |s|)..Min((n + 1) * size, |s|)]
  }

  predicate HoldsChunk(u: Upload, r: Row) {
    match r
    case Bytes(n) => n < Chunks(|u.bytes|, BYTE_CHUNK)
    case Text(n) => n < Chunks(|u.text|, TEXT_CHUNK)
    case _ => false
  }

  function ChunkAt(u: Upload, r: Row): Doc
    requires HoldsChunk(u, r)
  {
    if r.Bytes? then BytesDoc(Chunk(u.bytes, r.n, BYTE_CHUNK)) else TextDoc(Chunk(u.text, r.n, TEXT_CHUNK))
  }

  /** The rows an upload is stored in. */
  function ChunkRows(u: Upload): (t: Table<Row, Doc>)
    ensures forall r :: r in t <==> HoldsChunk(u, r)
    ensures forall r | r in t :: t[r] == ChunkAt(u, r)
  {
    var rows := (set n: nat | n < Chunks(|u.bytes|, BYTE_CHUNK) :: Bytes(n)) + (set n: nat | n < Chunks(|u.text|, TEXT_CHUNK) :: Row.Text(n));
    map r | r in rows :: ChunkAt(u, r)
  }

  /** The bytes of a file, or None when a part is missing. */
  function ReadBytes(t: Table<Row, Doc>, n: nat): Option<seq<Byte>> {
    if n == 0 then Some([])
    else
      var before := ReadBytes(t, n - 1);
      if before.None? || Bytes(n - 1) !in t || !t[Bytes(n - 1)].BytesDoc? then None
      else Some(before.value + t[Bytes(n - 1)].d)
  }

  /** The text of a file; a missing part reads as nothing. */
  function ReadText(t: Table<Row, Doc>, n: nat): Text {
    if n == 0 then []
    else ReadText(t, n - 1) + (if Row.Text(n - 1) in t && t[Row.Text(n - 1)].TextDoc? then t[Row.Text(n - 1)].t else [])
  }

  lemma OneMoreChunk<T>(s: seq<T>, n: nat, size: nat)
    ensures s[..Min(n * size, |s|)] + Chunk(s, n, size) == s[..Min((n + 1) * size, |s|)]
  {
    assert (n + 1) * size == n * size + size;
  }

  lemma ChunksCover(length: nat, size: nat)
    requires size > 0
    ensures Chunks(length, size) * size >= length
  {
    var c := Chunks(length, size);
    assert length + size - 1 == c * size + (length + size - 1) % size;
  }

  lemma {:induction false} BytesUpTo(t: Table<Row, Doc>, s: seq<Byte>, n: nat)
    requires forall k: nat | k < n :: Bytes(k) in t && t[Bytes(k)] == BytesDoc(Chunk(s, k, BYTE_CHUNK))
    ensures ReadBytes(t, n) == Some(s[..Min(n * BYTE_CHUNK, |s|)])
  {
    if n > 0 {
      BytesUpTo(t, s, n - 1);
      OneMoreChunk(s, n - 1, BYTE_CHUNK);
    }
  }

  lemma {:induction false} TextUpTo(t: Table<Row, Doc>, s: Text, n: nat)
    requires forall k: nat | k < n :: Row.Text(k) in t && t[Row.Text(k)] == TextDoc(Chunk(s, k, TEXT_CHUNK))
    ensures ReadText(t, n) == s[..Min(n * TEXT_CHUNK, |s|)]
  {
    if n > 0 {
      TextUpTo(t, s, n - 1);
      OneMoreChunk(s, n - 1, TEXT_CHUNK);
    }
  }

  lemma WholeBytes(t: Table<Row, Doc>, s: seq<Byte>)
    requires forall k: nat | k < Chunks(|s|, BYTE_CHUNK) :: Bytes(k) in t && t[Bytes(k)] == BytesDoc(Chunk(s, k, BYTE_CHUNK))
    ensures ReadBytes(t, Chunks(|s|, BYTE_CHUNK)) == Some(s)
  {
    BytesUpTo(t, s, Chunks(|s|, BYTE_CHUNK));
    ChunksCover(|s|, BYTE_CHUNK);
    assert s[..|s|] == s;
  }

  lemma WholeText(t: Table<Row, Doc>, s: Text)
    requires forall k: nat | k < Chunks(|s|, TEXT_CHUNK) :: Row.Text(k) in t && t[Row.Text(k)] == TextDoc(Chunk(s, k, TEXT_CHUNK))
    ensures ReadText(t, Chunks(|s|, TEXT_CHUNK)) == s
  {
    TextUpTo(t, s, Chunks(|s|, TEXT_CHUNK));
    ChunksCover(|s|, TEXT_CHUNK);
    assert s[..|s|] == s;
  }

  /** Reading a file's chunks in order gives back what was uploaded. */
  lemma ChunksReassemble(u: Upload)
    ensures ReadBytes(ChunkRows(u), Chunks(|u.bytes|, BYTE_CHUNK)) == Some(u.bytes)
    ensures ReadText(ChunkRows(u), Chunks(|u.text|, TEXT_CHUNK)) == u.text
  {
    WholeBytes(ChunkRows(u), u.bytes);
    WholeText(ChunkRows(u), u.text);
  }

  // ----- Sizes ------------------------------------------------------------------------------

  function SizeOf(d: Doc): nat { if d.FileDoc? then d.file.size else 0 }

  /** The bytes of all the files listed. */
  ghost function TotalSize(t: Table<Row, Doc>): nat
    decreases |t|
  {
    if t == map[] then 0 else var r :| r in t; SizeOf(t[r]) + TotalSize(t - {r})
  }

  lemma {:induction false} TotalWithout(t: Table<Row, Doc>, r: Row)
    requires r in t
    ensures TotalSize(t) == SizeOf(t[r]) + TotalSize(t - {r})
    decreases |t|
  {
    var x :| x in t && TotalSize(t) == SizeOf(t[x]) + TotalSize(t - {x});
    if x != r {
      TotalWithout(t - {x}, r);
      TotalWithout(t - {r}, x);
      assert t - {x} - {r} == t - {r} - {x};
    }
  }

  /** The total is the sum of the sizes of the files listed. */
  lemma TotalIsOfSizes(t: Table<Row, Doc>, r: Row)
    requires r in t && t[r].FileDoc?
    ensures TotalSize(t) == t[r].file.size + TotalSize(t - {r}) && TotalSize(map[]) == 0
  {
    TotalWithout(t, r);
  }

  lemma TotalWith(t: Table<Row, Doc>, r: Row, d: Doc)
    ensures TotalSize(t[r := d]) == SizeOf(d) + TotalSize(t - {r})
  {
    TotalWithout(t[r := d], r);
    assert t[r := d] - {r} == t - {r};
  }

  // ----- Requests about files -----------------------------------------------------------------

  /** Reviews stand for whatever Sentinel answers, or for its failure. */
  datatype FileAct =
    | Attach(id: Id, bytes: seq<Byte>, text: Text, shared: bool, review: Review)
    | Ask(fileId: Id, review: Review)
    | Change(fileId: Id, useInBoard: Option<bool>, share: Option<bool>)
    | Discard(fileId: Id)

  function FilesIn(s: Sys, o: Owner): Table<Row, Doc> { Rows(s, FilesOf(o)) }

  function FileIn(s: Sys, o: Owner, id: Id): Option<StoredFile> {
    var t := FilesIn(s, o);
    if FileRow(id) in t && t[FileRow(id)].FileDoc? then Some(t[FileRow(id)].file) else None
  }

  ghost predicate HasRoom(s: Sys, o: Owner, bytes: seq<Byte>) {
    && 0 < |bytes| <= MAX_FILE_BYTES
    && |FilesIn(s, o)| < MAX_FILES
    && TotalSize(FilesIn(s, o)) + |bytes| <= MAX_OWNER_BYTES
  }

  function NewFile(id: Id, u: Upload, shared: bool, review: Review): StoredFile {
    StoredFile(id, |u.bytes|, Chunks(|u.bytes|, BYTE_CHUNK), Chunks(|u.text|, TEXT_CHUNK), |u.text|, true, shared, review)
  }

  function SaveFile(s: Sys, o: Owner, file: StoredFile): Sys {
    Put(s, FilesOf(o), FilesIn(s, o)[FileRow(file.id) := FileDoc(file)])
  }

  function AttachFile(s: Sys, o: Owner, id: Id, u: Upload, shared: bool, review: Review): Sys {
    SaveFile(Put(s, Blob(id), ChunkRows(u)).(uploads := s.uploads[id := u]), o, NewFile(id, u, shared, review))
  }

  function DiscardFile(s: Sys, o: Owner, id: Id): Sys {
    Put(Put(s, Blob(id), map[]), FilesOf(o), FilesIn(s, o) - {FileRow(id)})
  }

  function Changed(file: StoredFile, useInBoard: Option<bool>, share: Option<bool>): StoredFile {
    file.(useInBoard := if useInBoard.Some? then useInBoard.value else file.useInBoard,
          shared := if share.Some? then share.value else file.shared)
  }

  ghost function FileStep(s: Sys, o: Owner, act: FileAct): Sys {
    match act
    case Attach(id, bytes, text, shared, review) =>
      if HasRoom(s, o, bytes) then AttachFile(s, o, id, Upload(o, bytes, text), shared, review) else s
    case Ask(id, review) =>
      var file := FileIn(s, o, id);
      if file.Some? then SaveFile(s, o, file.value.(review := review)) else s
    case Change(id, useInBoard, share) =>
      var file := FileIn(s, o, id);
      if file.Some? then SaveFile(s, o, Changed(file.value, useInBoard, share)) else s
    case Discard(id) => if FileIn(s, o, id).Some? then DiscardFile(s, o, id) else s
  }

  // ----- What every step keeps ------------------------------------------------------------------

  predicate Describes(file: StoredFile, id: Id, u: Upload) {
    && file.id == id && file.size == |u.bytes| && file.textChars == |u.text|
    && file.byteChunks == Chunks(|u.bytes|, BYTE_CHUNK) && file.textChunks == Chunks(|u.text|, TEXT_CHUNK)
  }

  predicate EntryOk(uploads: map<Id, Upload>, o: Owner, r: Row, d: Doc) {
    && r.FileRow? && r.fileId in uploads && uploads[r.fileId].owner == o
    && d.FileDoc? && Describes(d.file, r.fileId, uploads[r.fileId])
  }

  ghost predicate EntriesOk(uploads: map<Id, Upload>, o: Owner, t: Table<Row, Doc>) {
    forall r | r in t :: EntryOk(uploads, o, r, t[r])
  }

  /** A list of files: each as uploaded for the owner, within both quotas. */
  ghost predicate TableOk(uploads: map<Id, Upload>, o: Owner, t: Table<Row, Doc>) {
    && EntriesOk(uploads, o, t)
    && |t| <= MAX_FILES && TotalSize(t) <= MAX_OWNER_BYTES
  }

  ghost predicate ListOk(s: Sys, o: Owner) { TableOk(s.uploads, o, FilesIn(s, o)) }

  ghost predicate Listed(s: Sys, id: Id) {
    id in s.uploads && FileRow(id) in FilesIn(s, s.uploads[id].owner)
  }

  /** A file's chunks are stored whole while the file is listed, and not at all otherwise. */
  ghost predicate BlobOk(s: Sys, id: Id) {
    Rows(s, Blob(id)) == if Listed(s, id) then ChunkRows(s.uploads[id]) else map[]
  }

  ghost predicate FilesOk(s: Sys) {
    && (forall o :: ListOk(s, o))
    && (forall id :: BlobOk(s, id))
  }

  /** In every such state a listed file reads back as the bytes and text uploaded. */
  lemma ListedFileIsWhole(s: Sys, o: Owner, id: Id)
    requires FilesOk(s) && FileIn(s, o, id).Some?
    ensures var file := FileIn(s, o, id).value; var chunks := Rows(s, Blob(id));
            && id in s.uploads && s.uploads[id].owner == o && file.size == |s.uploads[id].bytes|
            && ReadBytes(chunks, file.byteChunks) == Some(s.uploads[id].bytes)
            && ReadText(chunks, file.textChunks) == s.uploads[id].text
  {
    assert ListOk(s, o) && BlobOk(s, id);
    assert EntryOk(s.uploads, o, FileRow(id), FilesIn(s, o)[FileRow(id)]);
    ChunksReassemble(s.uploads[id]);
  }

  lemma EntriesWith(uploads: map<Id, Upload>, o: Owner, t: Table<Row, Doc>, id: Id, file: StoredFile, u: Upload)
    requires EntriesOk(uploads, o, t) && id !in uploads && u.owner == o && Describes(file, id, u)
    ensures FileRow(id) !in t && EntriesOk(uploads[id := u], o, t[FileRow(id) := FileDoc(file)])
  {
  }

  lemma OneMoreRow(t: Table<Row, Doc>, r: Row, d: Doc)
    requires r !in t
    ensures |t[r := d]| == |t| + 1 && TotalSize(t[r := d]) == TotalSize(t) + SizeOf(d)
  {
    TotalWith(t, r, d);
    assert t - {r} == t;
  }

  lemma TableWith(uploads: map<Id, Upload>, o: Owner, t: Table<Row, Doc>, id: Id, file: StoredFile, u: Upload)
    requires TableOk(uploads, o, t) && id !in uploads && u.owner == o && Describes(file, id, u)
    requires |t| < MAX_FILES && TotalSize(t) + |u.bytes| <= MAX_OWNER_BYTES
    ensures TableOk(uploads[id := u], o, t[FileRow(id) := FileDoc(file)])
  {
    EntriesWith(uploads, o, t, id, file, u);
    OneMoreRow(t, FileRow(id), FileDoc(file));
  }

  lemma TableSaved(uploads: map<Id, Upload>, o: Owner, t: Table<Row, Doc>, id: Id, file: StoredFile)
    requires TableOk(uploads, o, t) && FileRow(id) in t && Describes(file, id, uploads[id])
    ensures TableOk(uploads, o, t[FileRow(id) := FileDoc(file)])
  {
    var after := t[FileRow(id) := FileDoc(file)];
    assert EntryOk(uploads, o, FileRow(id), t[FileRow(id)]);
    TotalWith(t, FileRow(id), FileDoc(file));
    TotalWithout(t, FileRow(id));
    assert after.Keys == t.Keys;
    assert |after| == |after.Keys| == |t.Keys|;
  }

  lemma TableLess(uploads: map<Id, Upload>, o: Owner, t: Table<Row, Doc>, r: Row)
    requires TableOk(uploads, o, t) && r in t
    ensures TableOk(uploads, o, t - {r})
  {
    TotalWithout(t, r);
    assert (t - {r}).Keys == t.Keys - {r};
    assert |t - {r}| == |(t - {r}).Keys|;
  }

  lemma MoreUploads(uploads: map<Id, Upload>, o: Owner, t: Table<Row, Doc>, id: Id, u: Upload)
    requires TableOk(uploads, o, t) && id !in uploads
    ensures TableOk(uploads[id := u], o, t)
  {
  }

  /** No two uploads share an id. */
  predicate FileFresh(s: Sys, act: FileAct) { act.Attach? ==> act.id !in s.uploads }

  lemma AttachKeepsList(s: Sys, o: Owner, id: Id, u: Upload, shared: bool, review: Review, x: Owner)
    requires ListOk(s, x) && id !in s.uploads && u.owner == o && HasRoom(s, o, u.bytes)
    ensures ListOk(AttachFile(s, o, id, u, shared, review), x)
  {
    hide ChunkRows, TotalSize;
    if x == o { TableWith(s.uploads, o, FilesIn(s, o), id, NewFile(id, u, shared, review), u); }
    else { MoreUploads(s.uploads, x, FilesIn(s, x), id, u); }
  }

  lemma AttachKeepsBlob(s: Sys, o: Owner, id: Id, u: Upload, shared: bool, review: Review, f: Id)
    requires BlobOk(s, f) && id !in s.uploads && u.owner == o
    ensures BlobOk(AttachFile(s, o, id, u, shared, review), f)
  {
    hide ChunkRows, TotalSize;
  }

  lemma AttachKeeps(s: Sys, o: Owner, id: Id, u: Upload, shared: bool, review: Review)
    requires FilesOk(s) && id !in s.uploads && u.owner == o && HasRoom(s, o, u.bytes)
    ensures FilesOk(AttachFile(s, o, id, u, shared, review))
  {
    hide AttachFile, ListOk, BlobOk;
    var after := AttachFile(s, o, id, u, shared, review);
    forall x
      ensures ListOk(after, x)
    {
      AttachKeepsList(s, o, id, u, shared, review, x);
    }
    forall f
      ensures BlobOk(after, f)
    {
      AttachKeepsBlob(s, o, id, u, shared, review, f);
    }
  }

  lemma SaveKeeps(s: Sys, o: Owner, id: Id, file: StoredFile)
    requires FilesOk(s) && FileRow(id) in FilesIn(s, o) && file.id == id && id in s.uploads && Describes(file, id, s.uploads[id])
    ensures FilesOk(SaveFile(s, o, file))
  {
    var after := SaveFile(s, o, file);
    forall x
      ensures ListOk(after, x)
    {
      assert ListOk(s, x);
      if x == o { TableSaved(s.uploads, o, FilesIn(s, o), id, file); }
    }
    forall f
      ensures BlobOk(after, f)
    {
      assert BlobOk(s, f);
    }
  }

  lemma DiscardKeeps(s: Sys, o: Owner, id: Id)
    requires FilesOk(s) && FileRow(id) in FilesIn(s, o)
    ensures FilesOk(DiscardFile(s, o, id))
  {
    var after := DiscardFile(s, o, id);
    assert id in s.uploads && s.uploads[id].owner == o by {
      assert ListOk(s, o) && EntryOk(s.uploads, o, FileRow(id), FilesIn(s, o)[FileRow(id)]);
    }
    forall x
      ensures ListOk(after, x)
    {
      assert ListOk(s, x);
      if x == o { TableLess(s.uploads, o, FilesIn(s, o), FileRow(id)); }
    }
    forall f
      ensures BlobOk(after, f)
    {
      assert BlobOk(s, f);
    }
  }

  lemma FileStepKeeps(s: Sys, o: Owner, act: FileAct)
    requires FilesOk(s) && FileFresh(s, act)
    ensures FilesOk(FileStep(s, o, act))
  {
    if act.Attach? {
      if HasRoom(s, o, act.bytes) { AttachKeeps(s, o, act.id, Upload(o, act.bytes, act.text), act.shared, act.review); }
    } else {
      var id := act.fileId;
      var file := FileIn(s, o, id);
      assert ListOk(s, o);
      if file.Some? {
        assert EntryOk(s.uploads, o, FileRow(id), FilesIn(s, o)[FileRow(id)]);
        match act {
          case Ask(_, review) => SaveKeeps(s, o, id, file.value.(review := review));
          case Change(_, use, share) => SaveKeeps(s, o, id, Changed(file.value, use, share));
          case Discard(_) => DiscardKeeps(s, o, id);
        }
      }
    }
  }

  /** A request about one owner's files touches nothing but that owner's list and the chunks of its files. */
  lemma FileStepFrame(s: Sys, o: Owner, act: FileAct, p: Partition)
    requires p != FilesOf(o) && !p.Blob?
    ensures Rows(FileStep(s, o, act), p) == Rows(s, p)
  {
  }

  lemma ForgetKeepsFiles(s: Sys, dead: set<Owner>)
    requires FilesOk(s)
    ensures FilesOk(Forget(s, dead))
  {
    var after := Forget(s, dead);
    forall x
      ensures ListOk(after, x)
    {
      assert ListOk(s, x);
    }
    forall f
      ensures BlobOk(after, f)
    {
      assert BlobOk(s, f);
    }
  }

  // ----- What each request about a file leaves ---------------------------------------------------

  /** The other files of this owner, and everything that is not this owner's list or this file's chunks. */
  ghost predicate OthersStand(s: Sys, after: Sys, o: Owner, id: Id) {
    && (forall other | other != id :: FileIn(after, o, other) == FileIn(s, o, other))
    && (forall p: Partition | p != FilesOf(o) && p != Blob(id) :: Rows(after, p) == Rows(s, p))
  }

  lemma AttachedIsListed(s: Sys, o: Owner, id: Id, u: Upload, shared: bool, review: Review)
    ensures var after := AttachFile(s, o, id, u, shared, review);
            && FileIn(after, o, id) == Some(NewFile(id, u, shared, review))
            && Rows(after, Blob(id)) == ChunkRows(u) && OthersStand(s, after, o, id)
  {
    hide ChunkRows, NewFile;
    assert NewFile(id, u, shared, review).id == id by { NewFileIsNamed(id, u, shared, review); }
  }

  lemma NewFileIsNamed(id: Id, u: Upload, shared: bool, review: Review)
    ensures NewFile(id, u, shared, review).id == id
  {
  }

  /** An upload is listed as what it is, to be used by the board, exactly when it is within the limits. */
  lemma UploadIsListedExactlyWhen(s: Sys, o: Owner, id: Id, bytes: seq<Byte>, text: Text, shared: bool, review: Review)
    ensures var after := FileStep(s, o, Attach(id, bytes, text, shared, review));
            if 1 <= |bytes| <= 20_971_520 && |FilesIn(s, o)| < 100 && TotalSize(FilesIn(s, o)) + |bytes| <= 262_144_000
            then && FileIn(after, o, id)
                    == Some(StoredFile(id, |bytes|, Chunks(|bytes|, BYTE_CHUNK), Chunks(|text|, TEXT_CHUNK), |text|, true, shared, review))
                 && Rows(after, Blob(id)) == ChunkRows(Upload(o, bytes, text)) && OthersStand(s, after, o, id)
            else after == s
  {
    hide AttachFile, TotalSize, ChunkRows, OthersStand, Rows;
    AttachedIsListed(s, o, id, Upload(o, bytes, text), shared, review);
  }

  /** Asking stores the new review of the file, and nothing else of it changes. */
  lemma ReviewIsStored(s: Sys, o: Owner, id: Id, review: Review)
    requires FilesOk(s)
    ensures var after, file := FileStep(s, o, Ask(id, review)), FileIn(s, o, id);
            if file.Some?
            then FileIn(after, o, id) == Some(file.value.(review := review)) && OthersStand(s, after, o, id) && Rows(after, Blob(id)) == Rows(s, Blob(id))
            else after == s
  {
    assert ListOk(s, o);
    assert FileRow(id) in FilesIn(s, o) ==> EntryOk(s.uploads, o, FileRow(id), FilesIn(s, o)[FileRow(id)]);
  }

  /** A change sets the settings it names, each to the value given, and nothing else of the file changes. */
  lemma SettingsAreSet(s: Sys, o: Owner, id: Id, use: Option<bool>, share: Option<bool>)
    requires FilesOk(s)
    ensures var after, file := FileStep(s, o, Change(id, use, share)), FileIn(s, o, id);
            file.Some? ==>
              && FileIn(after, o, id).Some?
              && var changed := FileIn(after, o, id).value;
                 && (use == Some(true) ==> changed.useInBoard) && (use == Some(false) ==> !changed.useInBoard)
                 && (use == None ==> changed.useInBoard == file.value.useInBoard)
                 && (share == Some(true) ==> changed.shared) && (share == Some(false) ==> !changed.shared)
                 && (share == None ==> changed.shared == file.value.shared)
                 && changed.(useInBoard := file.value.useInBoard, shared := file.value.shared) == file.value
                 && OthersStand(s, after, o, id) && Rows(after, Blob(id)) == Rows(s, Blob(id))
    ensures FileIn(s, o, id) == None ==> FileStep(s, o, Change(id, use, share)) == s
  {
    assert ListOk(s, o);
    assert FileRow(id) in FilesIn(s, o) ==> EntryOk(s.uploads, o, FileRow(id), FilesIn(s, o)[FileRow(id)]);
  }

  /** Discarding takes the file and its chunks, and nothing else. */
  lemma DiscardedIsGone(s: Sys, o: Owner, id: Id)
    ensures var after := FileStep(s, o, Discard(id));
            if FileIn(s, o, id).Some?
            then FileIn(after, o, id) == None && Rows(after, Blob(id)) == map[] && OthersStand(s, after, o, id)
            else after == s
  {
  }
}
