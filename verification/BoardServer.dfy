/** The board-question handlers as they run: rows of one store read, put and removed one after another. */
module BoardServer {
  import opened Basics
  import opened Store
  import opened Records
  import opened Files
  import opened Responses
  import opened Board
  import opened BoardInvariants
  import Tally

  // ----- Facts about removal ----------------------------------------------------------------

  /** Files are listed under their own ids. */
  predicate FilesAreNamed(t: Table<Row, Doc>) { forall r | r in t :: t[r].FileDoc? && r == FileRow(t[r].file.id) }

  lemma ListIsNamed(s: Sys, o: Owner)
    requires FilesOk(s)
    ensures FilesAreNamed(FilesIn(s, o))
  {
    assert ListOk(s, o);
    assert forall r | r in FilesIn(s, o) :: EntryOk(s.uploads, o, r, FilesIn(s, o)[r]);
  }

  lemma FilesAreListed(s: Sys, o: Owner)
    requires Inv(s)
    ensures NoneEmpty(s.tables) && FilesAreNamed(FilesIn(s, o))
  {
    ListIsNamed(s, o);
  }

  /** The index without the links of the first n people on a card. */
  function WithoutLinks(index: Table<Row, Doc>, invitees: seq<Invitee>, n: nat): Table<Row, Doc>
    requires n <= |invitees|
  {
    if n == 0 then index
    else
      var before := WithoutLinks(index, invitees, n - 1);
      if invitees[n - 1].tokenHash.Some? then before - {TokenRow(invitees[n - 1].tokenHash.value)} else before
  }

  lemma {:induction false} LinksRemoved(index: Table<Row, Doc>, invitees: seq<Invitee>, n: nat, r: Row)
    requires n <= |invitees|
    ensures At(WithoutLinks(index, invitees, n), r)
         == if exists i :: 0 <= i < n && invitees[i].tokenHash.Some? && r == TokenRow(invitees[i].tokenHash.value) then None else At(index, r)
  {
    if n > 0 { LinksRemoved(index, invitees, n - 1, r); }
  }

  /** Removing the links on a question's card removes exactly the rows that open it. */
  lemma OwnLinksRemoved(s: Sys, q: Id)
    requires Inv(s) && QuestionAt(s, q).Some?
    ensures var people := QuestionAt(s, q).value.invitees;
            WithoutLinks(Rows(s, Tokens), people, |people|) == LeftOf(s, Tokens, {OfQuestion(q)})
  {
    var people, index := QuestionAt(s, q).value.invitees, Rows(s, Tokens);
    assert AllOk(s, q);
    forall r
      ensures At(WithoutLinks(index, people, |people|), r) == At(LeftOf(s, Tokens, {OfQuestion(q)}), r)
    {
      LinksRemoved(index, people, |people|, r);
      if i :| 0 <= i < |people| && people[i].tokenHash.Some? && r == TokenRow(people[i].tokenHash.value) {
        assert Holds(people, people[i].personId, r.hash);
        assert LinksTo(index, q, people[i].personId, r.hash);
      }
      if r in index && OpensOneOf(index[r], {OfQuestion(q)}) {
        assert LinksTo(index, q, index[r].personId, r.hash);
        var i :| 0 <= i < |people| && people[i].personId == index[r].personId && people[i].tokenHash == Some(r.hash);
      }
    }
    SameEntries(WithoutLinks(index, people, |people|), LeftOf(s, Tokens, {OfQuestion(q)}));
  }

  lemma ForgetTwiceAt(s: Sys, dead: set<Owner>, more: set<Owner>, p: Partition)
    ensures Rows(Forget(Forget(s, dead), more), p) == Rows(Forget(s, dead + more), p)
  {
    SameEntries(Rows(Forget(Forget(s, dead), more), p), Rows(Forget(s, dead + more), p));
  }

  lemma ForgetTwice(s: Sys, dead: set<Owner>, more: set<Owner>)
    ensures Forget(Forget(s, dead), more) == Forget(s, dead + more)
  {
    hide LeftOf, TableAt;
    var twice, once := Forget(Forget(s, dead), more), Forget(s, dead + more);
    forall p
      ensures TableAt(twice.tables, p) == TableAt(once.tables, p)
    {
      ForgetTwiceAt(s, dead, more, p);
    }
    SameTables(twice.tables, once.tables);
  }

  lemma ForgetNone(s: Sys)
    requires NoneEmpty(s.tables)
    ensures Forget(s, {}) == s
  {
    SameTables(Forget(s, {}).tables, s.tables);
  }

  /** An owner's chunks are those of the files listed for it. */
  lemma OnlyListedChunks(s: Sys, o: Owner, id: Id)
    requires FilesOk(s)
    ensures PartitionOwner(s, Blob(id)) == Some(o) && Rows(s, Blob(id)) != map[] ==> FileRow(id) in FilesIn(s, o)
    ensures FileRow(id) in FilesIn(s, o) ==> PartitionOwner(s, Blob(id)) == Some(o)
  {
    assert BlobOk(s, id);
    assert ListOk(s, o);
    assert FileRow(id) in FilesIn(s, o) ==> EntryOk(s.uploads, o, FileRow(id), FilesIn(s, o)[FileRow(id)]);
  }

  /** What is left of a partition once these files of an owner are gone. */
  function Rest(s: Sys, o: Owner, done: set<Row>, p: Partition): Table<Row, Doc> {
    if p == FilesOf(o) then Rows(s, p) - done
    else if p.Blob? && FileRow(p.fileId) in done then map[]
    else Rows(s, p)
  }

  function WithoutFiles(s: Sys, o: Owner, done: set<Row>): (after: Sys)
    ensures forall p :: Rows(after, p) == Rest(s, o, done, p)
    ensures NoneEmpty(after.tables)
  {
    s.(tables := map p | p in s.tables && Rest(s, o, done, p) != map[] :: Rest(s, o, done, p))
  }

  lemma OneFileLessAt(s: Sys, o: Owner, done: set<Row>, id: Id, p: Partition)
    ensures Rows(DiscardFile(WithoutFiles(s, o, done), o, id), p) == Rest(s, o, done + {FileRow(id)}, p)
  {
    if p == FilesOf(o) { RemoveInTurn(Rows(s, p), done, FileRow(id)); }
  }

  lemma RemoveInTurn(t: Table<Row, Doc>, done: set<Row>, r: Row)
    ensures t - done - {r} == t - (done + {r})
  {
  }

  lemma OneFileLess(s: Sys, o: Owner, done: set<Row>, id: Id)
    ensures DiscardFile(WithoutFiles(s, o, done), o, id) == WithoutFiles(s, o, done + {FileRow(id)})
  {
    var a, b := DiscardFile(WithoutFiles(s, o, done), o, id), WithoutFiles(s, o, done + {FileRow(id)});
    forall p
      ensures Rows(a, p) == Rows(b, p)
    {
      OneFileLessAt(s, o, done, id, p);
    }
    SameTables(a.tables, b.tables);
  }

  lemma NoFileLess(s: Sys, o: Owner)
    requires NoneEmpty(s.tables)
    ensures WithoutFiles(s, o, {}) == s
  {
    assert Rows(s, FilesOf(o)) - {} == Rows(s, FilesOf(o));
    SameTables(WithoutFiles(s, o, {}).tables, s.tables);
  }

  /** Without any of an owner's files, its list and its chunks are gone and nothing else is. */
  lemma AllFilesLess(s: Sys, o: Owner, p: Partition)
    requires FilesOk(s)
    ensures var after := Rows(WithoutFiles(s, o, FilesIn(s, o).Keys), p);
            after == if (p.FilesOf? || p.Blob?) && PartitionOwner(s, p) == Some(o) then map[] else Rows(s, p)
  {
    assert FilesIn(s, o) - FilesIn(s, o).Keys == map[];
    if p.Blob? { OnlyListedChunks(s, o, p.fileId); }
  }

  /** The tables once a question's files, links and rows have been removed in turn. */
  function Purged(s: Sys, c: Consultation): Tables<Partition, Row, Doc> {
    var files := WithoutFiles(s, OfQuestion(c.id), FilesIn(s, OfQuestion(c.id)).Keys);
    var links := WithTable(files.tables, Tokens, WithoutLinks(Rows(s, Tokens), c.invitees, |c.invitees|));
    WithTable(links, Question(c.id), map[])
  }

  lemma PurgedAt(s: Sys, c: Consultation, p: Partition)
    requires Inv(s) && QuestionAt(s, c.id) == Some(c)
    ensures TableAt(Purged(s, c), p) == LeftOf(s, p, {OfQuestion(c.id)})
  {
    assert WithoutLinks(Rows(s, Tokens), c.invitees, |c.invitees|) == LeftOf(s, Tokens, {OfQuestion(c.id)}) by {
      OwnLinksRemoved(s, c.id);
    }
    AllFilesLess(s, OfQuestion(c.id), p);
  }

  /** Removing a question's files, then its links, then its rows, removes what it owns and nothing else. */
  lemma PurgedIsForgotten(s: Sys, c: Consultation)
    requires Inv(s) && QuestionAt(s, c.id) == Some(c)
    ensures s.(tables := Purged(s, c)) == Forget(s, {OfQuestion(c.id)})
  {
    hide LeftOf, TableAt;
    forall p
      ensures TableAt(Purged(s, c), p) == TableAt(Forget(s, {OfQuestion(c.id)}).tables, p)
    {
      PurgedAt(s, c, p);
      assert Rows(Forget(s, {OfQuestion(c.id)}), p) == LeftOf(s, p, {OfQuestion(c.id)});
    }
    SameTables(Purged(s, c), Forget(s, {OfQuestion(c.id)}).tables);
  }

  /** A card under the row name both kinds use is a question's, and its own question's. */
  lemma CardIsItsOwn(s: Sys, p: Partition)
    requires Inv(s)
    ensures Meta in Rows(s, p) ==> (p.Question? <==> Rows(s, p)[Meta].QuestionDoc?)
    ensures Meta in Rows(s, p) && p.Question? ==> Rows(s, p)[Meta].c.id == p.id
  {
    match p {
      case Question(q) => assert AllOk(s, q);
      case Workspace(w) => assert WorkspaceOk(Rows(s, Workspace(w)));
      case FilesOf(o) => ListIsNamed(s, o);
      case Blob(id) => assert BlobOk(s, id);
      case Tokens =>
    }
  }

  /** The expired questions among the partitions seen. */
  ghost predicate ExpiredSoFar(s: Sys, seen: set<Partition>, now: int, dead: set<Owner>) {
    && (forall o | o in dead :: o.OfQuestion?)
    && (forall q :: OfQuestion(q) in dead <==> Question(q) in seen && IsExpired(QuestionAt(s, q), now))
  }

  /** What the sweep finds in one more partition, and what it has to remove next. */
  lemma NextToSweep(s: Sys, p: Partition, doc: Doc, seen: set<Partition>, now: int, dead: set<Owner>)
    requires Inv(s) && At(Rows(s, p), Meta) == Some(doc) && p !in seen && ExpiredSoFar(s, seen, now, dead)
    ensures !(doc.QuestionDoc? && doc.c.expiresAt <= now) ==> ExpiredSoFar(s, seen + {p}, now, dead)
    ensures doc.QuestionDoc? && doc.c.expiresAt <= now ==>
      && OfQuestion(doc.c.id) !in dead && QuestionAt(Forget(s, dead), doc.c.id) == Some(doc.c)
      && ExpiredSoFar(s, seen + {p}, now, dead + {OfQuestion(doc.c.id)})
  {
    CardIsItsOwn(s, p);
  }

  lemma ExpiredInAll(s: Sys, seen: set<Partition>, now: int, dead: set<Owner>)
    requires ExpiredSoFar(s, seen, now, dead) && forall p | Meta in Rows(s, p) :: p in seen
    ensures dead == Expired(s, now)
  {
    forall o
      ensures o in dead <==> o in Expired(s, now)
    {
      if o.OfQuestion? { assert IsExpired(QuestionAt(s, o.id), now) ==> Question(o.id) in s.tables; }
    }
  }

  lemma NothingSwept(s: Sys, now: int)
    requires Inv(s)
    ensures Forget(s, {}) == s && ExpiredSoFar(s, {}, now, {})
  {
    ForgetNone(s);
  }

  /** Once all of them have been seen, what the sweep leaves is its step. */
  lemma SweptIsStep(s: Sys, seen: set<Partition>, now: int, dead: set<Owner>)
    requires Inv(s) && ExpiredSoFar(s, seen, now, dead) && forall p | Meta in Rows(s, p) :: p in seen
    ensures Forget(s, dead) == Step(s, Sweep, now) && Inv(Forget(s, dead)) && dead == Expired(s, now)
  {
    ForgetKeeps(s, dead);
    ExpiredInAll(s, seen, now, dead);
  }

  lemma InvitedIsStep(s: Sys, c: Consultation, requested: Option<set<Id>>, links: Id -> Token, invitees: seq<Invitee>, after: Tables<Partition, Row, Doc>)
    requires NoneEmpty(s.tables) && CanInvite(c)
    requires invitees == Issue(c.id, c.invitees, Rows(s, Tokens), requested, links, |c.invitees|).0
    requires var sent := WithTable(s.tables, Tokens, Issue(c.id, c.invitees, Rows(s, Tokens), requested, links, |c.invitees|).1);
             after == WithTable(sent, Question(c.id), TableAt(sent, Question(c.id))[Meta := QuestionDoc(c.(invitees := invitees))])
    ensures after == LeadStep(s, c, Invite(requested, links)).tables
  {
    InviteesAfter(c.id, c.invitees, Rows(s, Tokens), requested, links, |c.invitees|);
    InviteesAfter(c.id, c.invitees, map[], requested, links, |c.invitees|);
    assert invitees == Issue(c.id, c.invitees, map[], requested, links, |c.invitees|).0;
    SameTables(after, LeadStep(s, c, Invite(requested, links)).tables);
  }

  lemma SameRecord(c: Consultation, t: Table<Row, Doc>, after: Table<Row, Doc>, act: Act)
    requires act.Decide? && forall r: Row | !r.Meta? && !r.Decision? :: At(after, r) == At(t, r)
    ensures RecordOf(c, after, act) == RecordOf(c, t, act)
  {
    assert At(after, Shadow) == At(t, Shadow) && At(after, Row.Challenge) == At(t, Row.Challenge);
    forall p
      ensures PositionOf(after, p) == PositionOf(t, p)
    {
      assert At(after, Response(p)) == At(t, Response(p));
    }
  }

  predicate StoredBy(u: Upload, r: Row, n: nat, m: nat) { HoldsChunk(u, r) && (r.Bytes? ==> r.n < n) && (r.Text? ==> r.n < m) }

  /** The first so many chunks of an upload. */
  function SomeChunks(u: Upload, n: nat, m: nat): (t: Table<Row, Doc>)
    ensures forall r :: At(t, r) == if StoredBy(u, r, n, m) then Some(ChunkAt(u, r)) else None
  {
    map r | r in ChunkRows(u) && StoredBy(u, r, n, m) :: ChunkRows(u)[r]
  }

  lemma OneMoreStored(u: Upload, n: nat, m: nat, r: Row, n': nat, m': nat)
    requires HoldsChunk(u, r) && ((r == Bytes(n) && n' == n + 1 && m' == m) || (r == Row.Text(m) && n' == n && m' == m + 1))
    ensures SomeChunks(u, n', m') == SomeChunks(u, n, m)[r := ChunkAt(u, r)]
  {
    forall x
      ensures At(SomeChunks(u, n', m'), x) == At(SomeChunks(u, n, m)[r := ChunkAt(u, r)], x)
    {
      assert x != r ==> (StoredBy(u, x, n, m) <==> StoredBy(u, x, n', m'));
    }
    SameEntries(SomeChunks(u, n', m'), SomeChunks(u, n, m)[r := ChunkAt(u, r)]);
  }

  lemma AllStored(u: Upload)
    ensures SomeChunks(u, Chunks(|u.bytes|, BYTE_CHUNK), Chunks(|u.text|, TEXT_CHUNK)) == ChunkRows(u)
    ensures SomeChunks(u, 0, 0) == map[]
  {
    var n, m := Chunks(|u.bytes|, BYTE_CHUNK), Chunks(|u.text|, TEXT_CHUNK);
    forall r
      ensures At(SomeChunks(u, n, m), r) == At(ChunkRows(u), r)
    {
    }
    SameEntries(SomeChunks(u, n, m), ChunkRows(u));
    forall r
      ensures At(SomeChunks(u, 0, 0), r) == None
    {
    }
    SameEntries(SomeChunks(u, 0, 0), map[]);
  }

  lemma {:induction false} PartMissing(t: Table<Row, Doc>, k: nat, n: nat)
    requires k <= n && ReadBytes(t, k) == None
    ensures ReadBytes(t, n) == None
  {
    if k < n { PartMissing(t, k, n - 1); }
  }

  lemma FileIsItsOwn(s: Sys, o: Owner, id: Id)
    requires FilesOk(s)
    ensures FileIn(s, o, id).Some? ==> FileIn(s, o, id).value.id == id
  {
    assert ListOk(s, o);
    assert FileRow(id) in FilesIn(s, o) ==> EntryOk(s.uploads, o, FileRow(id), FilesIn(s, o)[FileRow(id)]);
  }

  lemma WorkspaceForgotten(s: Sys, id: Id, after: Tables<Partition, Row, Doc>)
    requires Inv(s)
    requires after == WithTable(WithoutFiles(s, OfWorkspace(id), FilesIn(s, OfWorkspace(id)).Keys).tables, Workspace(id), map[])
    ensures s.(tables := after) == Forget(s, {OfWorkspace(id)})
  {
    forall p
      ensures TableAt(after, p) == LeftOf(s, p, {OfWorkspace(id)})
    {
      AllFilesLess(s, OfWorkspace(id), p);
    }
    SameTables(after, Forget(s, {OfWorkspace(id)}).tables);
  }

  predicate IsHolder(i: Invitee, p: Id, link: Token) { i.personId == p && i.tokenHash == Some(Digest(link)) }

  /** One position for each person: the one found in the object. */
  predicate AreFound(positions: seq<Option<Tally.Position>>, invitees: seq<Invitee>, answers: Answers) {
    && |positions| == |invitees|
    && forall i | 0 <= i < |invitees| :: positions[i] == FoundPosition(LookUp(answers, invitees[i].personId))
  }

  /** Saving a decision leaves the answers, and what is made of them, as they were. */
  lemma SameAnswers(invitees: seq<Invitee>, t: Table<Row, Doc>, after: Table<Row, Doc>)
    requires forall r: Row | !r.Meta? && !r.Decision? :: At(after, r) == At(t, r)
    ensures Collect(invitees, after) == Collect(invitees, t)
  {
    forall p
      ensures At(t, Response(p)) == At(after, Response(p))
    {
      assert At(after, Response(p)) == At(t, Response(p));
    }
    CollectFrame(invitees, t, after);
  }

  /** One turn of the round of invitations. */
  lemma NextIssue(q: Id, invitees: seq<Invitee>, index: Table<Row, Doc>, requested: Option<set<Id>>, links: Id -> Token, i: nat)
    requires i < |invitees|
    ensures var (before, rows) := Issue(q, invitees, index, requested, links, i);
            var (after, next) := Issue(q, invitees, index, requested, links, i + 1);
            var p := invitees[i].personId;
            && before[i] == invitees[i]
            && after == (if Asked(requested, p) then before[i := before[i].(tokenHash := Some(Digest(links(p))))] else before)
            && next == (if Asked(requested, p) then IssueTo(q, [before[i]], rows, 0, links(p)).1 else rows)
  {
    InviteesAfter(q, invitees, index, requested, links, i);
  }

  class Server {
    const store: MemoryStore<Partition, Row, Doc>
    ghost var issued: set<Token>
    ghost var ids: set<Id>
    ghost var uploads: map<Id, Upload>

    constructor ()
      ensures fresh(store) && Now() == EMPTY && Valid()
    {
      store := new MemoryStore<Partition, Row, Doc>();
      issued, ids, uploads := {}, {}, map[];
      new;
      EmptyIsOk();
    }

    ghost function Now(): Sys
      reads this, store
    {
      Sys(store.data, issued, ids, uploads)
    }

    ghost predicate Valid()
      reads this, store
    {
      Inv(Now())
    }

    // ----- Removing files and questions --------------------------------------------------

    method DeleteFile(o: Owner, file: StoredFile)
      requires store.Valid()
      modifies store
      ensures store.Valid() && Now() == DiscardFile(old(Now()), o, file.id)
    {
      store.Empty(Blob(file.id));
      store.Remove(FilesOf(o), FileRow(file.id));
    }

    /** Every file of an owner goes, with its chunks, in any order. */
    method DeleteAllFiles(o: Owner)
      requires store.Valid() && FilesAreNamed(FilesIn(Now(), o))
      modifies store
      ensures store.Valid() && Now() == WithoutFiles(old(Now()), o, FilesIn(old(Now()), o).Keys)
    {
      ghost var was := Now();
      var files := store.List(FilesOf(o));
      var left := files.Keys;
      ghost var done: set<Row> := {};
      NoFileLess(was, o);
      while left != {}
        invariant store.Valid() && done + left == files.Keys
        invariant Now() == WithoutFiles(was, o, done)
      {
        var r :| r in left;
        DeleteListed(o, files[r].file, was, done);
        left, done := left - {r}, done + {r};
      }
    }

    /** One file less than before. */
    method DeleteListed(o: Owner, file: StoredFile, ghost was: Sys, ghost done: set<Row>)
      requires store.Valid() && Now() == WithoutFiles(was, o, done)
      modifies store
      ensures store.Valid() && Now() == WithoutFiles(was, o, done + {FileRow(file.id)})
    {
      OneFileLess(was, o, done, file.id);
      DeleteFile(o, file);
    }

    /** The links on the question's card. */
    method RemoveLinks(c: Consultation)
      requires store.Valid()
      modifies store
      ensures store.Valid()
      ensures store.data == WithTable(old(store.data), Tokens, WithoutLinks(Rows(old(Now()), Tokens), c.invitees, |c.invitees|))
    {
      ghost var was, index := store.data, Rows(Now(), Tokens);
      Rewritten(was, Tokens, map[], map[]);
      var i := 0;
      while i < |c.invitees|
        invariant i <= |c.invitees| && store.Valid()
        invariant store.data == WithTable(was, Tokens, WithoutLinks(index, c.invitees, i))
      {
        Rewritten(was, Tokens, WithoutLinks(index, c.invitees, i), WithoutLinks(index, c.invitees, i + 1));
        if c.invitees[i].tokenHash.Some? { store.Remove(Tokens, TokenRow(c.invitees[i].tokenHash.value)); }
        i := i + 1;
      }
    }

    method Purge(c: Consultation)
      requires Valid() && QuestionAt(Now(), c.id) == Some(c)
      modifies store
      ensures Valid() && Now() == Forget(old(Now()), {OfQuestion(c.id)})
    {
      hide Inv, WithoutLinks, Forget;
      ghost var was := Now();
      FilesAreListed(was, OfQuestion(c.id));
      DeleteAllFiles(OfQuestion(c.id));
      RemoveLinks(c);
      store.Empty(Question(c.id));
      PurgedIsForgotten(was, c);
      ForgetKeeps(was, {OfQuestion(c.id)});
    }

    /** Removes every expired question, in whatever order the store lists them. */
    method SweepExpired(now: int) returns (removed: nat)
      requires Valid()
      modifies store
      ensures Valid() && Now() == Step(old(Now()), Sweep, now) && removed == |Expired(old(Now()), now)|
    {
      ghost var was := Now();
      ghost var dead: set<Owner>;
      var found := store.ListByRow(Meta);
      removed, dead := SweepAll(found, now, was);
      SweptIsStep(was, found.Keys, now, dead);
    }

    /** The documents under the row name of a card, one after another. */
    method SweepAll(found: map<Partition, Doc>, now: int, ghost was: Sys) returns (removed: nat, ghost dead: set<Owner>)
      requires Inv(was) && Now() == was && forall p | p in found :: At(Rows(was, p), Meta) == Some(found[p])
      modifies store
      ensures Now() == Forget(was, dead) && ExpiredSoFar(was, found.Keys, now, dead) && removed == |dead|
    {
      hide *;
      var left := found.Keys;
      ghost var seen: set<Partition> := {};
      removed, dead := 0, {};
      NothingSwept(was, now);
      while left != {}
        invariant seen + left == found.Keys && seen !! left && removed == |dead|
        invariant Now() == Forget(was, dead) && ExpiredSoFar(was, seen, now, dead)
      {
        var p :| p in left;
        var one: nat;
        one, dead := SweepOne(p, found[p], now, was, seen, dead);
        left, seen, removed := left - {p}, seen + {p}, removed + one;
      }
      assert seen == found.Keys;
    }

    /** One document that the sweep found. */
    method SweepOne(p: Partition, doc: Doc, now: int, ghost was: Sys, ghost seen: set<Partition>, ghost dead: set<Owner>)
        returns (removed: nat, ghost after: set<Owner>)
      requires Inv(was) && At(Rows(was, p), Meta) == Some(doc) && p !in seen
      requires Now() == Forget(was, dead) && ExpiredSoFar(was, seen, now, dead)
      modifies store
      ensures Now() == Forget(was, after) && ExpiredSoFar(was, seen + {p}, now, after) && |after| == |dead| + removed
    {
      NextToSweep(was, p, doc, seen, now, dead);
      removed, after := 0, dead;
      if doc.QuestionDoc? && doc.c.expiresAt <= now {
        PurgeNext(doc.c, was, dead);
        removed, after := 1, dead + {OfQuestion(doc.c.id)};
      }
    }

    /** One more question gone. */
    method PurgeNext(c: Consultation, ghost was: Sys, ghost dead: set<Owner>)
      requires Inv(was) && Now() == Forget(was, dead) && QuestionAt(Forget(was, dead), c.id) == Some(c)
      modifies store
      ensures Now() == Forget(was, dead + {OfQuestion(c.id)})
    {
      ForgetKeeps(was, dead);
      Purge(c);
      ForgetTwice(was, dead, {OfQuestion(c.id)});
    }

    /** The question, unless it is missing or has expired; an expired one is removed. */
    method LoadConsultation(q: Id, now: int) returns (c: Option<Consultation>)
      requires Valid()
      modifies store
      ensures Valid() && Now() == Load(old(Now()), q, now) && c == QuestionAt(Now(), q)
    {
      var doc := store.Get(Question(q), Meta);
      if doc.None? || !doc.value.QuestionDoc? { return None; }
      CardIsItsOwn(Now(), Question(q));
      if doc.value.c.expiresAt <= now {
        Purge(doc.value.c);
        return None;
      }
      return Some(doc.value.c);
    }

    // ----- The lead's requests ---------------------------------------------------------------

    /** The answers of the people asked, by id in one object. */
    method ResponsesOf(c: Consultation) returns (answers: Answers)
      ensures answers == Collect(c.invitees, Rows(Now(), Question(c.id)))
    {
      ghost var t := Rows(Now(), Question(c.id));
      answers := NO_ANSWERS;
      var i := 0;
      while i < |c.invitees|
        invariant i <= |c.invitees| && answers == Collect(c.invitees[..i], t)
      {
        assert c.invitees[..i + 1][..i] == c.invitees[..i];
        var p := c.invitees[i].personId;
        var answer := store.Get(Question(c.id), Response(p));
        if answer.Some? { answers := Assigned(answers, p, answer.value); }
        i := i + 1;
      }
      assert c.invitees[..i] == c.invitees;
    }

    /** The permanent members whose ids are not among the object's keys. */
    method MissingPermanent(c: Consultation) returns (names: seq<string>)
      ensures names == NamedMissing(c.invitees, Collect(c.invitees, Rows(Now(), Question(c.id))))
    {
      var answers := ResponsesOf(c);
      names := [];
      var i := 0;
      while i < |c.invitees|
        invariant i <= |c.invitees| && names == NamedMissing(c.invitees[..i], answers)
      {
        var person := c.invitees[i];
        assert c.invitees[..i + 1][..i] == c.invitees[..i];
        if person.permanent && person.personId !in answers.own { names := names + [Label(person)]; }
        i := i + 1;
      }
      assert c.invitees[..i] == c.invitees;
    }

    /** Goes through everyone's answers, in order; None where that throws. */
    method ReadAnswers(c: Consultation, answers: Answers) returns (positions: Option<seq<Option<Tally.Position>>>)
      ensures positions.None? <==> !Reads(c.invitees, answers)
      ensures positions.Some? ==> AreFound(positions.value, c.invitees, answers)
    {
      var read: seq<Option<Tally.Position>> := [];
      var i := 0;
      while i < |c.invitees|
        invariant i <= |c.invitees| && AreFound(read, c.invitees[..i], answers)
        invariant forall k | 0 <= k < i :: LookUp(answers, c.invitees[k].personId) != Stray
      {
        var found := LookUp(answers, c.invitees[i].personId);
        if found.Stray? { return None; }
        read := read + [FoundPosition(found)];
        i := i + 1;
      }
      assert c.invitees[..i] == c.invitees;
      return Some(read);
    }

    method Close(c: Consultation)
      requires store.Valid()
      modifies store
      ensures store.Valid() && Now() == LeadStep(old(Now()), c, Act.Close)
    {
      store.Put(Question(c.id), Meta, QuestionDoc(c.(status := Closed)));
    }

    /** Each agent is asked in turn; one failed call fails the round. */
    method AskAll(agents: seq<AgentId>, replies: AgentId -> Option<Reply>) returns (opinions: Option<seq<Opinion>>)
      ensures opinions == Opinions(agents, replies)
    {
      var given: seq<Opinion> := [];
      var i := 0;
      while i < |agents|
        invariant i <= |agents| == |agents| && |given| == i
        invariant forall k | 0 <= k < i :: replies(agents[k]).Some?
        invariant forall k | 0 <= k < i ::
          given[k] == Opinion(agents[k], replies(agents[k]).value.content, replies(agents[k]).value.position)
      {
        var reply := replies(agents[i]);
        if reply.None? { return None; }
        given := given + [Opinion(agents[i], reply.value.content, reply.value.position)];
        i := i + 1;
      }
      assert given == Opinions(agents, replies).value;
      return Some(given);
    }

    method ShadowBoard(c: Consultation, replies: AgentId -> Option<Reply>)
      requires store.Valid()
      modifies store
      ensures store.Valid() && Now() == LeadStep(old(Now()), c, Convene(replies))
    {
      ghost var t := Rows(Now(), Question(c.id));
      Rewritten(store.data, Question(c.id), t, t);
      if c.mode.PeopleDecide? { return; }
      var members := AskAll(Members(c.agents), replies);
      if members.None? { return; }
      var chair := replies(CHAIR_AGENT);
      if chair.None? { return; }
      var opinions := members.value + [Opinion(CHAIR_AGENT, chair.value.content, chair.value.position)];
      Rewritten(store.data, Question(c.id), t[Shadow := BoardDoc(opinions)], t[Shadow := BoardDoc(opinions)] - {Row.Challenge});
      store.Put(Question(c.id), Shadow, BoardDoc(opinions));
      store.Remove(Question(c.id), Row.Challenge);
    }

    method ReadBoard(c: Consultation, r: Row) returns (opinions: Option<seq<Opinion>>)
      ensures opinions == BoardIn(Rows(Now(), Question(c.id)), r)
    {
      var doc := store.Get(Question(c.id), r);
      return if doc.Some? && doc.value.BoardDoc? then Some(doc.value.opinions) else None;
    }

    method ChallengeRound(c: Consultation, replies: AgentId -> Option<Reply>)
      requires store.Valid()
      modifies store
      ensures store.Valid() && Now() == LeadStep(old(Now()), c, Act.Challenge(replies))
    {
      hide Collect, Reads, Inv;
      ghost var t := Rows(Now(), Question(c.id));
      Rewritten(store.data, Question(c.id), t, t);
      if !c.mode.Collaborative? { return; }
      var shadow := ReadBoard(c, Shadow);
      var responses := ResponsesOf(c);
      if shadow.None? || responses.own == map[] { return; }
      var read := ReadAnswers(c, responses);
      if read.None? { return; }
      var opinions := AskAll(AgentsOf(shadow.value), replies);
      if opinions.None? { return; }
      store.Put(Question(c.id), Row.Challenge, BoardDoc(opinions.value));
    }

    method PutSynthesis(c: Consultation, view: View, content: Option<string>)
      requires store.Valid()
      modifies store
      ensures store.Valid() && Now() == LeadStep(old(Now()), c, Synthesise(view, content))
    {
      hide RowsAfter, Inv;
      ghost var t := Rows(Now(), Question(c.id));
      Rewritten(store.data, Question(c.id), t, t);
      var synthesis := SynthesisOf(c, view, content);
      if synthesis.Some? { store.Put(Question(c.id), Synthesis(view), synthesis.value); }
    }

    /** The synthesis, unless it is not allowed, or the answers or the model fail. */
    method SynthesisOf(c: Consultation, view: View, content: Option<string>) returns (synthesis: Option<Doc>)
      ensures var t := Rows(Now(), Question(c.id));
        RowsAfter(t, c, Synthesise(view, content)) == if synthesis.Some? then t[Synthesis(view) := synthesis.value] else t
    {
      hide Collect, Reads, Inv;
      var responses := ResponsesOf(c);
      if |responses.own| == 0 || (view.MixedView? && !c.mode.Collaborative?) { return None; }
      var shadow := ReadBoard(c, Shadow);
      if view.MixedView? && shadow.None? { return None; }
      var read := ReadAnswers(c, responses);
      if read.None? || content.None? { return None; }
      return Some(SynthesisDoc(content.value, |responses.own|));
    }

    method MakeRecord(c: Consultation, act: Act, positions: seq<Option<Tally.Position>>) returns (record: DecisionRecord)
      requires act.Decide? && |positions| == |c.invitees|
      requires forall i | 0 <= i < |c.invitees| :: positions[i] == PositionOf(Rows(Now(), Question(c.id)), c.invitees[i].personId)
      ensures record == RecordOf(c, Rows(Now(), Question(c.id)), act)
    {
      var shadow := ReadBoard(c, Shadow);
      var challenge := ReadBoard(c, Row.Challenge);
      var opinions := FinalOpinions(shadow, challenge);
      var chair := Find(opinions, CHAIR_AGENT);
      var recommendation := if chair.Some? then chair.value.content[..Min(3000, |chair.value.content|)] else "";
      record := DecisionRecord(c.id, c.mode, act.decision, act.position, PositionsOf(opinions), positions, recommendation);
    }

    /**
     * The decision closes the question; a linked workspace keeps a record, even if
     * it has been deleted, unless going through the answers throws.
     */
    method DecideQuestion(c: Consultation, act: Act)
      requires store.Valid() && act.Decide?
      modifies store
      ensures store.Valid() && Now() == LeadStep(old(Now()), c, act)
    {
      hide Collect, Reads, NamedMissing, Inv;
      ghost var t := Rows(Now(), Question(c.id));
      Rewritten(store.data, Question(c.id), t, t);
      var missing: seq<string> := [];
      if !c.mode.AgentsDecide? { missing := MissingPermanent(c); }
      if missing != [] && !act.proceed { return; }
      SaveDecision(c, Taken(act.decision, act.position, act.rationale, missing));
      if c.workspaceId.Some? { KeepRecord(c, act, t); }
    }

    method KeepRecord(c: Consultation, act: Act, ghost t: Table<Row, Doc>)
      requires store.Valid() && act.Decide? && c.workspaceId.Some?
      requires forall r: Row | !r.Meta? && !r.Decision? :: At(Rows(Now(), Question(c.id)), r) == At(t, r)
      modifies store
      ensures store.Valid()
      ensures Now() == if !Readable(c.invitees, t) then old(Now()) else
        var w := Workspace(c.workspaceId.value);
        Put(old(Now()), w, Rows(old(Now()), w)[Record(c.id) := RecordDoc(RecordOf(c, t, act))])
    {
      hide Collect, Reads, RecordOf, Inv;
      ghost var after := Rows(Now(), Question(c.id));
      var answers := ResponsesOf(c);
      SameAnswers(c.invitees, t, after);
      var positions := ReadAnswers(c, answers);
      if positions.None? { return; }
      forall i | 0 <= i < |c.invitees|
        ensures positions.value[i] == PositionOf(after, c.invitees[i].personId)
      {
        PositionsAreStored(c.invitees, after, i);
      }
      var record := MakeRecord(c, act, positions.value);
      SameRecord(c, t, after, act);
      store.Put(Workspace(c.workspaceId.value), Record(c.id), RecordDoc(record));
    }

    method SaveDecision(c: Consultation, taken: Taken)
      requires store.Valid()
      modifies store
      ensures store.Valid()
      ensures store.data == WithTable(old(store.data), Question(c.id),
        Rows(old(Now()), Question(c.id))[Decision := DecisionDoc(taken)][Meta := QuestionDoc(c.(status := Closed))])
    {
      ghost var decided := Rows(Now(), Question(c.id))[Decision := DecisionDoc(taken)];
      Rewritten(store.data, Question(c.id), decided, decided[Meta := QuestionDoc(c.(status := Closed))]);
      store.Put(Question(c.id), Decision, DecisionDoc(taken));
      store.Put(Question(c.id), Meta, QuestionDoc(c.(status := Closed)));
    }

    method RateAgent(c: Consultation, agent: AgentId, helpful: bool, note: string)
      requires store.Valid()
      modifies store
      ensures store.Valid() && Now() == LeadStep(old(Now()), c, Rate(agent, helpful, note))
    {
      Rewritten(store.data, Question(c.id), Rows(Now(), Question(c.id)), map[]);
      if agent !in c.agents { return; }
      store.Put(Question(c.id), Feedback(agent), FeedbackDoc(helpful, note));
    }

    /** New links, person by person; the card is saved once all are sent. */
    method Invitations(c: Consultation, requested: Option<set<Id>>, links: Id -> Token)
      requires store.Valid()
      modifies store, `issued
      ensures store.Valid() && Now() == LeadStep(old(Now()), c, Invite(requested, links))
    {
      if c.status != Open || c.mode.AgentsDecide? { return; }
      hide Issue, TokensAfter;
      ghost var was := Now();
      var invitees := SendLinks(c, requested, links);
      store.Put(Question(c.id), Meta, QuestionDoc(c.(invitees := invitees)));
      InvitedIsStep(was, c, requested, links, invitees, store.data);
    }

    /** The people on the card with their new links, once these are in the index. */
    method SendLinks(c: Consultation, requested: Option<set<Id>>, links: Id -> Token) returns (invitees: seq<Invitee>)
      requires store.Valid()
      modifies store, `issued
      ensures store.Valid()
      ensures var index, n := Rows(old(Now()), Tokens), |c.invitees|;
        && invitees == Issue(c.id, c.invitees, index, requested, links, n).0
        && store.data == WithTable(old(store.data), Tokens, Issue(c.id, c.invitees, index, requested, links, n).1)
        && issued == TokensAfter(old(issued), c.invitees, requested, links, n)
    {
      ghost var was, index, earlier := store.data, Rows(Now(), Tokens), issued;
      invitees := c.invitees;
      var i := 0;
      Rewritten(was, Tokens, index, index);
      while i < |c.invitees|
        invariant i <= |c.invitees| == |invitees| && store.Valid()
        invariant invitees == Issue(c.id, c.invitees, index, requested, links, i).0
        invariant store.data == WithTable(was, Tokens, Issue(c.id, c.invitees, index, requested, links, i).1)
        invariant issued == TokensAfter(earlier, c.invitees, requested, links, i)
      {
        NextIssue(c.id, c.invitees, index, requested, links, i);
        if Asked(requested, invitees[i].personId) {
          SendLink(c.id, invitees[i], links(invitees[i].personId), was, Issue(c.id, c.invitees, index, requested, links, i).1);
          issued := issued + {links(invitees[i].personId)};
          invitees := invitees[i := invitees[i].(tokenHash := Some(Digest(links(invitees[i].personId))))];
        }
        i := i + 1;
      }
    }

    /** One person's new link: the one before it, if any, stops working. */
    method SendLink(q: Id, person: Invitee, token: Token, ghost was: Tables<Partition, Row, Doc>, ghost index: Table<Row, Doc>)
      requires store.Valid() && NoneEmpty(was) && store.data == WithTable(was, Tokens, index)
      modifies store
      ensures store.Valid()
      ensures store.data == WithTable(was, Tokens, IssueTo(q, [person], index, 0, token).1)
    {
      ghost var cleared := if person.tokenHash.Some? then index - {TokenRow(person.tokenHash.value)} else index;
      Rewritten(was, Tokens, index, cleared);
      Rewritten(was, Tokens, cleared, cleared[TokenRow(Digest(token)) := TokenDoc(q, person.personId)]);
      if person.tokenHash.Some? { store.Remove(Tokens, TokenRow(person.tokenHash.value)); }
      store.Put(Tokens, TokenRow(Digest(token)), TokenDoc(q, person.personId));
    }

    // ----- Files -----------------------------------------------------------------------------

    method TotalOf(files: Table<Row, Doc>) returns (total: nat)
      ensures total == TotalSize(files)
    {
      var left := files;
      total := 0;
      while left.Keys != {}
        invariant total + TotalSize(left) == TotalSize(files)
        decreases |left.Keys|
      {
        var r :| r in left.Keys;
        TotalWithout(left, r);
        total := total + SizeOf(left[r]);
        assert (left - {r}).Keys == left.Keys - {r};
        left := left - {r};
      }
    }

    /** The bytes, chunk by chunk. */
    method StoreBytes(id: Id, u: Upload, ghost was: Tables<Partition, Row, Doc>)
      requires store.Valid() && NoneEmpty(was) && store.data == WithTable(was, Blob(id), SomeChunks(u, 0, 0))
      modifies store
      ensures store.Valid() && store.data == WithTable(was, Blob(id), SomeChunks(u, Chunks(|u.bytes|, BYTE_CHUNK), 0))
    {
      var n := 0;
      while n < Chunks(|u.bytes|, BYTE_CHUNK)
        invariant n <= Chunks(|u.bytes|, BYTE_CHUNK) && store.Valid()
        invariant store.data == WithTable(was, Blob(id), SomeChunks(u, n, 0))
      {
        OneMoreStored(u, n, 0, Bytes(n), n + 1, 0);
        Rewritten(was, Blob(id), SomeChunks(u, n, 0), SomeChunks(u, n + 1, 0));
        store.Put(Blob(id), Bytes(n), BytesDoc(Chunk(u.bytes, n, BYTE_CHUNK)));
        n := n + 1;
      }
    }

    /** The text, chunk by chunk, after the bytes. */
    method StoreText(id: Id, u: Upload, ghost was: Tables<Partition, Row, Doc>, ghost n: nat)
      requires store.Valid() && NoneEmpty(was) && store.data == WithTable(was, Blob(id), SomeChunks(u, n, 0))
      modifies store
      ensures store.Valid() && store.data == WithTable(was, Blob(id), SomeChunks(u, n, Chunks(|u.text|, TEXT_CHUNK)))
    {
      var m := 0;
      while m < Chunks(|u.text|, TEXT_CHUNK)
        invariant m <= Chunks(|u.text|, TEXT_CHUNK) && store.Valid()
        invariant store.data == WithTable(was, Blob(id), SomeChunks(u, n, m))
      {
        OneMoreStored(u, n, m, Row.Text(m), n, m + 1);
        Rewritten(was, Blob(id), SomeChunks(u, n, m), SomeChunks(u, n, m + 1));
        store.Put(Blob(id), Row.Text(m), TextDoc(Chunk(u.text, m, TEXT_CHUNK)));
        m := m + 1;
      }
    }

    method StoreChunks(id: Id, u: Upload)
      requires store.Valid() && Rows(Now(), Blob(id)) == map[]
      modifies store
      ensures store.Valid() && store.data == WithTable(old(store.data), Blob(id), ChunkRows(u))
    {
      ghost var was := store.data;
      AllStored(u);
      Rewritten(was, Blob(id), map[], map[]);
      StoreBytes(id, u, was);
      StoreText(id, u, was, Chunks(|u.bytes|, BYTE_CHUNK));
    }

    method SaveMeta(o: Owner, file: StoredFile)
      requires store.Valid()
      modifies store
      ensures store.Valid() && Now() == SaveFile(old(Now()), o, file)
    {
      store.Put(FilesOf(o), FileRow(file.id), FileDoc(file));
    }

    method GetFile(o: Owner, id: Id) returns (file: Option<StoredFile>)
      ensures file == FileIn(Now(), o, id)
    {
      var doc := store.Get(FilesOf(o), FileRow(id));
      return if doc.Some? && doc.value.FileDoc? then Some(doc.value.file) else None;
    }

    method HandleUpload(o: Owner, id: Id, bytes: seq<Byte>, text: Text, shared: bool, review: Review)
      requires Valid() && id !in uploads
      modifies store, `uploads
      ensures store.Valid() && Now() == FileStep(old(Now()), o, Attach(id, bytes, text, shared, review))
    {
      if |bytes| > MAX_FILE_BYTES || |bytes| == 0 { return; }
      var existing := store.List(FilesOf(o));
      if |existing| >= MAX_FILES { return; }
      var total := TotalOf(existing);
      if total + |bytes| > MAX_OWNER_BYTES { return; }
      var u := Upload(o, bytes, text);
      assert BlobOk(Now(), id);
      StoreChunks(id, u);
      uploads := uploads[id := u];
      SaveMeta(o, NewFile(id, u, shared, review));
    }

    method HandleFile(o: Owner, act: FileAct)
      requires Valid() && FileFresh(Now(), act)
      modifies store, `uploads
      ensures store.Valid() && Now() == FileStep(old(Now()), o, act)
    {
      match act {
        case Attach(id, bytes, text, shared, review) => HandleUpload(o, id, bytes, text, shared, review);
        case Ask(id, review) =>
          var file := GetFile(o, id);
          if file.Some? { SaveMeta(o, file.value.(review := review)); }
        case Change(id, useInBoard, share) =>
          var file := GetFile(o, id);
          if file.Some? {
            var changed := file.value;
            if useInBoard.Some? { changed := changed.(useInBoard := useInBoard.value); }
            if share.Some? { changed := changed.(shared := share.value); }
            SaveMeta(o, changed);
          }
        case Discard(id) =>
          var file := GetFile(o, id);
          FileIsItsOwn(Now(), o, id);
          if file.Some? { DeleteFile(o, file.value); }
      }
    }

    /** The file as it was uploaded: no part of a listed file is ever missing. */
    method OpenFile(o: Owner, id: Id) returns (bytes: Option<seq<Byte>>, text: Text)
      requires Valid()
      ensures FileIn(Now(), o, id).None? <==> bytes.None?
      ensures FileIn(Now(), o, id).Some? ==> id in uploads && bytes == Some(uploads[id].bytes) && text == uploads[id].text
    {
      var file := GetFile(o, id);
      if file.None? { return None, []; }
      ListedFileIsWhole(Now(), o, id);
      FileIsItsOwn(Now(), o, id);
      bytes := ReadFileBytes(file.value);
      text := ReadFileText(file.value);
    }

    method ReadFileBytes(file: StoredFile) returns (bytes: Option<seq<Byte>>)
      ensures bytes == ReadBytes(Rows(Now(), Blob(file.id)), file.byteChunks)
    {
      ghost var t := Rows(Now(), Blob(file.id));
      var parts: seq<Byte> := [];
      var n := 0;
      while n < file.byteChunks
        invariant n <= file.byteChunks && ReadBytes(t, n) == Some(parts)
      {
        var row := store.Get(Blob(file.id), Bytes(n));
        if row.None? || !row.value.BytesDoc? {
          PartMissing(t, n + 1, file.byteChunks);
          return None;
        }
        parts := parts + row.value.d;
        n := n + 1;
      }
      return Some(parts);
    }

    method ReadFileText(file: StoredFile) returns (text: Text)
      ensures text == ReadText(Rows(Now(), Blob(file.id)), file.textChunks)
    {
      ghost var t := Rows(Now(), Blob(file.id));
      text := [];
      var n := 0;
      while n < file.textChunks
        invariant n <= file.textChunks && ReadText(t, n) == text
      {
        var row := store.Get(Blob(file.id), Row.Text(n));
        text := text + if row.Some? && row.value.TextDoc? then row.value.t else [];
        n := n + 1;
      }
    }

    // ----- Requests --------------------------------------------------------------------------

    method DeleteWorkspace(id: Id)
      requires Valid()
      modifies store
      ensures store.Valid() && Now() == Forget(old(Now()), {OfWorkspace(id)})
    {
      ghost var was := Now();
      ListIsNamed(was, OfWorkspace(id));
      DeleteAllFiles(OfWorkspace(id));
      store.Empty(Workspace(id));
      WorkspaceForgotten(was, id, store.data);
    }

    method AuthorisedWorkspace(id: Id, token: Token) returns (ok: bool)
      ensures ok <==> Authorised(Now(), id, token)
    {
      var doc := store.Get(Workspace(id), Meta);
      ok := doc.Some? && doc.value.WorkspaceDoc? && Matches(token, doc.value.adminTokenHash);
    }

    method CreateQuestion(d: Draft, now: int)
      requires Valid() && d.id !in ids
      modifies store, `ids
      ensures store.Valid() && Now() == Step(old(Now()), Create(d), now)
    {
      var linked := true;
      if d.link.Some? { linked := AuthorisedWorkspace(d.link.value.0, d.link.value.1); }
      var people := d.people;
      if d.mode.AgentsDecide? { people := []; }
      if (d.agents.Some? && exists a | a in d.agents.value :: a !in AGENT_IDS) || !(0 <= d.peopleWeight <= 100) || !linked
        || (!d.mode.AgentsDecide? && !PeopleOk(people)) {
        return;
      }
      store.Put(Question(d.id), Meta, QuestionDoc(NewQuestion(d, now)));
      ids := ids + {d.id};
    }

    method LeadRequest(c: Consultation, act: Act)
      requires Valid() && QuestionAt(Now(), c.id) == Some(c) && ActFresh(Now(), act)
      modifies this, store
      ensures Valid() && Now() == LeadStep(old(Now()), c, act)
    {
      LeadStepKeeps(Now(), c, act);
      assert AllOk(Now(), c.id);
      Rewritten(store.data, Question(c.id), map[], map[]);
      match act {
        case Read =>
        case Invite(requested, links) => Invitations(c, requested, links);
        case Close => Close(c);
        case Delete => Purge(c);
        case Convene(replies) => ShadowBoard(c, replies);
        case Challenge(replies) => ChallengeRound(c, replies);
        case Synthesise(view, content) => PutSynthesis(c, view, content);
        case Decide(_, _, _, _) => DecideQuestion(c, act);
        case Rate(agent, helpful, note) => RateAgent(c, agent, helpful, note);
        case OnFile(file) => HandleFile(OfQuestion(c.id), file);
      }
    }

    /** The question and person a link opens for, once an expired question has been removed. */
    method ResolveInvite(link: Token, now: int) returns (found: Option<(Consultation, Id)>)
      requires Valid()
      modifies store
      ensures Valid() && Now() == LoadLink(old(Now()), link, now)
      ensures found.Some? <==> Target(old(Now()), link).Some? && Resolve(Now(), link).Some?
      ensures found.Some? ==> var (q, p) := Resolve(Now(), link).value; QuestionAt(Now(), q) == Some(found.value.0) && found.value.1 == p
    {
      var row := store.Get(Tokens, TokenRow(Digest(link)));
      if row.None? || !row.value.TokenDoc? { return None; }
      var c := LoadConsultation(row.value.consultationId, now);
      if c.None? { return None; }
      var i := 0;
      while i < |c.value.invitees|
        invariant i <= |c.value.invitees|
        invariant forall k | 0 <= k < i :: !IsHolder(c.value.invitees[k], row.value.personId, link)
      {
        if IsHolder(c.value.invitees[i], row.value.personId, link) { return Some((c.value, row.value.personId)); }
        i := i + 1;
      }
      return None;
    }

    method Respond(link: Token, position: Option<Tally.Position>, answers: seq<string>, now: int)
      requires Valid()
      modifies store
      ensures store.Valid() && Now() == Step(old(Now()), Answer(link, position, answers), now)
    {
      var found := ResolveInvite(link, now);
      if found.None? { return; }
      var (c, p) := found.value;
      ResolvedIsAsked(Now(), link);
      if c.status != Open { return; }
      store.Put(Question(c.id), Response(p), ResponseDoc(position, answers));
    }

    /** Each request does what its step says, and keeps the invariant. */
    method Handle(r: Request, now: int)
      requires Valid() && Fresh(Now(), r)
      modifies this, store
      ensures Valid() && Now() == Step(old(Now()), r, now)
    {
      StepKeeps(Now(), r, now);
      match r {
        case Create(d) => CreateQuestion(d, now);
        case Lead(q, token, act) =>
          var c := LoadConsultation(q, now);
          if c.Some? && Matches(token, c.value.adminTokenHash) {
            assert AllOk(Now(), q);
            LeadRequest(c.value, act);
          }
        case FollowLink(link) => var _ := ResolveInvite(link, now);
        case Answer(link, position, answers) => Respond(link, position, answers, now);
        case Sweep => var _ := SweepExpired(now);
        case OpenWorkspace(id, token) => store.Put(Workspace(id), Meta, WorkspaceDoc(Digest(token)));
        case WorkspaceFile(id, token, file) =>
          var ok := AuthorisedWorkspace(id, token);
          if ok { HandleFile(OfWorkspace(id), file); }
        case CloseWorkspace(id, token) =>
          var ok := AuthorisedWorkspace(id, token);
          if ok { DeleteWorkspace(id); }
      }
    }
  }
}
