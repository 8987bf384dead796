/** The document store: partitions of rows, their names, and the in-memory store of nested maps. */
module Store {
  import opened Basics
  import opened Numerals

  type Id = string
  type Token = string

  /** A token's SHA-256 hash, taken as injective: it stands for the one token it was made from. */
  datatype Digest = Digest(token: Token)

  /** What files belong to: a board question or an organisation's workspace. */
  datatype Owner = OfQuestion(id: Id) | OfWorkspace(id: Id)

  datatype Partition = Question(id: Id) | Workspace(id: Id) | Tokens | FilesOf(owner: Owner) | Blob(fileId: Id)

  datatype View = PeopleView | MixedView

  datatype Row =
    | Meta | Shadow | Challenge | Decision
    | Feedback(agent: string) | Response(personId: Id) | Synthesis(view: View) // of a question
    | Record(questionId: Id)                                                  // of a workspace
    | TokenRow(hash: Digest) | FileRow(fileId: Id) | Bytes(n: nat) | Text(n: nat)

  datatype Addr = Addr(partition: Partition, row: Row)

  // ----- Names ------------------------------------------------------------------------

  function OwnerName(o: Owner): string { match o case OfQuestion(id) => "c-" + id case OfWorkspace(id) => "w-" + id }

  function PartitionName(p: Partition): string {
    match p
    case Question(id) => "c-" + id
    case Workspace(id) => "w-" + id
    case Tokens => "tokens"
    case FilesOf(o) => "files-" + OwnerName(o)
    case Blob(id) => "blob-" + id
  }

  /** String.padStart with zeros. */
  function Padded(n: nat, width: nat): (s: string)
    ensures AllDigits(s, 10) && ParseText(s, 10) == n
  {
    ParseUndoesToText(n, 10);
    PadTo(ToText(n, 10), width)
  }

  function PadTo(s: string, width: nat): (t: string)
    requires AllDigits(s, 10)
    ensures AllDigits(t, 10) && ParseText(t, 10) == ParseText(s, 10)
    decreases width - |s|
  {
    if |s| >= width then s else
      LeadingZero(s);
      PadTo("0" + s, width)
  }

  lemma {:induction false} LeadingZero(s: string)
    requires AllDigits(s, 10)
    ensures AllDigits("0" + s, 10) && ParseText("0" + s, 10) == ParseText(s, 10)
  {
    var t := "0" + s;
    if s == "" {
      assert t[..|t| - 1] == "";
    } else {
      assert t[..|t| - 1] == "0" + s[..|s| - 1];
      LeadingZero(s[..|s| - 1]);
    }
  }

  function RowName(r: Row): string {
    match r
    case Meta => "meta"
    case Shadow => "shadow"
    case Challenge => "challenge"
    case Decision => "decision"
    case Feedback(agent) => "feedback-" + agent
    case Response(personId) => "response-" + personId
    case Synthesis(view) => if view.PeopleView? then "synthesis-people" else "synthesis-mixed"
    case Record(id) => "decision-" + id
    case TokenRow(hash) => hash.token
    case FileRow(id) => id
    case Bytes(n) => "b-" + Padded(n, 5)
    case Text(n) => "t-" + Padded(n, 3)
  }

  /** The rows each kind of partition holds. */
  predicate Fits(a: Addr) {
    match a.partition
    case Question(_) =>
      a.row.Meta? || a.row.Shadow? || a.row.Challenge? || a.row.Decision? || a.row.Feedback? || a.row.Response? || a.row.Synthesis?
    case Workspace(_) => a.row.Meta? || a.row.Record?
    case Tokens => a.row.TokenRow?
    case FilesOf(_) => a.row.FileRow?
    case Blob(_) => a.row.Bytes? || a.row.Text?
  }

  lemma AfterPrefix(prefix: string, s: string, t: string)
    requires prefix + s == prefix + t
    ensures s == t
  {
    assert s == (prefix + s)[|prefix|..] && t == (prefix + t)[|prefix|..];
  }

  lemma OwnerNamesDiffer(o: Owner, p: Owner)
    requires OwnerName(o) == OwnerName(p)
    ensures o == p
  {
    assert OwnerName(o)[0] == OwnerName(p)[0];
    AfterPrefix(OwnerName(o)[..2], o.id, p.id);
  }

  lemma PartitionNamesDiffer(p: Partition, q: Partition)
    requires PartitionName(p) == PartitionName(q)
    ensures p == q
  {
    assert PartitionName(p)[0] == PartitionName(q)[0];
    match p {
      case Question(id) => AfterPrefix("c-", id, q.id);
      case Workspace(id) => AfterPrefix("w-", id, q.id);
      case Tokens =>
      case FilesOf(o) =>
        AfterPrefix("files-", OwnerName(o), OwnerName(q.owner));
        OwnerNamesDiffer(o, q.owner);
      case Blob(id) => AfterPrefix("blob-", id, q.fileId);
    }
  }

  lemma RowNamesDiffer(a: Addr, b: Addr)
    requires Fits(a) && Fits(b) && a.partition == b.partition && RowName(a.row) == RowName(b.row)
    ensures a.row == b.row
  {
    var r, s := a.row, b.row;
    assert RowName(r) != "" ==> RowName(r)[0] == RowName(s)[0];
    match r {
      case Feedback(agent) => AfterPrefix("feedback-", agent, s.agent);
      case Response(personId) => AfterPrefix("response-", personId, s.personId);
      case Record(id) => AfterPrefix("decision-", id, s.questionId);
      case Bytes(n) => AfterPrefix("b-", Padded(n, 5), Padded(s.n, 5));
      case Text(n) => AfterPrefix("t-", Padded(n, 3), Padded(s.n, 3));
      case Shadow => assert "shadow"[1] != "synthesis-people"[1];
      case Synthesis(view) => assert |RowName(r)| == |RowName(s)|; assert "shadow"[1] != RowName(r)[1];
      case _ =>
    }
  }

  /** Two documents never share a place in the store: its two names determine the address. */
  lemma NamesDetermineAddress(a: Addr, b: Addr)
    requires Fits(a) && Fits(b)
    requires PartitionName(a.partition) == PartitionName(b.partition) && RowName(a.row) == RowName(b.row)
    ensures a == b
  {
    PartitionNamesDiffer(a.partition, b.partition);
    RowNamesDiffer(a, b);
  }

  // ----- The in-memory store --------------------------------------------------------------

  type Table<R, Doc> = map<R, Doc>
  type Tables<P, R, Doc> = map<P, Table<R, Doc>>

  /** The rows of a partition; a partition is there only while it holds rows. */
  function TableAt<P, R, Doc>(tables: Tables<P, R, Doc>, p: P): Table<R, Doc> {
    if p in tables then tables[p] else map[]
  }

  function WithTable<P(!new), R, Doc>(tables: Tables<P, R, Doc>, p: P, t: Table<R, Doc>): (after: Tables<P, R, Doc>)
    ensures forall q :: TableAt(after, q) == if q == p then t else TableAt(tables, q)
    ensures NoneEmpty(tables) ==> NoneEmpty(after)
  {
    if t == map[] then tables - {p} else tables[p := t]
  }

  predicate NoneEmpty<P, R, Doc>(tables: Tables<P, R, Doc>) { forall p | p in tables :: tables[p] != map[] }

  /** With no empty partitions kept, the rows determine the store. */
  lemma SameTables<P(!new), R, Doc>(a: Tables<P, R, Doc>, b: Tables<P, R, Doc>)
    requires NoneEmpty(a) && NoneEmpty(b) && forall p :: TableAt(a, p) == TableAt(b, p)
    ensures a == b
  {
    assert forall p :: p in a <==> TableAt(a, p) != map[];
    assert forall p :: p in b <==> TableAt(b, p) != map[];
    assert forall p | p in a :: a[p] == TableAt(a, p) == b[p];
  }

  lemma Rewritten<P(!new), R, Doc>(tables: Tables<P, R, Doc>, p: P, t: Table<R, Doc>, u: Table<R, Doc>)
    requires NoneEmpty(tables)
    ensures WithTable(WithTable(tables, p, t), p, u) == WithTable(tables, p, u)
    ensures WithTable(tables, p, TableAt(tables, p)) == tables
  {
    SameTables(WithTable(WithTable(tables, p, t), p, u), WithTable(tables, p, u));
    SameTables(WithTable(tables, p, TableAt(tables, p)), tables);
  }

  class MemoryStore<P(==,!new), R(==,!new), Doc(!new)> {
    var data: Tables<P, R, Doc>

    predicate Valid()
      reads this
    {
      NoneEmpty(data)
    }

    constructor ()
      ensures Valid() && data == map[]
    {
      data := map[];
    }

    method Get(p: P, r: R) returns (doc: Option<Doc>)
      ensures doc == At(TableAt(data, p), r)
    {
      if p in data && r in data[p] { return Some(data[p][r]); }
      return None;
    }

    method Put(p: P, r: R, doc: Doc)
      requires Valid()
      modifies this
      ensures Valid() && data == WithTable(old(data), p, TableAt(old(data), p)[r := doc])
    {
      var rows := if p in data then data[p] else map[];
      rows := rows[r := doc];
      assert r in rows;
      data := data[p := rows];
    }

    method Remove(p: P, r: R)
      requires Valid()
      modifies this
      ensures Valid() && data == WithTable(old(data), p, TableAt(old(data), p) - {r})
    {
      if p !in data {
        assert TableAt(data, p) - {r} == map[];
        return;
      }
      var rows := data[p] - {r};
      if rows == map[] { data := data - {p}; } else { data := data[p := rows]; }
    }

    method List(p: P) returns (rows: Table<R, Doc>)
      ensures rows == TableAt(data, p)
    {
      rows := if p in data then data[p] else map[];
    }

    /** Removes every row of a partition, in any order. */
    method Empty(p: P)
      requires Valid()
      modifies this
      ensures Valid() && data == WithTable(old(data), p, map[])
    {
      ghost var was := data;
      var rows := List(p);
      var left := rows.Keys;
      Rewritten(was, p, map[], map[]);
      assert rows - (rows.Keys - left) == rows;
      while left != {}
        invariant Valid() && left <= rows.Keys
        invariant data == WithTable(was, p, rows - (rows.Keys - left))
      {
        var r :| r in left;
        ghost var before := rows - (rows.Keys - left);
        Remove(p, r);
        left := left - {r};
        assert before - {r} == rows - (rows.Keys - left);
        Rewritten(was, p, before, before - {r});
      }
      assert rows - (rows.Keys - {}) == map[];
    }

    /** The documents under this row name, by partition. */
    method ListByRow(r: R) returns (found: map<P, Doc>)
      ensures forall p :: At(found, p) == At(TableAt(data, p), r)
    {
      found := map p | p in data && r in data[p] :: data[p][r];
    }
  }
}
