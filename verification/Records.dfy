/** The documents of the board-question server and who owns each of them. */
module Records {
  import opened Basics
  import opened Store
  import Tally

  type AgentId = string

  const AGENT_IDS: seq<AgentId> := ["orion", "grimm", "solara", "zephyr", "mira", "aquila"]
  const CHAIR_AGENT: AgentId := "aquila"

  datatype Mode = PeopleDecide | AgentsDecide | Collaborative

  datatype Status = Open | Closed

  datatype Invitee = Invitee(personId: Id, name: string, role: string, permanent: bool, tokenHash: Option<Digest>)

  datatype Consultation = Consultation(
    id: Id, expiresAt: int, status: Status, agents: seq<AgentId>, adminTokenHash: Digest, invitees: seq<Invitee>,
    mode: Mode, peopleWeight: int, shareWithPeople: bool, workspaceId: Option<Id>)

  datatype Opinion = Opinion(agentId: AgentId, content: string, position: Option<Tally.Position>)

  datatype Taken = Taken(decision: string, position: Tally.Position, rationale: string, withoutPermanent: seq<string>)

  /** What the workspace keeps of a decision. */
  datatype DecisionRecord = DecisionRecord(
    consultationId: Id, mode: Mode, decision: string, position: Tally.Position,
    agentPositions: map<AgentId, Option<Tally.Position>>, peoplePositions: seq<Option<Tally.Position>>, recommendation: string)

  /** Status, note, digest and answers: whatever Sentinel made of the file. */
  datatype Review = Review(done: bool, note: string, digest: string, answers: seq<string>)

  datatype StoredFile = StoredFile(
    id: Id, size: nat, byteChunks: nat, textChunks: nat, textChars: nat, useInBoard: bool, shared: bool, review: Review)

  datatype Doc =
    | QuestionDoc(c: Consultation) | WorkspaceDoc(adminTokenHash: Digest)
    | BoardDoc(opinions: seq<Opinion>)
    | DecisionDoc(taken: Taken)
    | FeedbackDoc(helpful: bool, note: string)
    | ResponseDoc(position: Option<Tally.Position>, answers: seq<string>)
    | SynthesisDoc(content: string, responses: nat)
    | RecordDoc(record: DecisionRecord)
    | TokenDoc(consultationId: Id, personId: Id)
    | FileDoc(file: StoredFile) | BytesDoc(d: seq<Byte>) | TextDoc(t: Text)


  // ----- The system ----------------------------------------------------------------------

  datatype Upload = Upload(owner: Owner, bytes: seq<Byte>, text: Text)

  /**
   * The stored rows by partition, and a history no handler reads: the tokens issued to people,
   * the question ids used, and every file ever uploaded.
   */
  datatype Sys = Sys(tables: Tables<Partition, Row, Doc>, issued: set<Token>, ids: set<Id>, uploads: map<Id, Upload>)

  const EMPTY := Sys(map[], {}, {}, map[])

  function Rows(s: Sys, p: Partition): Table<Row, Doc> { TableAt(s.tables, p) }

  function Put(s: Sys, p: Partition, t: Table<Row, Doc>): (after: Sys)
    ensures forall q :: Rows(after, q) == if q == p then t else Rows(s, q)
  {
    s.(tables := WithTable(s.tables, p, t))
  }

  // ----- Ownership -------------------------------------------------------------------------

  /**
   * The question or workspace a partition belongs to: chunks belong to whoever
   * their file was uploaded for, and the token index to no one as a whole.
   */
  function PartitionOwner(s: Sys, p: Partition): Option<Owner> {
    match p
    case Question(q) => Some(OfQuestion(q))
    case Workspace(w) => Some(OfWorkspace(w))
    case Tokens => None
    case FilesOf(o) => Some(o)
    case Blob(f) => if f in s.uploads then Some(s.uploads[f].owner) else None
  }

  predicate IsOneOf(o: Option<Owner>, dead: set<Owner>) { o.Some? && o.value in dead }

  /** An invitation belongs to the question it opens. */
  predicate OpensOneOf(d: Doc, dead: set<Owner>) { d.TokenDoc? && OfQuestion(d.consultationId) in dead }

  /** What is left of a partition once these owners and all they own have gone. */
  function LeftOf(s: Sys, p: Partition, dead: set<Owner>): Table<Row, Doc> {
    if IsOneOf(PartitionOwner(s, p), dead) then map[]
    else if p == Tokens then (map r | r in Rows(s, p) && !OpensOneOf(Rows(s, p)[r], dead) :: Rows(s, p)[r])
    else Rows(s, p)
  }

  /** The system without everything these owners own. */
  function Forget(s: Sys, dead: set<Owner>): (after: Sys)
    ensures forall p :: Rows(after, p) == LeftOf(s, p, dead)
    ensures NoneEmpty(after.tables)
  {
    s.(tables := map p | p in s.tables && LeftOf(s, p, dead) != map[] :: LeftOf(s, p, dead))
  }
}
