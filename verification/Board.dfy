/**
 * Board questions: create, invite, answer, shadow board, challenge, synthesis,
 * decision, feedback, files, deletion and expiry, one request at a time.
 *
 * Model replies are arguments (None for a failed call), new ids and tokens are
 * drawn fresh, and a request whose fields are refused does no more than a Read.
 * What a handler has stored before it throws stays stored.
 */
module Board {
  import opened Basics
  import opened Store
  import opened Records
  import opened Files
  import opened Responses
  import Tally

  const MAX_PEOPLE := 20

  // ----- Reading a question's rows -----------------------------------------------------

  function QuestionIn(t: Table<Row, Doc>): Option<Consultation> {
    if Meta in t && t[Meta].QuestionDoc? then Some(t[Meta].c) else None
  }

  function QuestionAt(s: Sys, q: Id): Option<Consultation> { QuestionIn(Rows(s, Question(q))) }

  function BoardIn(t: Table<Row, Doc>, r: Row): Option<seq<Opinion>> {
    if r in t && t[r].BoardDoc? then Some(t[r].opinions) else None
  }

  // ----- The agents -----------------------------------------------------------------------

  datatype Reply = Reply(content: string, position: Option<Tally.Position>)

  function AgentsOf(opinions: seq<Opinion>): seq<AgentId> { seq(|opinions|, i requires 0 <= i < |opinions| => opinions[i].agentId) }

  /** AGENT_IDS.filter: the chair always sits. */
  function Seated(all: seq<AgentId>, asked: seq<AgentId>): seq<AgentId> {
    if all == [] then [] else (if all[0] == CHAIR_AGENT || all[0] in asked then [all[0]] else []) + Seated(all[1..], asked)
  }

  function Members(agents: seq<AgentId>): seq<AgentId> {
    if agents == [] then [] else (if agents[0] != CHAIR_AGENT then [agents[0]] else []) + Members(agents[1..])
  }

  /** One opinion each, unless a call fails. */
  function Opinions(agents: seq<AgentId>, replies: AgentId -> Option<Reply>): Option<seq<Opinion>> {
    if exists i :: 0 <= i < |agents| && replies(agents[i]).None? then None
    else Some(seq(|agents|, i requires 0 <= i < |agents| =>
      Opinion(agents[i], replies(agents[i]).value.content, replies(agents[i]).value.position)))
  }

  /** The members give their opinions and the chair, having heard them, the last. */
  function FirstRound(agents: seq<AgentId>, replies: AgentId -> Option<Reply>): Option<seq<Opinion>> {
    var members := Opinions(Members(agents), replies);
    var chair := replies(CHAIR_AGENT);
    if members.None? || chair.None? then None
    else Some(members.value + [Opinion(CHAIR_AGENT, chair.value.content, chair.value.position)])
  }

  function Find(opinions: seq<Opinion>, agent: AgentId): Option<Opinion> {
    if opinions == [] then None else if opinions[0].agentId == agent then Some(opinions[0]) else Find(opinions[1..], agent)
  }

  function Latest(first: Opinion, challenge: seq<Opinion>): Opinion {
    var later := Find(challenge, first.agentId);
    if later.Some? then later.value else first
  }

  /** Each agent as it stands in the end: what it said in the challenge round, if there is one, otherwise in the first. */
  function FinalOpinions(shadow: Option<seq<Opinion>>, challenge: Option<seq<Opinion>>): seq<Opinion> {
    if shadow.None? then []
    else if challenge.None? then shadow.value
    else seq(|shadow.value|, i requires 0 <= i < |shadow.value| => Latest(shadow.value[i], challenge.value))
  }

  /** Object.fromEntries over the opinions. */
  function PositionsOf(opinions: seq<Opinion>): map<AgentId, Option<Tally.Position>> {
    if opinions == [] then map[]
    else
      var last := opinions[|opinions| - 1];
      PositionsOf(opinions[..|opinions| - 1])[last.agentId := last.position]
  }

  // ----- The lead's requests ------------------------------------------------------------------

  datatype Act =
    | Read
    | Invite(requested: Option<set<Id>>, links: Id -> Token) // the token drawn for each person
    | Close
    | Delete
    | Convene(replies: AgentId -> Option<Reply>)
    | Challenge(replies: AgentId -> Option<Reply>)
    | Synthesise(view: View, content: Option<string>)
    | Decide(decision: string, position: Tally.Position, rationale: string, proceed: bool)
    | Rate(agent: AgentId, helpful: bool, note: string)
    | OnFile(file: FileAct)

  predicate Asked(requested: Option<set<Id>>, p: Id) { requested.None? || p in requested.value }

  /** One new link: it replaces any earlier one of this person. */
  function IssueTo(q: Id, invitees: seq<Invitee>, index: Table<Row, Doc>, i: nat, token: Token): (seq<Invitee>, Table<Row, Doc>)
    requires i < |invitees|
  {
    var person := invitees[i];
    var cleared := if person.tokenHash.Some? then index - {TokenRow(person.tokenHash.value)} else index;
    (invitees[i := person.(tokenHash := Some(Digest(token)))],
     cleared[TokenRow(Digest(token)) := TokenDoc(q, person.personId)])
  }

  function Issued(i: Invitee, requested: Option<set<Id>>, links: Id -> Token): Invitee {
    if Asked(requested, i.personId) then i.(tokenHash := Some(Digest(links(i.personId)))) else i
  }

  /** New links for those asked among the first n. */
  function Issue(q: Id, invitees: seq<Invitee>, index: Table<Row, Doc>, requested: Option<set<Id>>, links: Id -> Token, n: nat)
      : (r: (seq<Invitee>, Table<Row, Doc>))
    requires n <= |invitees|
    ensures |r.0| == |invitees|
  {
    if n == 0 then (invitees, index)
    else
      var (before, rows) := Issue(q, invitees, index, requested, links, n - 1);
      if Asked(requested, invitees[n - 1].personId) then IssueTo(q, before, rows, n - 1, links(invitees[n - 1].personId))
      else (before, rows)
  }

  predicate CanInvite(c: Consultation) { c.status.Open? && !c.mode.AgentsDecide? }

  /** The permanent members the decision lists as those it would be taken without. */
  function ListedFor(c: Consultation, t: Table<Row, Doc>): seq<string> {
    if c.mode.AgentsDecide? then [] else NamedMissing(c.invitees, Collect(c.invitees, t))
  }

  predicate CanDecide(c: Consultation, t: Table<Row, Doc>, act: Act)
    requires act.Decide?
  {
    ListedFor(c, t) == [] || act.proceed
  }

  /** What a request leaves in the question's own rows. */
  function RowsAfter(t: Table<Row, Doc>, c: Consultation, act: Act): Table<Row, Doc> {
    match act
    case Read | OnFile(_) => t
    case Invite(requested, links) =>
      if CanInvite(c) then t[Meta := QuestionDoc(c.(invitees := Issue(c.id, c.invitees, map[], requested, links, |c.invitees|).0))] else t
    case Close => t[Meta := QuestionDoc(c.(status := Closed))]
    case Delete => map[]
    case Convene(replies) =>
      var opinions := FirstRound(c.agents, replies);
      if c.mode.PeopleDecide? || opinions.None? then t else t[Shadow := BoardDoc(opinions.value)] - {Row.Challenge}
    case Challenge(replies) =>
      var shadow := BoardIn(t, Shadow);
      if !c.mode.Collaborative? || shadow.None? || Collect(c.invitees, t).own == map[] || !Readable(c.invitees, t) then t
      else
        var opinions := Opinions(AgentsOf(shadow.value), replies);
        if opinions.None? then t else t[Row.Challenge := BoardDoc(opinions.value)]
    case Synthesise(view, content) =>
      var count := |Collect(c.invitees, t).own|;
      if count == 0 || (view.MixedView? && (!c.mode.Collaborative? || BoardIn(t, Shadow).None?)) then t
      else if !Readable(c.invitees, t) || content.None? then t
      else t[Synthesis(view) := SynthesisDoc(content.value, count)]
    case Decide(decision, position, rationale, _) =>
      if CanDecide(c, t, act)
      then t[Decision := DecisionDoc(Taken(decision, position, rationale, ListedFor(c, t)))][Meta := QuestionDoc(c.(status := Closed))]
      else t
    case Rate(agent, helpful, note) => if agent in c.agents then t[Feedback(agent) := FeedbackDoc(helpful, note)] else t
  }

  /** The decision as the workspace keeps it. */
  function RecordOf(c: Consultation, t: Table<Row, Doc>, act: Act): DecisionRecord
    requires act.Decide?
  {
    var opinions := FinalOpinions(BoardIn(t, Shadow), BoardIn(t, Row.Challenge));
    var chair := Find(opinions, CHAIR_AGENT);
    DecisionRecord(c.id, c.mode, act.decision, act.position, PositionsOf(opinions),
                   seq(|c.invitees|, i requires 0 <= i < |c.invitees| => PositionOf(t, c.invitees[i].personId)),
                   if chair.Some? then chair.value.content[..Min(3000, |chair.value.content|)] else "")
  }

  /** The tokens issued once those asked among the first n have their links. */
  function TokensAfter(issued: set<Token>, invitees: seq<Invitee>, requested: Option<set<Id>>, links: Id -> Token, n: nat): set<Token>
    requires n <= |invitees|
  {
    if n == 0 then issued
    else
      var before := TokensAfter(issued, invitees, requested, links, n - 1);
      if Asked(requested, invitees[n - 1].personId) then before + {links(invitees[n - 1].personId)} else before
  }

  ghost function LeadStep(s: Sys, c: Consultation, act: Act): Sys {
    var t := Rows(s, Question(c.id));
    var next := Put(s, Question(c.id), RowsAfter(t, c, act));
    match act
    case Delete => Forget(s, {OfQuestion(c.id)})
    case OnFile(file) => FileStep(s, OfQuestion(c.id), file)
    case Invite(requested, links) =>
      if CanInvite(c)
      then Put(next, Tokens, Issue(c.id, c.invitees, Rows(s, Tokens), requested, links, |c.invitees|).1).(
        issued := TokensAfter(s.issued, c.invitees, requested, links, |c.invitees|))
      else s
    case Decide(_, _, _, _) =>
      if CanDecide(c, t, act) && c.workspaceId.Some? && Readable(c.invitees, t)
      then Put(next, Workspace(c.workspaceId.value), Rows(s, Workspace(c.workspaceId.value))[Record(c.id) := RecordDoc(RecordOf(c, t, act))])
      else next
    case _ => next
  }

  // ----- Every request ----------------------------------------------------------------------------

  datatype Person = Person(id: Id, name: string, role: string, permanent: bool)

  datatype Draft = Draft(
    id: Id, adminToken: Token, keptFor: nat, agents: Option<seq<AgentId>>, mode: Mode, peopleWeight: int, shareWithPeople: bool,
    link: Option<(Id, Token)>, people: seq<Person>)

  datatype Request =
    | Create(draft: Draft)
    | Lead(question: Id, token: Token, act: Act)
    | FollowLink(link: Token)
    | Answer(link: Token, position: Option<Tally.Position>, answers: seq<string>)
    | Sweep
    | OpenWorkspace(id: Id, token: Token)
    | WorkspaceFile(id: Id, token: Token, file: FileAct)
    | CloseWorkspace(id: Id, token: Token)

  function WorkspaceHash(s: Sys, id: Id): Option<Digest> {
    var t := Rows(s, Workspace(id));
    if Meta in t && t[Meta].WorkspaceDoc? then Some(t[Meta].adminTokenHash) else None
  }

  /** tokenMatches: the empty token never does. */
  predicate Matches(token: Token, hash: Digest) { token != "" && Digest(token) == hash }

  predicate Authorised(s: Sys, id: Id, token: Token) { WorkspaceHash(s, id).Some? && Matches(token, WorkspaceHash(s, id).value) }

  predicate DraftOk(s: Sys, d: Draft) {
    && (d.agents.Some? ==> forall a | a in d.agents.value :: a in AGENT_IDS)
    && 0 <= d.peopleWeight <= 100
    && (d.link.Some? ==> Authorised(s, d.link.value.0, d.link.value.1))
    && (!d.mode.AgentsDecide? ==> PeopleOk(d.people))
  }

  predicate PeopleOk(people: seq<Person>) {
    0 < |people| <= MAX_PEOPLE && forall i, j | 0 <= i < j < |people| :: people[i].id != people[j].id
  }

  function ToInvite(people: seq<Person>): (invitees: seq<Invitee>)
    ensures |invitees| == |people|
    ensures forall i | 0 <= i < |people| :: invitees[i].personId == people[i].id && invitees[i].tokenHash == None
  {
    seq(|people|, i requires 0 <= i < |people| => Invitee(people[i].id, people[i].name, people[i].role, people[i].permanent, None))
  }

  function NewQuestion(d: Draft, now: int): Consultation {
    Consultation(
      d.id, now + d.keptFor, Open, Seated(AGENT_IDS, if d.agents.Some? then d.agents.value else AGENT_IDS), Digest(d.adminToken),
      if d.mode.AgentsDecide? then [] else ToInvite(d.people), d.mode,
      if d.mode.Collaborative? then d.peopleWeight else if d.mode.PeopleDecide? then 100 else 0,
      d.mode.Collaborative? && d.shareWithPeople, if d.link.Some? then Some(d.link.value.0) else None)
  }

  predicate IsExpired(c: Option<Consultation>, now: int) { c.Some? && c.value.expiresAt <= now }

  /** loadConsultation: an expired question is removed when it is next looked up. */
  function Load(s: Sys, q: Id, now: int): Sys {
    if IsExpired(QuestionAt(s, q), now) then Forget(s, {OfQuestion(q)}) else s
  }

  function Expired(s: Sys, now: int): set<Owner> {
    set p | p in s.tables && p.Question? && IsExpired(QuestionAt(s, p.id), now) :: OfQuestion(p.id)
  }

  /** Where a link's row in the token index points. */
  function Target(s: Sys, link: Token): Option<Doc> {
    var d := At(Rows(s, Tokens), TokenRow(Digest(link)));
    if d.Some? && d.value.TokenDoc? then d else None
  }

  predicate HoldsLink(c: Consultation, p: Id, link: Token) {
    exists i :: 0 <= i < |c.invitees| && c.invitees[i].personId == p && c.invitees[i].tokenHash == Some(Digest(link))
  }

  /** resolveInvite: the question and person a link opens for. */
  function Resolve(s: Sys, link: Token): Option<(Id, Id)> {
    var d := Target(s, link);
    if d.None? then None
    else
      var c := QuestionAt(s, d.value.consultationId);
      if c.Some? && HoldsLink(c.value, d.value.personId, link) then Some((d.value.consultationId, d.value.personId)) else None
  }

  function LoadLink(s: Sys, link: Token, now: int): Sys {
    if Target(s, link).Some? then Load(s, Target(s, link).value.consultationId, now) else s
  }

  ghost function Step(s: Sys, r: Request, now: int): Sys {
    match r
    case Create(d) =>
      if DraftOk(s, d) then Put(s, Question(d.id), Rows(s, Question(d.id))[Meta := QuestionDoc(NewQuestion(d, now))]).(ids := s.ids + {d.id}) else s
    case Lead(q, token, act) =>
      var loaded := Load(s, q, now);
      var c := QuestionAt(loaded, q);
      if c.Some? && Matches(token, c.value.adminTokenHash) then LeadStep(loaded, c.value, act) else loaded
    case FollowLink(link) => LoadLink(s, link, now)
    case Answer(link, position, answers) =>
      var loaded := LoadLink(s, link, now);
      var found := if Target(s, link).Some? then Resolve(loaded, link) else None;
      if found.Some? && QuestionAt(loaded, found.value.0).value.status.Open?
      then Put(loaded, Question(found.value.0), Rows(loaded, Question(found.value.0))[Response(found.value.1) := ResponseDoc(position, answers)])
      else loaded
    case Sweep => Forget(s, Expired(s, now))
    case OpenWorkspace(id, token) => Put(s, Workspace(id), Rows(s, Workspace(id))[Meta := WorkspaceDoc(Digest(token))])
    case WorkspaceFile(id, token, file) => if Authorised(s, id, token) then FileStep(s, OfWorkspace(id), file) else s
    case CloseWorkspace(id, token) => if Authorised(s, id, token) then Forget(s, {OfWorkspace(id)}) else s
  }

  /** Ids and tokens are drawn fresh, and no two people are sent the same link. */
  ghost predicate Fresh(s: Sys, r: Request) {
    match r
    case Create(d) => d.id !in s.ids
    case Lead(_, _, Invite(_, links)) =>
      && (forall p: Id :: links(p) !in s.issued)
      && (forall p: Id, p': Id :: links(p) == links(p') ==> p == p')
    case Lead(_, _, OnFile(file)) => FileFresh(s, file)
    case WorkspaceFile(_, _, file) => FileFresh(s, file)
    case _ => true
  }

  datatype Event = Event(request: Request, now: int)

  ghost function Run(s: Sys, events: seq<Event>): Sys
    decreases |events|
  {
    if events == [] then s else Run(Step(s, events[0].request, events[0].now), events[1..])
  }

  /** A run in which every new id and token is fresh when it is drawn. */
  ghost predicate Possible(s: Sys, events: seq<Event>)
    decreases |events|
  {
    events == [] || (Fresh(s, events[0].request) && Possible(Step(s, events[0].request, events[0].now), events[1..]))
  }
}
