/** Who may do what to a board question, and what each request leaves in its rows. */
module BoardLaws {
  import opened Basics
  import opened Store
  import opened Records
  import opened Files
  import opened Responses
  import opened Board
  import opened BoardInvariants
  import opened BoardProperties
  import Tally

  // ----- Who may do what --------------------------------------------------------------

  /** Looking a question up finds it unless it is missing or has expired, and removes exactly what an expired one owns. */
  lemma LoadRemovesExactlyExpired(s: Sys, q: Id, now: int, p: Partition, r: Row)
    ensures var c := QuestionAt(s, q);
            if c.Some? && now >= c.value.expiresAt
            then && QuestionAt(Load(s, q, now), q) == None
                 && At(Rows(Load(s, q, now), p), r)
                    == if r in Rows(s, p) && RowOwner(s, p, r) == Some(OfQuestion(q)) then None else At(Rows(s, p), r)
            else Load(s, q, now) == s
  {
    ForgetTakesExactly(s, {OfQuestion(q)}, p, r);
  }

  /** A request is the lead's exactly when its token's hash is on the card of a question that is there; any other does no more than look. */
  lemma LeadActsExactlyWhen(s: Sys, q: Id, token: Token, act: Act, now: int)
    ensures var loaded := Load(s, q, now);
            var c := QuestionAt(loaded, q);
            Step(s, Lead(q, token, act), now)
            == if c.Some? && token != "" && Digest(token) == c.value.adminTokenHash then LeadStep(loaded, c.value, act) else loaded
  {
  }

  /** Whether a workspace's own row has this token's hash. */
  predicate OpensWorkspace(s: Sys, id: Id, token: Token) {
    token != "" && At(Rows(s, Workspace(id)), Meta) == Some(WorkspaceDoc(Digest(token)))
  }

  /** A workspace obeys exactly the token whose hash its own row has. */
  lemma WorkspaceActsExactlyWhen(s: Sys, id: Id, token: Token, file: FileAct, now: int)
    ensures Step(s, WorkspaceFile(id, token, file), now) == if OpensWorkspace(s, id, token) then FileStep(s, OfWorkspace(id), file) else s
    ensures Step(s, CloseWorkspace(id, token), now) == if OpensWorkspace(s, id, token) then Forget(s, {OfWorkspace(id)}) else s
  {
  }

  /** Opening a workspace makes it obey that token. */
  lemma OpenedWorkspaceObeys(s: Sys, id: Id, token: Token, now: int)
    requires token != ""
    ensures var after := Step(s, OpenWorkspace(id, token), now);
            && (forall other :: OpensWorkspace(after, id, other) <==> other == token)
            && forall p: Partition | p != Workspace(id) :: Rows(after, p) == Rows(s, p)
  {
  }

  /** What a draft must be like for its question to be created. */
  predicate IsAccepted(s: Sys, d: Draft) {
    && (d.agents.Some? ==> forall a | a in d.agents.value :: a in ["orion", "grimm", "solara", "zephyr", "mira", "aquila"])
    && 0 <= d.peopleWeight && d.peopleWeight <= 100
    && (d.link.Some? ==> OpensWorkspace(s, d.link.value.0, d.link.value.1))
    && (d.mode == AgentsDecide
        || (1 <= |d.people| && |d.people| <= 20 && forall i, j | 0 <= i < j < |d.people| :: d.people[i].id != d.people[j].id))
  }

  predicate IsAsked(i: Invitee, p: Person) {
    i.personId == p.id && i.name == p.name && i.role == p.role && i.permanent == p.permanent
  }

  predicate AreAsked(invitees: seq<Invitee>, people: seq<Person>) {
    |invitees| == |people| && forall i | 0 <= i < |people| :: IsAsked(invitees[i], people[i])
  }

  /** A card says what its draft said, from its creation on, whatever its status and links. */
  ghost predicate IsCardOf(c: Consultation, d: Draft, created: int) {
    && c.id == d.id && c.expiresAt == created + d.keptFor && c.adminTokenHash == Digest(d.adminToken) && c.mode == d.mode
    && (forall a :: a in c.agents <==> a in AGENT_IDS && (a == CHAIR_AGENT || d.agents == None || a in d.agents.value))
    && AreAsked(c.invitees, if d.mode == AgentsDecide then [] else d.people)
    && c.peopleWeight == (match d.mode case Collaborative => d.peopleWeight case PeopleDecide => 100 case AgentsDecide => 0)
    && c.shareWithPeople == (d.mode == Collaborative && d.shareWithPeople)
    && c.workspaceId == (if d.link == None then None else Some(d.link.value.0))
  }

  lemma {:induction false} SeatedExactly(all: seq<AgentId>, asked: seq<AgentId>, a: AgentId)
    ensures a in Seated(all, asked) <==> a in all && (a == CHAIR_AGENT || a in asked)
  {
    if all != [] {
      SeatedExactly(all[1..], asked, a);
      assert all == [all[0]] + all[1..];
    }
  }

  lemma NewAgents(d: Draft, now: int)
    ensures forall a :: a in NewQuestion(d, now).agents <==> a in AGENT_IDS && (a == CHAIR_AGENT || d.agents == None || a in d.agents.value)
  {
    hide Seated;
    forall a
      ensures a in NewQuestion(d, now).agents <==> a in AGENT_IDS && (a == CHAIR_AGENT || d.agents == None || a in d.agents.value)
    {
      SeatedExactly(AGENT_IDS, if d.agents.Some? then d.agents.value else AGENT_IDS, a);
    }
  }

  lemma NewCardIsOf(d: Draft, now: int)
    ensures IsCardOf(NewQuestion(d, now), d, now) && NewQuestion(d, now).status.Open?
  {
    hide Seated, AGENT_IDS;
    NewAgents(d, now);
  }

  lemma AcceptedIsOk(s: Sys, d: Draft)
    ensures IsAccepted(s, d) <==> DraftOk(s, d)
  {
    hide Rows;
  }

  /** A question is created exactly from an accepted draft: open, with the card the draft asks for and no link sent yet. */
  lemma CreatesExactlyWhen(s: Sys, d: Draft, now: int)
    requires Inv(s) && d.id !in s.ids
    ensures var after := Step(s, Create(d), now);
            if IsAccepted(s, d)
            then && QuestionAt(after, d.id).Some? && IsCardOf(QuestionAt(after, d.id).value, d, now) && QuestionAt(after, d.id).value.status.Open?
                 && (forall r: Row | r in QuestionRows(after, d.id) :: r == Meta)
                 && forall p: Partition | p != Question(d.id) :: Rows(after, p) == Rows(s, p)
            else after == s
  {
    hide IsCardOf, IsAccepted, DraftOk, NewQuestion;
    assert AllOk(s, d.id);
    NewCardIsOf(d, now);
    AcceptedIsOk(s, d);
  }

  // ----- Cards over runs ------------------------------------------------------------------

  /** Only the links, and the status from open to closed, ever change on a card. */
  predicate SameCard(c: Consultation, after: Consultation) {
    && after.(status := c.status, invitees := c.invitees) == c
    && |after.invitees| == |c.invitees|
    && (forall i | 0 <= i < |c.invitees| :: after.invitees[i].(tokenHash := c.invitees[i].tokenHash) == c.invitees[i])
    && (c.status.Closed? ==> after.status.Closed?)
  }

  lemma ActKeepsCard(t: Table<Row, Doc>, c: Consultation, act: Act)
    requires QuestionIn(t) == Some(c)
    ensures QuestionIn(RowsAfter(t, c, act)).Some? ==> SameCard(c, QuestionIn(RowsAfter(t, c, act)).value)
  {
    if act.Invite? { InviteesAfter(c.id, c.invitees, map[], act.requested, act.links, |c.invitees|); }
  }

  lemma LeadKeepsCard(s: Sys, x: Id, token: Token, act: Act, now: int, q: Id)
    requires Inv(s) && QuestionAt(Step(s, Lead(x, token, act), now), q).Some?
    ensures QuestionAt(s, q).Some? && SameCard(QuestionAt(s, q).value, QuestionAt(Step(s, Lead(x, token, act), now), q).value)
  {
    var loaded := Load(s, x, now);
    LoadKeeps(s, x, now);
    LoadTable(s, x, now, q);
    assert AllOk(loaded, x);
    var c := QuestionAt(loaded, x);
    if c.Some? {
      LeadStepTable(loaded, c.value, act, q);
      if q == x { ActKeepsCard(QuestionRows(loaded, q), c.value, act); }
    }
  }

  /** One request: a question that is there afterwards was there with the same card, or has just been created. */
  predicate CameFrom(s: Sys, q: Id, c: Consultation) {
    QuestionAt(s, q).Some? && SameCard(QuestionAt(s, q).value, c)
  }

  ghost predicate JustCreated(r: Request, now: int, q: Id, c: Consultation) { r.Create? && r.draft.id == q && IsCardOf(c, r.draft, now) }

  lemma CreateKeepsCards(s: Sys, d: Draft, now: int, q: Id)
    requires Inv(s) && d.id !in s.ids && QuestionAt(Step(s, Create(d), now), q).Some?
    ensures var c := QuestionAt(Step(s, Create(d), now), q).value;
            CameFrom(s, q, c) || JustCreated(Create(d), now, q, c)
  {
    hide IsCardOf, IsAccepted;
    CreatesExactlyWhen(s, d, now);
  }

  lemma AnswerKeepsCards(s: Sys, r: Request, now: int, q: Id)
    requires r.Answer? && QuestionAt(Step(s, r, now), q).Some?
    ensures CameFrom(s, q, QuestionAt(Step(s, r, now), q).value)
  {
    LoadLinkTable(s, r.link, now, q);
  }

  lemma StepKeepsCards(s: Sys, r: Request, now: int, q: Id)
    requires Inv(s) && Fresh(s, r) && QuestionAt(Step(s, r, now), q).Some?
    ensures var c := QuestionAt(Step(s, r, now), q).value;
            CameFrom(s, q, c) || JustCreated(r, now, q, c)
  {
    hide IsCardOf;
    match r {
      case Create(d) => CreateKeepsCards(s, d, now, q);
      case Lead(x, token, act) => LeadKeepsCard(s, x, token, act, now, q);
      case FollowLink(link) => LoadLinkTable(s, link, now, q);
      case Answer(_, _, _) => AnswerKeepsCards(s, r, now, q);
      case WorkspaceFile(id, _, file) => FileStepFrame(s, OfWorkspace(id), file, Question(q));
      case _ => RemovalTable(s, r, now, q);
    }
  }

  lemma SameCardIsOf(c: Consultation, after: Consultation, d: Draft, created: int)
    requires SameCard(c, after) && IsCardOf(c, d, created)
    ensures IsCardOf(after, d, created)
  {
    assert forall i | 0 <= i < |c.invitees| :: after.invitees[i].(tokenHash := c.invitees[i].tokenHash) == c.invitees[i];
  }

  /** Whether some draft of the run asked for this card. */
  ghost predicate Drafted(events: seq<Event>, q: Id, c: Consultation) {
    exists i :: 0 <= i < |events| && JustCreated(events[i].request, events[i].now, q, c)
  }

  ghost predicate CardsFrom(drafts: seq<Event>, s: Sys, q: Id) { QuestionAt(s, q).Some? ==> Drafted(drafts, q, QuestionAt(s, q).value) }

  lemma StepKeepsDrafted(drafts: seq<Event>, s: Sys, e: Event, q: Id)
    requires Inv(s) && Fresh(s, e.request) && CardsFrom(drafts, s, q)
    ensures CardsFrom(drafts + [e], Step(s, e.request, e.now), q)
  {
    hide IsCardOf, Step;
    var after := Step(s, e.request, e.now);
    if QuestionAt(after, q).Some? {
      var c := QuestionAt(after, q).value;
      StepKeepsCards(s, e.request, e.now, q);
      if JustCreated(e.request, e.now, q, c) {
        assert (drafts + [e])[|drafts|] == e;
      } else {
        var i :| 0 <= i < |drafts| && JustCreated(drafts[i].request, drafts[i].now, q, QuestionAt(s, q).value);
        SameCardIsOf(QuestionAt(s, q).value, c, drafts[i].request.draft, drafts[i].now);
        assert (drafts + [e])[i] == drafts[i];
      }
    }
  }

  lemma {:induction false} RunKeepsDrafted(drafts: seq<Event>, s: Sys, events: seq<Event>, q: Id)
    requires Inv(s) && Possible(s, events) && CardsFrom(drafts, s, q)
    ensures CardsFrom(drafts + events, Run(s, events), q)
    decreases |events|
  {
    if events == [] {
      assert drafts + events == drafts;
    } else {
      var e := events[0];
      StepKeeps(s, e.request, e.now);
      StepKeepsDrafted(drafts, s, e, q);
      assert drafts + [e] + events[1..] == drafts + events;
      RunKeepsDrafted(drafts + [e], Step(s, e.request, e.now), events[1..], q);
    }
  }

  /** In every run a question's card is to the end the one its draft asked for, its status and links aside. */
  lemma CardIsItsDrafts(events: seq<Event>, q: Id)
    requires Possible(EMPTY, events)
    ensures CardsFrom(events, Run(EMPTY, events), q)
  {
    EmptyIsOk();
    RunKeepsDrafted([], EMPTY, events, q);
    assert [] + events == events;
  }

  predicate DraftsWith(events: seq<Event>, q: Id, token: Token) {
    exists i :: 0 <= i < |events| && events[i].request.Create? && events[i].request.draft.id == q && events[i].request.draft.adminToken == token
  }

  /** In every run only the token of a draft that asked for the question ever acts as its lead. */
  lemma OnlyItsLeadActs(events: seq<Event>, q: Id, token: Token, act: Act, now: int)
    requires Possible(EMPTY, events) && !DraftsWith(events, q, token)
    ensures Step(Run(EMPTY, events), Lead(q, token, act), now) == Load(Run(EMPTY, events), q, now)
  {
    var s := Run(EMPTY, events);
    CardIsItsDrafts(events, q);
    LeadActsExactlyWhen(s, q, token, act, now);
    LoadTable(s, q, now, q);
    var c := QuestionAt(Load(s, q, now), q);
    if c.Some? {
      var i :| 0 <= i < |events| && JustCreated(events[i].request, events[i].now, q, c.value);
      assert events[i].request.draft.adminToken != token;
    }
  }
}
