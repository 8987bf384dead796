/** What each of a lead's requests, and each answer, leaves in a question's rows. */
module BoardActs {
  import opened Basics
  import opened Store
  import opened Records
  import opened Files
  import opened Responses
  import opened Board
  import opened BoardInvariants
  import opened BoardProperties
  import Tally

  /** All rows but these are as they were. */
  ghost predicate SameBut(t: Table<Row, Doc>, after: Table<Row, Doc>, changed: set<Row>) {
    forall r: Row | r !in changed :: At(after, r) == At(t, r)
  }

  ghost function RowsLeft(s: Sys, c: Consultation, act: Act): Table<Row, Doc> { QuestionRows(LeadStep(s, c, act), c.id) }

  // ----- What a request touches ---------------------------------------------------------

  /** Other questions stand whatever the lead does, and so do workspaces, links and files except by a decision, an invitation and file requests. */
  lemma ActTouches(s: Sys, c: Consultation, act: Act, p: Partition)
    requires !act.Delete?
    ensures p.Question? && p.id != c.id ==> Rows(LeadStep(s, c, act), p) == Rows(s, p)
    ensures p.Workspace? && !(act.Decide? && c.workspaceId == Some(p.id)) ==> Rows(LeadStep(s, c, act), p) == Rows(s, p)
    ensures p == Tokens && !act.Invite? ==> Rows(LeadStep(s, c, act), p) == Rows(s, p)
    ensures (p.FilesOf? || p.Blob?) && !act.OnFile? ==> Rows(LeadStep(s, c, act), p) == Rows(s, p)
  {
    hide RowsAfter, RecordOf, Issue, TokensAfter;
    if act.OnFile? && !p.FilesOf? && !p.Blob? { FileStepFrame(s, OfQuestion(c.id), act.file, p); }
  }

  /** Deleting takes exactly what belongs to the question, and a file request is one about its files. */
  lemma DeletionTakesExactly(s: Sys, c: Consultation, p: Partition, r: Row, file: FileAct)
    ensures At(Rows(LeadStep(s, c, Delete), p), r)
         == if r in Rows(s, p) && RowOwner(s, p, r) == Some(OfQuestion(c.id)) then None else At(Rows(s, p), r)
    ensures LeadStep(s, c, OnFile(file)) == FileStep(s, OfQuestion(c.id), file)
  {
    ForgetTakesExactly(s, {OfQuestion(c.id)}, p, r);
  }

  lemma ReadingChangesNothing(s: Sys, c: Consultation)
    requires NoneEmpty(s.tables)
    ensures LeadStep(s, c, Read) == s
  {
    SameTables(LeadStep(s, c, Read).tables, s.tables);
  }

  lemma CloseCloses(s: Sys, c: Consultation)
    requires QuestionAt(s, c.id) == Some(c)
    ensures QuestionAt(LeadStep(s, c, Act.Close), c.id) == Some(c.(status := Closed))
    ensures SameBut(QuestionRows(s, c.id), RowsLeft(s, c, Act.Close), {Meta})
  {
    LeadStepTable(s, c, Act.Close, c.id);
  }

  /** A rating is stored exactly for a seated agent. */
  lemma RatingIsStoredExactlyWhen(s: Sys, c: Consultation, agent: AgentId, helpful: bool, note: string)
    requires QuestionAt(s, c.id) == Some(c)
    ensures var t, after := QuestionRows(s, c.id), RowsLeft(s, c, Rate(agent, helpful, note));
            if agent in c.agents
            then At(after, Feedback(agent)) == Some(FeedbackDoc(helpful, note)) && SameBut(t, after, {Feedback(agent)})
            else after == t
  {
    LeadStepTable(s, c, Rate(agent, helpful, note), c.id);
  }

  // ----- Rounds of opinions ---------------------------------------------------------------

  /** The opinions are the agents' own, one each in their order. */
  predicate AreOwn(opinions: seq<Opinion>, agents: seq<AgentId>, replies: AgentId -> Option<Reply>) {
    && |opinions| == |agents|
    && forall i | 0 <= i < |agents| ::
         && opinions[i].agentId == agents[i] && replies(agents[i]).Some?
         && opinions[i].content == replies(agents[i]).value.content && opinions[i].position == replies(agents[i]).value.position
  }

  predicate AllReply(agents: seq<AgentId>, replies: AgentId -> Option<Reply>) { forall a | a in agents :: replies(a).Some? }

  lemma OpinionsAreOwn(agents: seq<AgentId>, replies: AgentId -> Option<Reply>)
    ensures Opinions(agents, replies).Some? <==> AllReply(agents, replies)
    ensures Opinions(agents, replies).Some? ==> AreOwn(Opinions(agents, replies).value, agents, replies)
  {
    assert forall i | 0 <= i < |agents| :: agents[i] in agents;
  }

  lemma FirstRoundIsOwn(agents: seq<AgentId>, replies: AgentId -> Option<Reply>)
    requires Unrepeated(agents) && ChairLast(agents)
    ensures FirstRound(agents, replies).Some? <==> AllReply(agents, replies)
    ensures FirstRound(agents, replies).Some? ==> AreOwn(FirstRound(agents, replies).value, agents, replies)
  {
    hide Opinions, Members;
    var members := Members(agents);
    MembersThenChair(agents);
    OpinionsAreOwn(members, replies);
    assert agents == members + [CHAIR_AGENT];
    assert AllReply(agents, replies) <==> AllReply(members, replies) && replies(CHAIR_AGENT).Some? by {
      assert forall a :: a in agents <==> a in members || a == CHAIR_AGENT;
    }
    assert forall i | 0 <= i < |members| :: agents[i] == members[i];
  }

  /** Convening stores each seated agent's own reply, and drops any challenge, exactly when the board may sit and every call succeeds. */
  lemma ConveningStoresExactlyWhen(s: Sys, c: Consultation, replies: AgentId -> Option<Reply>)
    requires Inv(s) && QuestionAt(s, c.id) == Some(c)
    ensures var t, after := QuestionRows(s, c.id), RowsLeft(s, c, Convene(replies));
            if c.mode != PeopleDecide && AllReply(c.agents, replies)
            then && Shadow in after && after[Shadow].BoardDoc? && AreOwn(after[Shadow].opinions, c.agents, replies)
                 && Row.Challenge !in after && SameBut(t, after, {Shadow, Row.Challenge})
            else after == t
  {
    hide FirstRound, AreOwn, AllReply;
    assert AllOk(s, c.id);
    LeadStepTable(s, c, Convene(replies), c.id);
    FirstRoundIsOwn(c.agents, replies);
  }

  /** Whether someone but a person under the one special id has answered. */
  predicate SeemsAnswered(invitees: seq<Invitee>, t: Table<Row, Doc>) {
    exists i :: 0 <= i < |invitees| && Response(invitees[i].personId) in t && invitees[i].personId != PROTO
  }

  predicate NothingThrows(invitees: seq<Invitee>, t: Table<Row, Doc>) { forall i | 0 <= i < |invitees| :: !Throws(invitees[i], invitees, t) }

  lemma Seems(invitees: seq<Invitee>, t: Table<Row, Doc>)
    ensures SeemsAnswered(invitees, t) <==> Collect(invitees, t).own != map[]
    ensures NothingThrows(invitees, t) <==> Readable(invitees, t)
  {
    hide Collect, Readable, Throws;
    SeemsUnansweredExactlyWhen(invitees, t);
    ReadableExactlyWhen(invitees, t);
  }

  /** A challenge stores each agent's own reply exactly when there is a first round of a collaborative question and an answer to challenge. */
  lemma ChallengeIsStoredExactlyWhen(s: Sys, c: Consultation, replies: AgentId -> Option<Reply>)
    requires Inv(s) && QuestionAt(s, c.id) == Some(c)
    ensures var t, after := QuestionRows(s, c.id), RowsLeft(s, c, Act.Challenge(replies));
            if c.mode == Collaborative && Shadow in t && SeemsAnswered(c.invitees, t) && NothingThrows(c.invitees, t) && AllReply(c.agents, replies)
            then && Row.Challenge in after && after[Row.Challenge].BoardDoc? && AreOwn(after[Row.Challenge].opinions, c.agents, replies)
                 && SameBut(t, after, {Row.Challenge})
            else after == t
  {
    hide Collect, Readable, Throws, SeemsAnswered, NothingThrows, AreOwn, AllReply, Opinions;
    var t := QuestionRows(s, c.id);
    assert AllOk(s, c.id);
    if Shadow in t { assert RowOk(c, t, Shadow); }
    LeadStepTable(s, c, Act.Challenge(replies), c.id);
    Seems(c.invitees, t);
    OpinionsAreOwn(c.agents, replies);
  }

  // ----- Syntheses and decisions -------------------------------------------------------------

  /** A synthesis stores the model's text with the number of answers, exactly when its view is allowed and there is an answer. */
  lemma SynthesisIsStoredExactlyWhen(s: Sys, c: Consultation, view: View, content: Option<string>)
    requires Inv(s) && QuestionAt(s, c.id) == Some(c)
    ensures var t, after := QuestionRows(s, c.id), RowsLeft(s, c, Synthesise(view, content));
            if SeemsAnswered(c.invitees, t) && (view == PeopleView || (c.mode == Collaborative && Shadow in t))
               && NothingThrows(c.invitees, t) && content.Some?
            then && SameBut(t, after, {Synthesis(view)}) && Synthesis(view) in after && after[Synthesis(view)].SynthesisDoc?
                 && after[Synthesis(view)].content == content.value
                 && after[Synthesis(view)].responses + (if ProtoAnswered(c.invitees, t) then 1 else 0) == Answered(c.invitees, t)
            else after == t
  {
    hide Collect, Readable, Throws, SeemsAnswered, NothingThrows, Answered, ProtoAnswered;
    var t := QuestionRows(s, c.id);
    assert AllOk(s, c.id);
    if Shadow in t { assert RowOk(c, t, Shadow); }
    LeadStepTable(s, c, Synthesise(view, content), c.id);
    Seems(c.invitees, t);
    CountedAre(c.invitees, t);
  }

  /** The names a decision lists: none when the agents decide. */
  function NamesFor(c: Consultation, t: Table<Row, Doc>): seq<string> {
    if c.mode == AgentsDecide then [] else NamedMissing(c.invitees, Collect(c.invitees, t))
  }

  /** A decision is stored as it was taken, and closes the question, exactly when no one is listed or the chair proceeds knowingly. */
  lemma DecisionIsStoredExactlyWhen(s: Sys, c: Consultation, act: Act)
    requires act.Decide? && QuestionAt(s, c.id) == Some(c)
    ensures var t, after := QuestionRows(s, c.id), RowsLeft(s, c, act);
            if NamesFor(c, t) == [] || act.proceed
            then && At(after, Decision) == Some(DecisionDoc(Taken(act.decision, act.position, act.rationale, NamesFor(c, t))))
                 && QuestionIn(after) == Some(c.(status := Closed)) && SameBut(t, after, {Decision, Meta})
            else after == t
  {
    hide NamedMissing, Collect;
    LeadStepTable(s, c, act, c.id);
  }

  /** The record of an accepted decision goes into the linked workspace, among whose rows nothing else changes. */
  lemma RecordIsStored(s: Sys, c: Consultation, act: Act, w: Id)
    requires act.Decide? && QuestionAt(s, c.id) == Some(c) && c.workspaceId == Some(w)
    ensures var t, before, after := QuestionRows(s, c.id), Rows(s, Workspace(w)), Rows(LeadStep(s, c, act), Workspace(w));
            if (NamesFor(c, t) == [] || act.proceed) && NothingThrows(c.invitees, t)
            then At(after, Record(c.id)) == Some(RecordDoc(RecordOf(c, t, act))) && SameBut(before, after, {Record(c.id)})
            else after == before
  {
    hide NamedMissing, Collect, Readable, Throws, NothingThrows, RecordOf, RowsAfter;
    Seems(c.invitees, QuestionRows(s, c.id));
  }

  lemma {:induction false} OnlyTheirPositions(opinions: seq<Opinion>, a: AgentId)
    requires a in PositionsOf(opinions)
    ensures exists i :: 0 <= i < |opinions| && opinions[i].agentId == a
  {
    var rest, last := opinions[..|opinions| - 1], opinions[|opinions| - 1];
    if last.agentId != a {
      OnlyTheirPositions(rest, a);
      var i :| 0 <= i < |rest| && rest[i].agentId == a;
      assert opinions[i].agentId == a;
    }
  }

  /** The opinions that count in the end. */
  function Final(t: Table<Row, Doc>): seq<Opinion> { FinalOpinions(BoardIn(t, Shadow), BoardIn(t, Row.Challenge)) }

  predicate IsStoredPosition(position: Option<Tally.Position>, answer: Option<Doc>) {
    position == if answer.Some? && answer.value.ResponseDoc? then answer.value.position else None
  }

  /** What the record says: the decision, everyone's stored position, and the positions of the agents seated and no others. */
  lemma RecordSays(s: Sys, c: Consultation, act: Act, i: nat, a: AgentId)
    requires Inv(s) && QuestionAt(s, c.id) == Some(c) && act.Decide?
    ensures var t := QuestionRows(s, c.id);
            var record := RecordOf(c, t, act);
            && record.consultationId == c.id && record.mode == c.mode && record.decision == act.decision && record.position == act.position
            && |record.peoplePositions| == |c.invitees|
            && (i < |c.invitees| ==> IsStoredPosition(record.peoplePositions[i], At(t, Response(c.invitees[i].personId))))
            && (a in record.agentPositions <==> Shadow in t && a in c.agents)
  {
    hide RowOk;
    var t := QuestionRows(s, c.id);
    assert AllOk(s, c.id);
    OneOpinionPerSeat(s, c.id);
    if a in PositionsOf(Final(t)) {
      OnlyTheirPositions(Final(t), a);
      var k :| 0 <= k < |Final(t)| && Final(t)[k].agentId == a;
      assert AgentsOf(Final(t))[k] == a;
    }
    if Shadow in t && a in c.agents {
      var k :| 0 <= k < |c.agents| && c.agents[k] == a;
      assert AgentsOf(Final(t))[k] == Final(t)[k].agentId;
      PositionsAreEach(Final(t), k);
    }
  }

  /** Its recommendation is how the chair's final opinion begins, up to three thousand units. */
  lemma RecordRecommends(s: Sys, c: Consultation, act: Act)
    requires Inv(s) && QuestionAt(s, c.id) == Some(c) && act.Decide?
    ensures var t := QuestionRows(s, c.id);
            var said := RecordOf(c, t, act).recommendation;
            if Shadow in t
            then && |Final(t)| > 0 && Final(t)[|Final(t)| - 1].agentId == CHAIR_AGENT
                 && said <= Final(t)[|Final(t)| - 1].content
                 && |said| == Min(3000, |Final(t)[|Final(t)| - 1].content|)
            else said == ""
  {
    hide RowOk;
    var t := QuestionRows(s, c.id);
    assert AllOk(s, c.id);
    OneOpinionPerSeat(s, c.id);
    if Shadow in t {
      var last := |Final(t)| - 1;
      assert |AgentsOf(Final(t))| == |Final(t)| && AgentsOf(Final(t))[last] == Final(t)[last].agentId;
      FoundInPlace(Final(t), last);
    }
  }

  // ----- Answers --------------------------------------------------------------------------------

  /** The card of an open question that has not expired says that this person holds this link. */
  predicate Takes(s: Sys, link: Token, now: int, q: Id, p: Id) {
    && QuestionAt(s, q).Some? && QuestionAt(s, q).value.status.Open? && now < QuestionAt(s, q).value.expiresAt
    && var people := QuestionAt(s, q).value.invitees;
       exists i :: 0 <= i < |people| && people[i].personId == p && people[i].tokenHash == Some(Digest(link))
  }

  lemma TakenResolves(s: Sys, link: Token, now: int, q: Id, p: Id)
    requires Inv(s) && Takes(s, link, now, q, p)
    ensures Resolve(s, link) == Some((q, p)) && LoadLink(s, link, now) == s
  {
    OpensExactlyForItsHolder(s, link, q, p);
  }

  /** Following a link looks up the question whose card has it, which removes that question if it has expired. */
  lemma LinkLooksUpItsQuestion(s: Sys, link: Token, now: int, q: Id, i: nat)
    requires Inv(s) && QuestionAt(s, q).Some? && i < |QuestionAt(s, q).value.invitees|
    requires QuestionAt(s, q).value.invitees[i].tokenHash == Some(Digest(link))
    ensures Step(s, FollowLink(link), now) == Load(s, q, now)
  {
    OpensExactlyForItsHolder(s, link, q, QuestionAt(s, q).value.invitees[i].personId);
  }

  /** A link that no card has does nothing. */
  lemma UnknownLinkDoesNothing(s: Sys, link: Token, now: int)
    requires Inv(s)
    requires forall q | QuestionAt(s, q).Some? :: !HasLink(QuestionAt(s, q).value.invitees, link)
    ensures Step(s, FollowLink(link), now) == s
  {
    if Target(s, link).Some? {
      var d := Target(s, link).value;
      assert AllOk(s, d.consultationId);
      assert LinksTo(Rows(s, Tokens), d.consultationId, d.personId, Digest(link));
      assert Holds(InviteesOf(QuestionRows(s, d.consultationId)), d.personId, Digest(link));
      assert HasLink(InviteesOf(QuestionRows(s, d.consultationId)), link);
    }
  }

  predicate HasLink(invitees: seq<Invitee>, link: Token) {
    exists i :: 0 <= i < |invitees| && invitees[i].tokenHash == Some(Digest(link))
  }

  /** An answer through such a link is stored as it was sent, under the person who holds it, and nothing else changes. */
  lemma AnswerIsStored(s: Sys, link: Token, position: Option<Tally.Position>, answers: seq<string>, now: int, q: Id, p: Id)
    requires Inv(s) && Takes(s, link, now, q, p)
    ensures var after := Step(s, Answer(link, position, answers), now);
            && At(QuestionRows(after, q), Response(p)) == Some(ResponseDoc(position, answers))
            && SameBut(QuestionRows(s, q), QuestionRows(after, q), {Response(p)})
            && forall other: Partition | other != Question(q) :: Rows(after, other) == Rows(s, other)
  {
    TakenResolves(s, link, now, q, p);
  }

  /** Any other answer does no more than look the question up. */
  lemma OtherAnswersAreRefused(s: Sys, link: Token, position: Option<Tally.Position>, answers: seq<string>, now: int)
    requires Inv(s) && forall q, p :: !Takes(s, link, now, q, p)
    ensures Step(s, Answer(link, position, answers), now) == LoadLink(s, link, now)
  {
    var loaded := LoadLink(s, link, now);
    if Target(s, link).Some? && Resolve(loaded, link).Some? {
      var (q, p) := Resolve(loaded, link).value;
      LoadLinkKeeps(s, link, now);
      OpensExactlyForItsHolder(loaded, link, q, p);
      LoadLinkTable(s, link, now, q);
      assert !Takes(s, link, now, q, p);
    }
  }

  // ----- Answers over runs ------------------------------------------------------------------------

  /** The last answer the requests made for this person to this question that was taken. */
  ghost function LastTaken(s: Sys, events: seq<Event>, q: Id, p: Id, before: Option<Doc>): Option<Doc>
    decreases |events|
  {
    if events == [] then before
    else
      var (r, now) := (events[0].request, events[0].now);
      LastTaken(Step(s, r, now), events[1..], q, p,
                if r.Answer? && Takes(s, r.link, now, q, p) then Some(ResponseDoc(r.position, r.answers)) else before)
  }

  ghost predicate AnswerIs(s: Sys, q: Id, p: Id, answer: Option<Doc>) {
    && (QuestionAt(s, q).Some? ==> At(QuestionRows(s, q), Response(p)) == answer)
    && (q !in s.ids ==> answer == None)
  }

  lemma ActKeepsAnswers(t: Table<Row, Doc>, c: Consultation, act: Act, p: Id)
    requires QuestionIn(t) == Some(c)
    ensures QuestionIn(RowsAfter(t, c, act)).Some? ==> At(RowsAfter(t, c, act), Response(p)) == At(t, Response(p))
  {
  }

  lemma LeadKeepsAnswers(s: Sys, x: Id, token: Token, act: Act, now: int, q: Id, p: Id)
    requires Inv(s) && QuestionAt(Step(s, Lead(x, token, act), now), q).Some?
    ensures QuestionAt(s, q).Some? && At(QuestionRows(Step(s, Lead(x, token, act), now), q), Response(p)) == At(QuestionRows(s, q), Response(p))
  {
    var loaded := Load(s, x, now);
    LoadKeeps(s, x, now);
    LoadTable(s, x, now, q);
    assert AllOk(loaded, x);
    var c := QuestionAt(loaded, x);
    if c.Some? {
      LeadStepTable(loaded, c.value, act, q);
      if q == x { ActKeepsAnswers(QuestionRows(loaded, q), c.value, act, p); }
    }
  }

  lemma CreateKeepsAnswers(s: Sys, d: Draft, now: int, q: Id, p: Id, before: Option<Doc>)
    requires Inv(s) && d.id !in s.ids && AnswerIs(s, q, p, before)
    ensures AnswerIs(Step(s, Create(d), now), q, p, before)
  {
    assert AllOk(s, q);
  }

  /** An answer that is not this person's to this question leaves theirs as it was. */
  lemma OthersAnswersStand(s: Sys, r: Request, now: int, q: Id, p: Id)
    requires Inv(s) && r.Answer? && !Takes(s, r.link, now, q, p) && QuestionAt(Step(s, r, now), q).Some?
    ensures QuestionAt(s, q).Some? && At(QuestionRows(Step(s, r, now), q), Response(p)) == At(QuestionRows(s, q), Response(p))
  {
    hide Takes;
    if q', p' :| Takes(s, r.link, now, q', p') {
      AnswerIsStored(s, r.link, r.position, r.answers, now, q', p');
    } else {
      OtherAnswersAreRefused(s, r.link, r.position, r.answers, now);
      LoadLinkTable(s, r.link, now, q);
    }
  }

  lemma AnswerKeepsAnswers(s: Sys, r: Request, now: int, q: Id, p: Id, before: Option<Doc>)
    requires Inv(s) && r.Answer? && AnswerIs(s, q, p, before)
    ensures AnswerIs(Step(s, r, now), q, p, if Takes(s, r.link, now, q, p) then Some(ResponseDoc(r.position, r.answers)) else before)
  {
    AnswerAddsNoIds(s, r, now);
    assert AllOk(s, q);
    if Takes(s, r.link, now, q, p) {
      AnswerIsStored(s, r.link, r.position, r.answers, now, q, p);
    } else if QuestionAt(Step(s, r, now), q).Some? {
      OthersAnswersStand(s, r, now, q, p);
    }
  }

  lemma AnswerAddsNoIds(s: Sys, r: Request, now: int)
    requires r.Answer?
    ensures Step(s, r, now).ids == s.ids
  {
  }

  lemma StepKeepsAnswer(s: Sys, r: Request, now: int, q: Id, p: Id, before: Option<Doc>)
    requires Inv(s) && Fresh(s, r) && AnswerIs(s, q, p, before)
    ensures AnswerIs(Step(s, r, now), q, p,
              if r.Answer? && Takes(s, r.link, now, q, p) then Some(ResponseDoc(r.position, r.answers)) else before)
  {
    hide Takes;
    IdsGrow(s, r, now);
    match r {
      case Create(d) => CreateKeepsAnswers(s, d, now, q, p, before);
      case Lead(x, token, act) => if QuestionAt(Step(s, r, now), q).Some? { LeadKeepsAnswers(s, x, token, act, now, q, p); }
      case FollowLink(link) => LoadLinkTable(s, link, now, q);
      case Answer(_, _, _) => AnswerKeepsAnswers(s, r, now, q, p, before);
      case WorkspaceFile(id, _, file) => FileStepFrame(s, OfWorkspace(id), file, Question(q));
      case _ => RemovalTable(s, r, now, q);
    }
  }

  lemma {:induction false} RunKeepsAnswer(s: Sys, events: seq<Event>, q: Id, p: Id, before: Option<Doc>)
    requires Inv(s) && Possible(s, events) && AnswerIs(s, q, p, before)
    ensures AnswerIs(Run(s, events), q, p, LastTaken(s, events, q, p, before))
    decreases |events|
  {
    if events != [] {
      hide Step, AnswerIs, Takes;
      var (r, now) := (events[0].request, events[0].now);
      StepKeeps(s, r, now);
      StepKeepsAnswer(s, r, now, q, p, before);
      RunKeepsAnswer(Step(s, r, now), events[1..], q, p,
                     if r.Answer? && Takes(s, r.link, now, q, p) then Some(ResponseDoc(r.position, r.answers)) else before);
    }
  }

  /** In every run the answer stored for a person is, as it was sent, the last one taken from that person. */
  lemma StoredAnswerIsLastTaken(events: seq<Event>, q: Id, p: Id)
    requires Possible(EMPTY, events) && QuestionAt(Run(EMPTY, events), q).Some?
    ensures At(QuestionRows(Run(EMPTY, events), q), Response(p)) == LastTaken(EMPTY, events, q, p, None)
  {
    EmptyIsOk();
    RunKeepsAnswer(EMPTY, events, q, p, None);
  }

  /** So a decision's record gives everyone the position of the last answer taken from them. */
  lemma RecordGivesLastPositions(events: seq<Event>, q: Id, act: Act, i: nat)
    requires Possible(EMPTY, events) && QuestionAt(Run(EMPTY, events), q).Some? && act.Decide?
    requires i < |QuestionAt(Run(EMPTY, events), q).value.invitees|
    ensures var s := Run(EMPTY, events);
            var c := QuestionAt(s, q).value;
            var last := LastTaken(EMPTY, events, q, c.invitees[i].personId, None);
            && |RecordOf(c, QuestionRows(s, q), act).peoplePositions| == |c.invitees|
            && IsStoredPosition(RecordOf(c, QuestionRows(s, q), act).peoplePositions[i], last)
  {
    var s := Run(EMPTY, events);
    EmptyIsOk();
    RunKeeps(EMPTY, events);
    assert AllOk(s, q);
    RecordSays(s, QuestionAt(s, q).value, act, i, CHAIR_AGENT);
    StoredAnswerIsLastTaken(events, q, QuestionAt(s, q).value.invitees[i].personId);
  }
}
