/** People whose ids a plain object knows already: what goes wrong with them, and that nothing does without them. */
module OddIds {
  import opened Basics
  import opened Store
  import opened Records
  import opened Files
  import opened Responses
  import opened Board
  import opened BoardInvariants
  import opened BoardProperties
  import Tally

  // ----- Runs without such ids -----------------------------------------------------------

  /** Whether no one named in a draft has such an id. */
  predicate PlainDraft(r: Request) { r.Create? ==> forall i | 0 <= i < |r.draft.people| :: r.draft.people[i].id !in INHERITED }

  predicate PlainDrafts(events: seq<Event>) { forall i | 0 <= i < |events| :: PlainDraft(events[i].request) }

  ghost predicate PlainAt(s: Sys, q: Id) { PlainIds(InviteesOf(QuestionRows(s, q))) }

  lemma RowsAfterPlain(t: Table<Row, Doc>, c: Consultation, act: Act)
    requires QuestionIn(t) == Some(c) && PlainIds(c.invitees)
    ensures PlainIds(InviteesOf(RowsAfter(t, c, act)))
  {
    if act.Invite? { InviteesAfter(c.id, c.invitees, map[], act.requested, act.links, |c.invitees|); }
  }

  lemma LeadKeepsPlain(s: Sys, x: Id, token: Token, act: Act, now: int, q: Id)
    requires Inv(s) && PlainAt(s, q)
    ensures PlainAt(Step(s, Lead(x, token, act), now), q)
  {
    var loaded := Load(s, x, now);
    LoadKeeps(s, x, now);
    LoadTable(s, x, now, q);
    assert AllOk(loaded, x);
    var c := QuestionAt(loaded, x);
    if c.Some? {
      LeadStepTable(loaded, c.value, act, q);
      if q == x { RowsAfterPlain(QuestionRows(loaded, q), c.value, act); }
    }
  }

  lemma CreateKeepsPlain(s: Sys, d: Draft, now: int, q: Id)
    requires PlainAt(s, q) && PlainDraft(Create(d))
    ensures PlainAt(Step(s, Create(d), now), q)
  {
  }

  lemma AnswerKeepsPlain(s: Sys, r: Request, now: int, q: Id)
    requires PlainAt(s, q) && r.Answer?
    ensures PlainAt(Step(s, r, now), q)
  {
    LoadLinkTable(s, r.link, now, q);
  }

  lemma StepKeepsPlain(s: Sys, r: Request, now: int, q: Id)
    requires Inv(s) && PlainAt(s, q) && PlainDraft(r)
    ensures PlainAt(Step(s, r, now), q)
  {
    match r {
      case Create(d) => CreateKeepsPlain(s, d, now, q);
      case Lead(x, token, act) => LeadKeepsPlain(s, x, token, act, now, q);
      case FollowLink(link) => LoadLinkTable(s, link, now, q);
      case Answer(_, _, _) => AnswerKeepsPlain(s, r, now, q);
      case WorkspaceFile(id, _, file) => FileStepFrame(s, OfWorkspace(id), file, Question(q));
      case _ => RemovalTable(s, r, now, q);
    }
  }

  lemma {:induction false} RunKeepsPlain(s: Sys, events: seq<Event>, q: Id)
    requires Inv(s) && Possible(s, events) && PlainAt(s, q) && PlainDrafts(events)
    ensures PlainAt(Run(s, events), q)
    decreases |events|
  {
    if events != [] {
      var r, now := events[0].request, events[0].now;
      StepKeeps(s, r, now);
      StepKeepsPlain(s, r, now, q);
      assert forall i | 0 <= i < |events[1..]| :: events[1..][i] == events[i + 1];
      RunKeepsPlain(Step(s, r, now), events[1..], q);
    }
  }

  /**
   * In every run whose drafts name no one by such an id, whatever else is
   * requested: a stored decision names exactly the permanent members with no
   * stored answer, the answers counted are those stored, and going through them
   * never throws.
   */
  lemma PlainRunsAreRight(events: seq<Event>, q: Id)
    requires Possible(EMPTY, events) && PlainDrafts(events)
    ensures var t := QuestionRows(Run(EMPTY, events), q);
            var people := InviteesOf(t);
            && (Decision in t ==> t[Decision].DecisionDoc? && t[Decision].taken.withoutPermanent == Missing(people, t))
            && |Collect(people, t).own| == Answered(people, t)
            && Readable(people, t)
  {
    EmptyIsOk();
    RunKeeps(EMPTY, events);
    RunKeepsPlain(EMPTY, events, q);
    var t := QuestionRows(Run(EMPTY, events), q);
    assert AllOk(Run(EMPTY, events), q);
    PlainIdsAreSafe(InviteesOf(t), t);
    if Decision in t { assert RowOk(QuestionIn(t).value, t, Decision); }
  }

  // ----- Decisions without a record --------------------------------------------------------

  /**
   * A decision that is accepted is stored and closes the question, but a linked
   * workspace gets its record exactly unless someone who has not answered goes
   * by a name that objects answer to.
   */
  lemma RecordIsKeptExactlyWhen(s: Sys, c: Consultation, act: Act)
    requires Inv(s) && QuestionAt(s, c.id) == Some(c) && act.Decide? && CanDecide(c, QuestionRows(s, c.id), act)
    requires c.workspaceId.Some? && Record(c.id) !in Rows(s, Workspace(c.workspaceId.value))
    ensures var t, after := QuestionRows(s, c.id), LeadStep(s, c, act);
            && Decision in QuestionRows(after, c.id) && QuestionIn(QuestionRows(after, c.id)) == Some(c.(status := Closed))
            && (Record(c.id) in Rows(after, Workspace(c.workspaceId.value))
                <==> forall i | 0 <= i < |c.invitees| :: !Throws(c.invitees[i], c.invitees, t))
  {
    LeadStepTable(s, c, act, c.id);
    ReadableExactlyWhen(c.invitees, QuestionRows(s, c.id));
  }

  // ----- Two runs -----------------------------------------------------------------------------

  const Q: Id := "question-1"

  function Link(p: Id): Token { "link-for-" + p }

  lemma LinksDiffer(p: Id, p': Id)
    requires Link(p) == Link(p')
    ensures p == p'
  {
    assert p == Link(p)[9..] == Link(p')[9..] == p';
  }

  lemma RunFirst(s: Sys, e: Event, rest: seq<Event>)
    ensures Run(s, [e] + rest) == Run(Step(s, e.request, e.now), rest)
    ensures Possible(s, [e] + rest) <==> Fresh(s, e.request) && Possible(Step(s, e.request, e.now), rest)
  {
    assert ([e] + rest)[1..] == rest;
  }

  function DraftFor(p: Person, link: Option<(Id, Token)>): Draft { Draft(Q, "admin", 1000, None, PeopleDecide, 60, false, link, [p]) }

  function CardFor(p: Person, link: Option<(Id, Token)>): Consultation { NewQuestion(DraftFor(p, link), 0) }

  const GO_AHEAD: Act := Decide("Go ahead", Tally.Support, "", true)

  lemma Created(s: Sys, p: Person, link: Option<(Id, Token)>)
    requires Inv(s) && Q !in s.ids && (link.Some? ==> Authorised(s, link.value.0, link.value.1))
    ensures var after := Step(s, Create(DraftFor(p, link)), 0);
            && Fresh(s, Create(DraftFor(p, link))) && Inv(after)
            && QuestionRows(after, Q) == map[Meta := QuestionDoc(CardFor(p, link))]
            && after.issued == s.issued && forall w :: Rows(after, Workspace(w)) == Rows(s, Workspace(w))
  {
    CreateKeeps(s, DraftFor(p, link), 0);
    assert AllOk(s, Q);
  }

  /** The lead of the question, in time. */
  lemma LeadDoes(s: Sys, c: Consultation, act: Act, now: int)
    requires QuestionAt(s, Q) == Some(c) && c.id == Q && c.adminTokenHash == Digest("admin") && now < c.expiresAt
    ensures Step(s, Lead(Q, "admin", act), now) == LeadStep(s, c, act)
  {
  }

  // A permanent member under the special id: created, invited, answered, decided.
  const ADA := Person(PROTO, "Ada", "Treasurer", true)

  const TO_ALL: Act := Invite(None, Link)

  const ADA_ANSWERS: seq<Event> :=
    [Event(Create(DraftFor(ADA, None)), 0)]
    + ([Event(Lead(Q, "admin", TO_ALL), 1)]
       + ([Event(Answer(Link(PROTO), Some(Tally.Support), []), 2)]
          + ([Event(Lead(Q, "admin", GO_AHEAD), 3)]
             + [])))

  lemma Invited(s: Sys, c: Consultation)
    requires Inv(s) && c == CardFor(ADA, None) && QuestionAt(s, Q) == Some(c) && s.issued == {}
    ensures var after := LeadStep(s, c, TO_ALL);
            && Fresh(s, Lead(Q, "admin", TO_ALL)) && Inv(after)
            && QuestionAt(after, Q) == Some(c.(invitees := [c.invitees[0].(tokenHash := Some(Digest(Link(PROTO))))]))
            && Resolve(after, Link(PROTO)) == Some((Q, PROTO))
  {
    assert forall p: Id, p': Id | Link(p) == Link(p') :: p == p' by {
      forall p: Id, p': Id | Link(p) == Link(p')
        ensures p == p'
      {
        LinksDiffer(p, p');
      }
    }
    LeadStepKeeps(s, c, TO_ALL);
    NewLinksOpen(s, c, TO_ALL, 0);
    CardAfterInvite(s, c, TO_ALL);
    InvitedCard(s, c);
  }

  /** With one person on the card, the one link is that person's. */
  lemma OneIsSent(invitees: seq<Invitee>)
    requires |invitees| == 1
    ensures Issue(Q, invitees, map[], None, Link, 1).0 == [invitees[0].(tokenHash := Some(Digest(Link(invitees[0].personId))))]
  {
    InviteesAfter(Q, invitees, map[], None, Link, 1);
  }

  lemma InvitedCard(s: Sys, c: Consultation)
    requires c.id == Q && CanInvite(c) && |c.invitees| == 1
    ensures QuestionAt(LeadStep(s, c, TO_ALL), Q)
         == Some(c.(invitees := [c.invitees[0].(tokenHash := Some(Digest(Link(c.invitees[0].personId))))]))
  {
    hide Issue;
    LeadStepTable(s, c, TO_ALL, Q);
    OneIsSent(c.invitees);
  }

  lemma AdaAnswers(s: Sys, c: Consultation)
    requires Inv(s) && QuestionAt(s, Q) == Some(c) && c.status.Open? && c.expiresAt == 1000
    requires Resolve(s, Link(PROTO)) == Some((Q, PROTO))
    ensures var after := Step(s, Answer(Link(PROTO), Some(Tally.Support), []), 2);
            && Inv(after) && QuestionAt(after, Q) == Some(c) && Response(PROTO) in QuestionRows(after, Q)
  {
    AnswerRequestKeeps(s, Answer(Link(PROTO), Some(Tally.Support), []), 2);
  }

  lemma AdaIsNamed(s: Sys, c: Consultation)
    requires QuestionAt(s, Q) == Some(c) && c.id == Q && c.mode.PeopleDecide? && c.workspaceId == None
    requires |c.invitees| == 1 && c.invitees[0].personId == PROTO && c.invitees[0].permanent && Label(c.invitees[0]) == "Ada (Treasurer)"
    requires Response(PROTO) in QuestionRows(s, Q)
    ensures var t := QuestionRows(LeadStep(s, c, GO_AHEAD), Q);
            && Response(PROTO) in t && QuestionIn(t) == Some(c.(status := Closed)) && Missing(c.invitees, t) == []
            && Decision in t && t[Decision].DecisionDoc? && t[Decision].taken.withoutPermanent == ["Ada (Treasurer)"]
  {
    var t := QuestionRows(s, Q);
    LeadStepTable(s, c, GO_AHEAD, Q);
    CollectedAre(c.invitees, t, PROTO);
    assert c.invitees[..0] == [];
    assert NamedMissing(c.invitees, Collect(c.invitees, t)) == ["Ada (Treasurer)"];
  }

  /**
   * A possible run: Ada, a permanent member under the special id, answers, and
   * the decision still names her as one it was taken without, though no one is
   * missing.
   */
  lemma AnsweredIsNamedMissing()
    ensures Possible(EMPTY, ADA_ANSWERS)
    ensures var t := QuestionRows(Run(EMPTY, ADA_ANSWERS), Q);
            && Response(PROTO) in t && Missing(InviteesOf(t), t) == []
            && Decision in t && t[Decision].DecisionDoc? && t[Decision].taken.withoutPermanent == ["Ada (Treasurer)"]
  {
    hide Step, LeadStep, NewQuestion, Fresh, Inv, NamedMissing, Missing, Resolve;
    AdasCard();
    var s0, c := EMPTY, CardFor(ADA, None);
    var s1 := Step(s0, Create(DraftFor(ADA, None)), 0);
    var s2 := Step(s1, Lead(Q, "admin", TO_ALL), 1);
    var s3 := Step(s2, Answer(Link(PROTO), Some(Tally.Support), []), 2);
    var c' := c.(invitees := [c.invitees[0].(tokenHash := Some(Digest(Link(PROTO))))]);
    EmptyIsOk();
    Created(s0, ADA, None);
    LeadDoes(s1, c, TO_ALL, 1);
    Invited(s1, c);
    AdaAnswers(s2, c');
    LeadDoes(s3, c', GO_AHEAD, 3);
    AdaIsNamed(s3, c');
    FourRequests();
  }

  lemma AdasCard()
    ensures var c := CardFor(ADA, None);
            && |c.invitees| == 1 && c.invitees[0] == Invitee(PROTO, "Ada", "Treasurer", true, None) && c.id == Q && c.status.Open?
            && c.mode.PeopleDecide? && c.expiresAt == 1000 && c.adminTokenHash == Digest("admin") && c.workspaceId == None
  {
  }

  lemma FourRequests()
    ensures var s1 := Step(EMPTY, Create(DraftFor(ADA, None)), 0);
            var s2 := Step(s1, Lead(Q, "admin", TO_ALL), 1);
            var s3 := Step(s2, Answer(Link(PROTO), Some(Tally.Support), []), 2);
            && Run(EMPTY, ADA_ANSWERS) == Step(s3, Lead(Q, "admin", GO_AHEAD), 3)
            && (Possible(EMPTY, ADA_ANSWERS) <==> Fresh(EMPTY, Create(DraftFor(ADA, None))) && Fresh(s1, Lead(Q, "admin", TO_ALL)))
  {
    hide Step, DraftFor;
    var s1 := Step(EMPTY, Create(DraftFor(ADA, None)), 0);
    var s2 := Step(s1, Lead(Q, "admin", TO_ALL), 1);
    var s3 := Step(s2, Answer(Link(PROTO), Some(Tally.Support), []), 2);
    var decide := Event(Lead(Q, "admin", GO_AHEAD), 3);
    var answer := Event(Answer(Link(PROTO), Some(Tally.Support), []), 2);
    var invite := Event(Lead(Q, "admin", TO_ALL), 1);
    RunFirst(s3, decide, []);
    RunFirst(s2, answer, [decide] + []);
    RunFirst(s1, invite, [answer] + ([decide] + []));
    RunFirst(EMPTY, Event(Create(DraftFor(ADA, None)), 0), [invite] + ([answer] + ([decide] + [])));
  }

  // Someone under the name of an inherited method, asked for a question of a workspace.
  const W: Id := "workspace-1"

  const BO := Person("toString", "Bo", "Secretary", false)

  const NO_RECORD: seq<Event> :=
    [Event(OpenWorkspace(W, "key"), 0)]
    + ([Event(Create(DraftFor(BO, Some((W, "key")))), 0)]
       + ([Event(Lead(Q, "admin", GO_AHEAD), 1)]
          + []))

  lemma BosCard()
    ensures var c := CardFor(BO, Some((W, "key")));
            && |c.invitees| == 1 && c.invitees[0] == Invitee("toString", "Bo", "Secretary", false, None) && c.id == Q
            && c.mode.PeopleDecide? && c.expiresAt == 1000 && c.adminTokenHash == Digest("admin") && c.workspaceId == Some(W)
  {
  }

  lemma WorkspaceOpened()
    ensures var s := Step(EMPTY, OpenWorkspace(W, "key"), 0);
            && Inv(s) && Q !in s.ids && Authorised(s, W, "key") && Record(Q) !in Rows(s, Workspace(W))
  {
    EmptyIsOk();
    StepKeeps(EMPTY, OpenWorkspace(W, "key"), 0);
  }

  lemma ThreeRequests()
    ensures var s1 := Step(EMPTY, OpenWorkspace(W, "key"), 0);
            var s2 := Step(s1, Create(DraftFor(BO, Some((W, "key")))), 0);
            && Run(EMPTY, NO_RECORD) == Step(s2, Lead(Q, "admin", GO_AHEAD), 1)
            && (Possible(EMPTY, NO_RECORD) <==> Fresh(s1, Create(DraftFor(BO, Some((W, "key"))))))
  {
    hide Step, DraftFor;
    var s1 := Step(EMPTY, OpenWorkspace(W, "key"), 0);
    var s2 := Step(s1, Create(DraftFor(BO, Some((W, "key")))), 0);
    var create := Event(Create(DraftFor(BO, Some((W, "key")))), 0);
    var decide := Event(Lead(Q, "admin", GO_AHEAD), 1);
    RunFirst(s2, decide, []);
    RunFirst(s1, create, [decide] + []);
    RunFirst(EMPTY, Event(OpenWorkspace(W, "key"), 0), [create] + ([decide] + []));
  }

  /** A possible run: the decision is stored and the question closed, but its workspace has no record of it. */
  lemma DecidedWithoutRecord()
    ensures Possible(EMPTY, NO_RECORD)
    ensures var after := Run(EMPTY, NO_RECORD);
            && Decision in QuestionRows(after, Q) && QuestionAt(after, Q).Some? && QuestionAt(after, Q).value.status.Closed?
            && QuestionAt(after, Q).value.workspaceId == Some(W) && Record(Q) !in Rows(after, Workspace(W))
  {
    hide Step, LeadStep, NewQuestion, Fresh, Inv, NamedMissing, Authorised;
    BosCard();
    var c := CardFor(BO, Some((W, "key")));
    var s1 := Step(EMPTY, OpenWorkspace(W, "key"), 0);
    var s2 := Step(s1, Create(DraftFor(BO, Some((W, "key")))), 0);
    WorkspaceOpened();
    Created(s1, BO, Some((W, "key")));
    LeadDoes(s2, c, GO_AHEAD, 1);
    assert Throws(c.invitees[0], c.invitees, QuestionRows(s2, Q));
    RecordIsKeptExactlyWhen(s2, c, GO_AHEAD);
    ThreeRequests();
  }
}
