/** What the board-question server promises, over every run of requests. */
module BoardProperties {
  import opened Basics
  import opened Store
  import opened Records
  import opened Files
  import opened Responses
  import opened Board
  import opened BoardInvariants

  ghost function QuestionRows(s: Sys, q: Id): Table<Row, Doc> { Rows(s, Question(q)) }

  // ----- Decisions ------------------------------------------------------------------------

  /**
   * In every run a stored decision is on a closed question, and it names exactly
   * the permanent members with no stored answer, unless a permanent member under
   * the one special id has answered.
   */
  lemma DecisionsNameTheMissing(events: seq<Event>, q: Id)
    requires Possible(EMPTY, events)
    ensures var t := QuestionRows(Run(EMPTY, events), q);
            Decision in t ==>
              && QuestionIn(t).Some? && QuestionIn(t).value.status.Closed? && t[Decision].DecisionDoc?
              && (t[Decision].taken.withoutPermanent == Missing(QuestionIn(t).value.invitees, t)
                  <==> !(ProtoIsPermanent(QuestionIn(t).value.invitees) && Response(PROTO) in t))
  {
    EmptyIsOk();
    RunKeeps(EMPTY, events);
    var t := QuestionRows(Run(EMPTY, events), q);
    assert AllOk(Run(EMPTY, events), q);
    if Decision in t {
      assert RowOk(QuestionIn(t).value, t, Decision);
      ListedAreMissingExactlyWhen(QuestionIn(t).value.invitees, t);
    }
  }

  /** A closed question is gone later, or has the same card and answers and has kept any decision. */
  ghost predicate StillClosed(t: Table<Row, Doc>, after: Table<Row, Doc>) {
    after == map[] || (
      && QuestionIn(after) == QuestionIn(t)
      && (Decision in t ==> Decision in after)
      && forall p :: At(after, Response(p)) == At(t, Response(p)))
  }

  lemma RowsAfterClosed(t: Table<Row, Doc>, c: Consultation, act: Act)
    requires QuestionIn(t) == Some(c) && c.status.Closed?
    ensures StillClosed(t, RowsAfter(t, c, act))
  {
  }

  lemma LeadStepTable(s: Sys, c: Consultation, act: Act, q: Id)
    ensures QuestionRows(LeadStep(s, c, act), q) == if q == c.id then RowsAfter(QuestionRows(s, q), c, act) else QuestionRows(s, q)
  {
    if act.OnFile? { FileStepFrame(s, OfQuestion(c.id), act.file, Question(q)); }
  }

  lemma LoadTable(s: Sys, x: Id, now: int, q: Id)
    ensures QuestionRows(Load(s, x, now), q) == QuestionRows(s, q) || QuestionRows(Load(s, x, now), q) == map[]
  {
  }

  lemma LeadKeepsClosed(s: Sys, x: Id, act: Act, now: int, q: Id)
    requires Inv(s) && QuestionAt(s, q).Some? && QuestionAt(s, q).value.status.Closed?
    ensures var loaded := Load(s, x, now);
            && StillClosed(QuestionRows(s, q), QuestionRows(loaded, q))
            && (QuestionAt(loaded, x).Some? ==>
                  StillClosed(QuestionRows(s, q), QuestionRows(LeadStep(loaded, QuestionAt(loaded, x).value, act), q)))
  {
    var loaded := Load(s, x, now);
    LoadKeeps(s, x, now);
    LoadTable(s, x, now, q);
    assert AllOk(loaded, x);
    var c := QuestionAt(loaded, x);
    if c.Some? {
      LeadStepTable(loaded, c.value, act, q);
      if q == x { RowsAfterClosed(QuestionRows(loaded, q), c.value, act); }
    }
  }

  lemma CreateTable(s: Sys, d: Draft, now: int, q: Id)
    requires Inv(s) && Fresh(s, Create(d))
    ensures QuestionRows(s, q) != map[] ==> QuestionRows(Step(s, Create(d), now), q) == QuestionRows(s, q)
  {
    assert AllOk(s, q);
  }

  lemma LoadLinkTable(s: Sys, link: Token, now: int, q: Id)
    ensures QuestionRows(LoadLink(s, link, now), q) == QuestionRows(s, q) || QuestionRows(LoadLink(s, link, now), q) == map[]
  {
  }

  /** An answer goes into a row of an open question; every other row stands or goes with its question. */
  lemma AnswerTable(s: Sys, r: Request, now: int, q: Id)
    requires r.Answer? && QuestionAt(s, q).Some? && QuestionAt(s, q).value.status.Closed?
    ensures QuestionRows(Step(s, r, now), q) == QuestionRows(s, q) || QuestionRows(Step(s, r, now), q) == map[]
  {
    LoadLinkTable(s, r.link, now, q);
  }

  lemma RemovalTable(s: Sys, r: Request, now: int, q: Id)
    requires r.Sweep? || r.OpenWorkspace? || r.CloseWorkspace?
    ensures QuestionRows(Step(s, r, now), q) == QuestionRows(s, q) || QuestionRows(Step(s, r, now), q) == map[]
  {
  }

  lemma StepKeepsClosed(s: Sys, r: Request, now: int, q: Id)
    requires Inv(s) && Fresh(s, r) && QuestionAt(s, q).Some? && QuestionAt(s, q).value.status.Closed?
    ensures StillClosed(QuestionRows(s, q), QuestionRows(Step(s, r, now), q))
  {
    match r {
      case Create(d) => CreateTable(s, d, now, q);
      case Lead(x, _, act) => LeadKeepsClosed(s, x, act, now, q);
      case FollowLink(link) => LoadLinkTable(s, link, now, q);
      case Answer(_, _, _) => AnswerTable(s, r, now, q);
      case WorkspaceFile(id, _, file) => FileStepFrame(s, OfWorkspace(id), file, Question(q));
      case _ => RemovalTable(s, r, now, q);
    }
  }

  lemma IdsGrow(s: Sys, r: Request, now: int)
    ensures s.ids <= Step(s, r, now).ids
  {
  }

  lemma StepKeepsGone(s: Sys, r: Request, now: int, q: Id)
    requires Inv(s) && Fresh(s, r) && QuestionRows(s, q) == map[] && q in s.ids
    ensures QuestionRows(Step(s, r, now), q) == map[]
  {
    match r {
      case Lead(x, token, act) =>
        var loaded := Load(s, x, now);
        LoadKeeps(s, x, now);
        assert AllOk(loaded, x);
        var c := QuestionAt(loaded, x);
        if c.Some? { LeadStepTable(loaded, c.value, act, q); }
      case WorkspaceFile(id, _, file) => FileStepFrame(s, OfWorkspace(id), file, Question(q));
      case _ =>
    }
  }

  /** A question that is gone never comes back, whatever is requested. */
  lemma {:induction false} GoneForGood(s: Sys, events: seq<Event>, q: Id)
    requires Inv(s) && Possible(s, events) && QuestionRows(s, q) == map[] && q in s.ids
    ensures QuestionRows(Run(s, events), q) == map[]
    decreases |events|
  {
    if events != [] {
      var r, now := events[0].request, events[0].now;
      StepKeeps(s, r, now);
      StepKeepsGone(s, r, now, q);
      IdsGrow(s, r, now);
      GoneForGood(Step(s, r, now), events[1..], q);
    }
  }

  /** Closing is never undone: from then on the people, their links and their answers stand until the question goes. */
  lemma {:induction false} ClosedForGood(s: Sys, events: seq<Event>, q: Id)
    requires Inv(s) && Possible(s, events) && QuestionAt(s, q).Some? && QuestionAt(s, q).value.status.Closed?
    ensures StillClosed(QuestionRows(s, q), QuestionRows(Run(s, events), q))
    decreases |events|
  {
    if events != [] {
      var r, now := events[0].request, events[0].now;
      var next := Step(s, r, now);
      StepKeeps(s, r, now);
      StepKeepsClosed(s, r, now, q);
      IdsGrow(s, r, now);
      assert AllOk(s, q);
      if QuestionRows(next, q) == map[] { GoneForGood(next, events[1..], q); } else { ClosedForGood(next, events[1..], q); }
    }
  }

  /** However often the chair decides again, the members named as missing stay the same. */
  lemma DecisionStaysTrue(s: Sys, events: seq<Event>, q: Id)
    requires Inv(s) && Possible(s, events) && Decision in QuestionRows(s, q)
    ensures var t, after := QuestionRows(s, q), QuestionRows(Run(s, events), q);
            after == map[] || (
              && Decision in after && after[Decision].DecisionDoc? && t[Decision].DecisionDoc?
              && after[Decision].taken.withoutPermanent == t[Decision].taken.withoutPermanent)
  {
    var t, after := QuestionRows(s, q), QuestionRows(Run(s, events), q);
    assert AllOk(s, q) && RowOk(QuestionIn(t).value, t, Decision);
    ClosedForGood(s, events, q);
    RunKeeps(s, events);
    assert AllOk(Run(s, events), q);
    if after != map[] {
      assert RowOk(QuestionIn(after).value, after, Decision);
      CollectFrame(QuestionIn(t).value.invitees, t, after);
    }
  }

  // ----- Links ------------------------------------------------------------------------------

  /** A link opens exactly for the person the question's card says holds it. */
  lemma OpensExactlyForItsHolder(s: Sys, link: Token, q: Id, p: Id)
    requires Inv(s)
    ensures Resolve(s, link) == Some((q, p)) <==> QuestionAt(s, q).Some? && HoldsLink(QuestionAt(s, q).value, p, link)
  {
    assert AllOk(s, q);
    var invitees := InviteesOf(QuestionRows(s, q));
    assert LinksTo(Rows(s, Tokens), q, p, Digest(link)) <==> Holds(invitees, p, Digest(link));
    assert QuestionAt(s, q).Some? ==> (Holds(invitees, p, Digest(link)) <==> HoldsLink(QuestionAt(s, q).value, p, link));
  }

  /** At most one link opens for each person. */
  lemma OneLinkEach(s: Sys, link: Token, other: Token)
    requires Inv(s) && Resolve(s, link).Some? && Resolve(s, other) == Resolve(s, link)
    ensures link == other
  {
    var (q, p) := Resolve(s, link).value;
    OpensExactlyForItsHolder(s, link, q, p);
    OpensExactlyForItsHolder(s, other, q, p);
    assert AllOk(s, q);
    var people := QuestionAt(s, q).value.invitees;
    var i :| 0 <= i < |people| && people[i].personId == p && people[i].tokenHash == Some(Digest(link));
    var j :| 0 <= j < |people| && people[j].personId == p && people[j].tokenHash == Some(Digest(other));
    assert i == j;
  }

  /** Whether the request sends this token to someone on the card. */
  predicate IsNewLink(c: Consultation, requested: Option<set<Id>>, links: Id -> Token, link: Token) {
    exists i :: 0 <= i < |c.invitees| && (requested == None || c.invitees[i].personId in requested.value) && links(c.invitees[i].personId) == link
  }

  lemma CardAfterInvite(s: Sys, c: Consultation, act: Act)
    requires act.Invite? && CanInvite(c)
    ensures var after := QuestionAt(LeadStep(s, c, act), c.id);
            && after.Some? && |after.value.invitees| == |c.invitees|
            && forall i | 0 <= i < |c.invitees| :: after.value.invitees[i] == Issued(c.invitees[i], act.requested, act.links)
  {
    InviteesAfter(c.id, c.invitees, map[], act.requested, act.links, |c.invitees|);
    LeadStepTable(s, c, act, c.id);
  }

  /** Each person asked opens the question with the link just sent. */
  lemma NewLinksOpen(s: Sys, c: Consultation, act: Act, i: nat)
    requires Inv(s) && QuestionAt(s, c.id) == Some(c) && act.Invite? && CanInvite(c) && ActFresh(s, act)
    requires i < |c.invitees| && (act.requested == None || c.invitees[i].personId in act.requested.value)
    ensures Resolve(LeadStep(s, c, act), act.links(c.invitees[i].personId)) == Some((c.id, c.invitees[i].personId))
  {
    var p := c.invitees[i].personId;
    LeadStepKeeps(s, c, act);
    CardAfterInvite(s, c, act);
    OpensExactlyForItsHolder(LeadStep(s, c, act), act.links(p), c.id, p);
  }

  lemma EarlierLinkFor(s: Sys, c: Consultation, act: Act, link: Token, q: Id, p: Id)
    requires Inv(s) && QuestionAt(s, c.id) == Some(c) && act.Invite? && CanInvite(c) && ActFresh(s, act)
    requires !IsNewLink(c, act.requested, act.links, link)
    ensures Resolve(LeadStep(s, c, act), link) == Some((q, p))
       <==> Resolve(s, link) == Some((q, p)) && !(q == c.id && Asked(act.requested, p))
  {
    var after := LeadStep(s, c, act);
    LeadStepKeeps(s, c, act);
    OpensExactlyForItsHolder(s, link, q, p);
    OpensExactlyForItsHolder(after, link, q, p);
    if q == c.id {
      CardAfterInvite(s, c, act);
      var c' := QuestionAt(after, q).value;
      if HoldsLink(c', p, link) {
        var i :| 0 <= i < |c'.invitees| && c'.invitees[i].personId == p && c'.invitees[i].tokenHash == Some(Digest(link));
        assert Issued(c.invitees[i], act.requested, act.links) == c'.invitees[i];
      }
      if HoldsLink(c, p, link) && !Asked(act.requested, p) {
        var i :| 0 <= i < |c.invitees| && c.invitees[i].personId == p && c.invitees[i].tokenHash == Some(Digest(link));
        assert c'.invitees[i] == c.invitees[i];
      }
    } else {
      LeadStepTable(s, c, act, q);
    }
  }

  /** Sending links ends the earlier ones of the people asked, no other link, and no answer. */
  lemma OnlyEarlierLinksEnd(s: Sys, c: Consultation, act: Act, link: Token)
    requires Inv(s) && QuestionAt(s, c.id) == Some(c) && act.Invite? && CanInvite(c) && ActFresh(s, act)
    requires !IsNewLink(c, act.requested, act.links, link)
    ensures var before := Resolve(s, link);
            Resolve(LeadStep(s, c, act), link)
            == if before.Some? && before.value.0 == c.id && (act.requested == None || before.value.1 in act.requested.value) then None else before
    ensures forall p :: At(QuestionRows(LeadStep(s, c, act), c.id), Response(p)) == At(QuestionRows(s, c.id), Response(p))
  {
    LeadStepTable(s, c, act, c.id);
    var before, after := Resolve(s, link), Resolve(LeadStep(s, c, act), link);
    if before.Some? { EarlierLinkFor(s, c, act, link, before.value.0, before.value.1); }
    if after.Some? { EarlierLinkFor(s, c, act, link, after.value.0, after.value.1); }
  }

  // ----- Removal --------------------------------------------------------------------------------

  /** Whom a row belongs to: an invitation to its question, everything else to the owner of its partition. */
  function RowOwner(s: Sys, p: Partition, r: Row): Option<Owner>
    requires r in Rows(s, p)
  {
    if p == Tokens && Rows(s, p)[r].TokenDoc? then Some(OfQuestion(Rows(s, p)[r].consultationId)) else PartitionOwner(s, p)
  }

  /** Every stored row belongs to someone, and no row of a question outlives it. */
  lemma NoOrphans(s: Sys, p: Partition, r: Row)
    requires Inv(s) && r in Rows(s, p)
    ensures RowOwner(s, p, r).Some?
    ensures RowOwner(s, p, r).value.OfQuestion? ==> QuestionAt(s, RowOwner(s, p, r).value.id).Some?
  {
    match p {
      case Question(q) => assert AllOk(s, q);
      case Workspace(_) =>
      case FilesOf(o) => assert AllOk(s, o.id);
      case Blob(f) =>
        assert BlobOk(s, f);
        assert AllOk(s, s.uploads[f].owner.id);
      case Tokens =>
        var d := Rows(s, Tokens)[r];
        assert AllOk(s, d.consultationId);
        assert LinksTo(Rows(s, Tokens), d.consultationId, d.personId, r.hash);
        var i :| 0 <= i < |InviteesOf(QuestionRows(s, d.consultationId))|;
    }
  }

  /** Removing owners takes the rows that belong to them and no others. */
  lemma ForgetTakesExactly(s: Sys, dead: set<Owner>, p: Partition, r: Row)
    ensures At(Rows(Forget(s, dead), p), r)
         == if r in Rows(s, p) && IsOneOf(RowOwner(s, p, r), dead) then None else At(Rows(s, p), r)
  {
  }

  /** A deleted question leaves no row, file, chunk or link behind, then or later. */
  lemma DeletedIsGone(s: Sys, c: Consultation, events: seq<Event>, p: Partition, r: Row)
    requires Inv(s) && QuestionAt(s, c.id) == Some(c) && Possible(LeadStep(s, c, Delete), events)
    ensures var later := Run(LeadStep(s, c, Delete), events);
            r in Rows(later, p) ==> RowOwner(later, p, r) != Some(OfQuestion(c.id))
  {
    var deleted := LeadStep(s, c, Delete);
    assert AllOk(s, c.id);
    ForgetKeeps(s, {OfQuestion(c.id)});
    GoneForGood(deleted, events, c.id);
    RunKeeps(deleted, events);
    if r in Rows(Run(deleted, events), p) { NoOrphans(Run(deleted, events), p, r); }
  }

  predicate BelongsToExpired(s: Sys, p: Partition, r: Row, now: int)
    requires r in Rows(s, p)
  {
    && RowOwner(s, p, r).Some? && RowOwner(s, p, r).value.OfQuestion?
    && IsExpired(QuestionAt(s, RowOwner(s, p, r).value.id), now)
  }

  /** A sweep removes what belongs to expired questions, and nothing of a workspace or of any other question. */
  lemma SweepTakesExactlyExpired(s: Sys, now: int, p: Partition, r: Row)
    ensures At(Rows(Step(s, Sweep, now), p), r)
         == if r in Rows(s, p) && BelongsToExpired(s, p, r, now) then None else At(Rows(s, p), r)
  {
    assert forall q :: OfQuestion(q) in Expired(s, now) <==> IsExpired(QuestionAt(s, q), now) by {
      forall q
        ensures OfQuestion(q) in Expired(s, now) <==> IsExpired(QuestionAt(s, q), now)
      {
        assert IsExpired(QuestionAt(s, q), now) ==> Question(q) in s.tables;
      }
    }
    ForgetTakesExactly(s, Expired(s, now), p, r);
  }

  // ----- Files ----------------------------------------------------------------------------------

  /** In every run a listed file reads back as it was uploaded, and both quotas hold. */
  lemma FilesStayWhole(events: seq<Event>, o: Owner, id: Id)
    requires Possible(EMPTY, events)
    ensures var s := Run(EMPTY, events);
            && |FilesIn(s, o)| <= MAX_FILES && TotalSize(FilesIn(s, o)) <= MAX_OWNER_BYTES
            && (FileIn(s, o, id).Some? ==>
                  && id in s.uploads && s.uploads[id].owner == o
                  && ReadBytes(Rows(s, Blob(id)), FileIn(s, o, id).value.byteChunks) == Some(s.uploads[id].bytes)
                  && ReadText(Rows(s, Blob(id)), FileIn(s, o, id).value.textChunks) == s.uploads[id].text)
  {
    EmptyIsOk();
    RunKeeps(EMPTY, events);
    var s := Run(EMPTY, events);
    assert ListOk(s, o);
    if FileIn(s, o, id).Some? { ListedFileIsWhole(s, o, id); }
  }

  // ----- Boards ---------------------------------------------------------------------------------

  lemma {:induction false} FoundInPlace(opinions: seq<Opinion>, i: nat)
    requires i < |opinions| && Unrepeated(AgentsOf(opinions))
    ensures Find(opinions, opinions[i].agentId) == Some(opinions[i])
  {
    var agents := AgentsOf(opinions);
    if i > 0 {
      assert agents[0] != agents[i];
      assert AgentsOf(opinions[1..]) == agents[1..];
      FoundInPlace(opinions[1..], i - 1);
    }
  }

  /** Two rounds by the same agents: the second is what counts. */
  lemma LaterRoundWins(shadow: seq<Opinion>, challenge: seq<Opinion>)
    requires AgentsOf(challenge) == AgentsOf(shadow) && Unrepeated(AgentsOf(shadow))
    ensures FinalOpinions(Some(shadow), Some(challenge)) == challenge
  {
    assert |shadow| == |AgentsOf(shadow)| == |challenge|;
    forall i | 0 <= i < |shadow|
      ensures Latest(shadow[i], challenge) == challenge[i]
    {
      assert AgentsOf(shadow)[i] == AgentsOf(challenge)[i];
      FoundInPlace(challenge, i);
    }
  }

  /** The opinions that count: one for each seated agent, the chair's last, all of them the challenge round's if there was one. */
  lemma OneOpinionPerSeat(s: Sys, q: Id)
    requires Inv(s) && QuestionAt(s, q).Some?
    ensures var t, c := QuestionRows(s, q), QuestionAt(s, q).value;
            var opinions := FinalOpinions(BoardIn(t, Shadow), BoardIn(t, Row.Challenge));
            && (Shadow in t ==> AgentsOf(opinions) == c.agents && Unrepeated(c.agents) && ChairLast(c.agents))
            && (Shadow !in t ==> opinions == [])
            && (Row.Challenge in t ==> c.mode.Collaborative? && Shadow in t && t[Row.Challenge] == BoardDoc(opinions))
  {
    var t, c := QuestionRows(s, q), QuestionAt(s, q).value;
    assert AllOk(s, q);
    if Shadow in t { assert RowOk(c, t, Shadow); }
    if Row.Challenge in t {
      assert RowOk(c, t, Row.Challenge);
      LaterRoundWins(t[Shadow].opinions, t[Row.Challenge].opinions);
    }
  }

  /** Convening again puts aside any earlier challenge: the new first round is what counts. */
  lemma ConveningStartsAfresh(s: Sys, c: Consultation, replies: AgentId -> Option<Reply>)
    requires Inv(s) && QuestionAt(s, c.id) == Some(c)
    ensures var t, after := QuestionRows(s, c.id), QuestionRows(LeadStep(s, c, Convene(replies)), c.id);
            var first := FirstRound(c.agents, replies);
            if c.mode.PeopleDecide? || first.None? then after == t
            else FinalOpinions(BoardIn(after, Shadow), BoardIn(after, Row.Challenge)) == first.value && AgentsOf(first.value) == c.agents
  {
    LeadStepTable(s, c, Convene(replies), c.id);
    assert AllOk(s, c.id);
    if FirstRound(c.agents, replies).Some? { FirstRoundIsSeated(c.agents, replies); }
  }

  /** A challenge or a synthesis is only ever there when someone has answered. */
  lemma RoundsFollowAnswers(s: Sys, q: Id, r: Row)
    requires Inv(s) && r in QuestionRows(s, q) && (r.Challenge? || r.Synthesis?)
    ensures exists p :: Response(p) in QuestionRows(s, q)
  {
    var t := QuestionRows(s, q);
    assert AllOk(s, q) && RowOk(QuestionIn(t).value, t, r);
    var answer :| answer in t && answer.Response?;
    assert Response(answer.personId) in t;
  }

  lemma {:induction false} PositionsAreEach(opinions: seq<Opinion>, i: nat)
    requires i < |opinions| && Unrepeated(AgentsOf(opinions))
    ensures opinions[i].agentId in PositionsOf(opinions) && PositionsOf(opinions)[opinions[i].agentId] == opinions[i].position
  {
    var rest := opinions[..|opinions| - 1];
    if i < |rest| {
      var agents := AgentsOf(opinions);
      assert agents[i] != agents[|rest|];
      assert AgentsOf(rest) == agents[..|rest|];
      PositionsAreEach(rest, i);
    }
  }

  /** The record a linked workspace keeps gives every seated agent's final position. */
  lemma RecordGivesFinalPositions(s: Sys, q: Id, act: Act, i: nat)
    requires Inv(s) && QuestionAt(s, q).Some? && act.Decide? && Shadow in QuestionRows(s, q)
    requires i < |QuestionAt(s, q).value.agents|
    ensures var t, c := QuestionRows(s, q), QuestionAt(s, q).value;
            var final := if Row.Challenge in t then t[Row.Challenge] else t[Shadow];
            && final.BoardDoc? && i < |final.opinions| && final.opinions[i].agentId == c.agents[i]
            && c.agents[i] in RecordOf(c, t, act).agentPositions
            && RecordOf(c, t, act).agentPositions[c.agents[i]] == final.opinions[i].position
  {
    var t, c := QuestionRows(s, q), QuestionAt(s, q).value;
    var opinions := FinalOpinions(BoardIn(t, Shadow), BoardIn(t, Row.Challenge));
    OneOpinionPerSeat(s, q);
    assert AllOk(s, q) && RowOk(c, t, Shadow);
    assert AgentsOf(opinions)[i] == c.agents[i];
    PositionsAreEach(opinions, i);
  }
}
