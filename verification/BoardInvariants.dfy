/** What every run of requests keeps true of the board questions. */
module BoardInvariants {
  import opened Basics
  import opened Store
  import opened Records
  import opened Files
  import opened Responses
  import opened Board

  // ----- One question ---------------------------------------------------------------------

  predicate Unrepeated(agents: seq<AgentId>) { forall i, j | 0 <= i < j < |agents| :: agents[i] != agents[j] }

  predicate ChairLast(agents: seq<AgentId>) { agents != [] && agents[|agents| - 1] == CHAIR_AGENT }

  predicate CardOk(q: Id, c: Consultation) {
    && c.id == q && Unrepeated(c.agents) && ChairLast(c.agents) && PeopleDiffer(c.invitees)
    && (c.mode.AgentsDecide? ==> c.invitees == [] && c.peopleWeight == 0)
    && (c.mode.PeopleDecide? ==> c.peopleWeight == 100)
    && 0 <= c.peopleWeight <= 100 && (c.shareWithPeople ==> c.mode.Collaborative?)
  }

  predicate IsBoardOf(d: Doc, agents: seq<AgentId>) { d.BoardDoc? && AgentsOf(d.opinions) == agents }

  predicate SomeoneAnswered(t: Table<Row, Doc>) { exists r :: r in t && r.Response? }

  predicate RowOk(c: Consultation, t: Table<Row, Doc>, r: Row)
    requires r in t
  {
    match r
    case Meta => true
    case Shadow => !c.mode.PeopleDecide? && IsBoardOf(t[r], c.agents)
    case Challenge => c.mode.Collaborative? && Shadow in t && IsBoardOf(t[r], c.agents) && SomeoneAnswered(t)
    case Decision => t[r].DecisionDoc? && c.status.Closed? && t[r].taken.withoutPermanent == NamedMissing(c.invitees, Collect(c.invitees, t))
    case Feedback(agent) => t[r].FeedbackDoc? && agent in c.agents
    case Response(p) => t[r].ResponseDoc? && exists i :: 0 <= i < |c.invitees| && c.invitees[i].personId == p
    case Synthesis(view) => t[r].SynthesisDoc? && SomeoneAnswered(t) && (view.MixedView? ==> c.mode.Collaborative? && Shadow in t)
    case _ => false
  }

  ghost predicate QuestionOk(q: Id, t: Table<Row, Doc>) {
    t == map[] || (QuestionIn(t).Some? && CardOk(q, QuestionIn(t).value) && forall r | r in t :: RowOk(QuestionIn(t).value, t, r))
  }

  // ----- The agents at the table -------------------------------------------------------------

  lemma {:induction false} SeatedAreListed(all: seq<AgentId>, asked: seq<AgentId>, a: AgentId)
    requires a in Seated(all, asked)
    ensures a in all
  {
    if !(a == all[0] && (all[0] == CHAIR_AGENT || all[0] in asked)) { SeatedAreListed(all[1..], asked, a); }
  }

  lemma {:induction false} SeatedOnce(all: seq<AgentId>, asked: seq<AgentId>)
    requires Unrepeated(all) && ChairLast(all)
    ensures Unrepeated(Seated(all, asked)) && ChairLast(Seated(all, asked))
  {
    var rest := Seated(all[1..], asked);
    if |all| == 1 {
      assert all[1..] == [];
    } else {
      SeatedOnce(all[1..], asked);
      if all[0] in rest { SeatedAreListed(all[1..], asked, all[0]); }
    }
  }

  lemma {:induction false} MembersThenChair(agents: seq<AgentId>)
    requires Unrepeated(agents) && ChairLast(agents)
    ensures Members(agents) + [CHAIR_AGENT] == agents
  {
    if |agents| == 1 {
      assert agents[1..] == [];
    } else {
      MembersThenChair(agents[1..]);
      assert agents[0] != agents[|agents| - 1];
      assert agents == [agents[0]] + agents[1..];
    }
  }

  /** A first round has every seated agent once, in the order of the seats. */
  lemma FirstRoundIsSeated(agents: seq<AgentId>, replies: AgentId -> Option<Reply>)
    requires Unrepeated(agents) && ChairLast(agents) && FirstRound(agents, replies).Some?
    ensures AgentsOf(FirstRound(agents, replies).value) == agents
  {
    MembersThenChair(agents);
    var members := Opinions(Members(agents), replies).value;
    assert AgentsOf(members) == Members(agents);
  }

  lemma CountedMeansSomeone(invitees: seq<Invitee>, t: Table<Row, Doc>)
    requires Collect(invitees, t).own != map[]
    ensures SomeoneAnswered(t)
  {
    var p :| p in Collect(invitees, t).own;
    CollectedAre(invitees, t, p);
    assert Response(p) in t;
  }

  lemma StillSomeone(t: Table<Row, Doc>, after: Table<Row, Doc>)
    requires SomeoneAnswered(t) && forall r: Row | r in t && r.Response? :: r in after
    ensures SomeoneAnswered(after)
  {
    var r :| r in t && r.Response?;
    assert r in after;
  }

  // ----- A lead's request keeps its question in order ---------------------------------------------

  lemma ConveneRowsKept(q: Id, t: Table<Row, Doc>, c: Consultation, act: Act)
    requires QuestionOk(q, t) && QuestionIn(t) == Some(c) && act.Convene?
    ensures QuestionOk(q, RowsAfter(t, c, act))
  {
    hide Collect, NamedMissing, Readable;
    var after := RowsAfter(t, c, act);
    CollectFrame(c.invitees, t, after);
    if SomeoneAnswered(t) { StillSomeone(t, after); }
    if FirstRound(c.agents, act.replies).Some? { FirstRoundIsSeated(c.agents, act.replies); }
    forall r | r in after
      ensures RowOk(c, after, r)
    {
      if r in t { assert RowOk(c, t, r); }
    }
  }

  lemma ChallengeRowsKept(q: Id, t: Table<Row, Doc>, c: Consultation, act: Act)
    requires QuestionOk(q, t) && QuestionIn(t) == Some(c) && act.Challenge?
    ensures QuestionOk(q, RowsAfter(t, c, act))
  {
    hide Collect, NamedMissing, Readable;
    var after := RowsAfter(t, c, act);
    CollectFrame(c.invitees, t, after);
    if SomeoneAnswered(t) { StillSomeone(t, after); }
    if Collect(c.invitees, t).own != map[] { CountedMeansSomeone(c.invitees, t); }
    if Shadow in t { assert RowOk(c, t, Shadow); }
    forall r | r in after
      ensures RowOk(c, after, r)
    {
      if r in t { assert RowOk(c, t, r); }
    }
  }

  lemma CardRowsKept(q: Id, t: Table<Row, Doc>, c: Consultation, act: Act)
    requires QuestionOk(q, t) && QuestionIn(t) == Some(c) && (act.Close? || act.Decide?)
    ensures QuestionOk(q, RowsAfter(t, c, act))
  {
    hide Collect, Readable;
    var after := RowsAfter(t, c, act);
    CollectFrame(c.invitees, t, after);
    if SomeoneAnswered(t) { StillSomeone(t, after); }
    forall r | r in after
      ensures RowOk(QuestionIn(after).value, after, r)
    {
      if r in t { assert RowOk(c, t, r); }
    }
  }

  lemma OtherRowsKept(q: Id, t: Table<Row, Doc>, c: Consultation, act: Act)
    requires QuestionOk(q, t) && QuestionIn(t) == Some(c) && (act.Synthesise? || act.Rate?)
    ensures QuestionOk(q, RowsAfter(t, c, act))
  {
    hide Collect, NamedMissing, Readable;
    var after := RowsAfter(t, c, act);
    CollectFrame(c.invitees, t, after);
    if SomeoneAnswered(t) { StillSomeone(t, after); }
    if Collect(c.invitees, t).own != map[] { CountedMeansSomeone(c.invitees, t); }
    forall r | r in after
      ensures RowOk(c, after, r)
    {
      if r in t { assert RowOk(c, t, r); }
      if Shadow in t { assert RowOk(c, t, Shadow); }
    }
  }

  lemma InviteRowsKept(q: Id, t: Table<Row, Doc>, c: Consultation, act: Act)
    requires QuestionOk(q, t) && QuestionIn(t) == Some(c) && act.Invite? && CanInvite(c)
    ensures QuestionOk(q, RowsAfter(t, c, act))
  {
    hide Collect, NamedMissing, Readable;
    var after := RowsAfter(t, c, act);
    var c' := QuestionIn(after).value;
    InviteesAfter(c.id, c.invitees, map[], act.requested, act.links, |c.invitees|);
    if SomeoneAnswered(t) { StillSomeone(t, after); }
    assert forall i | 0 <= i < |c.invitees| :: c'.invitees[i].personId == c.invitees[i].personId;
    forall r | r in after
      ensures RowOk(c', after, r)
    {
      assert RowOk(c, t, r);
      if r.Response? {
        var i :| 0 <= i < |c.invitees| && c.invitees[i].personId == r.personId;
        assert c'.invitees[i].personId == r.personId;
      }
    }
  }

  lemma RowsAfterKeeps(q: Id, t: Table<Row, Doc>, c: Consultation, act: Act)
    requires QuestionOk(q, t) && QuestionIn(t) == Some(c)
    ensures QuestionOk(q, RowsAfter(t, c, act))
  {
    if act.Convene? { ConveneRowsKept(q, t, c, act); }
    else if act.Challenge? { ChallengeRowsKept(q, t, c, act); }
    else if act.Close? || act.Decide? { CardRowsKept(q, t, c, act); }
    else if act.Synthesise? || act.Rate? { OtherRowsKept(q, t, c, act); }
    else if act.Invite? && CanInvite(c) { InviteRowsKept(q, t, c, act); }
  }

  lemma AnswerKeeps(q: Id, t: Table<Row, Doc>, c: Consultation, i: nat, d: Doc)
    requires QuestionOk(q, t) && QuestionIn(t) == Some(c) && c.status.Open? && d.ResponseDoc? && i < |c.invitees|
    ensures QuestionOk(q, t[Response(c.invitees[i].personId) := d])
  {
    var after := t[Response(c.invitees[i].personId) := d];
    assert Response(c.invitees[i].personId) in after && SomeoneAnswered(after);
    forall r | r in after
      ensures RowOk(c, after, r)
    {
      if r in t { assert RowOk(c, t, r); }
    }
  }

  // ----- The token index ------------------------------------------------------------------------

  predicate LinksTo(index: Table<Row, Doc>, q: Id, p: Id, h: Digest) {
    TokenRow(h) in index && index[TokenRow(h)] == TokenDoc(q, p)
  }

  predicate Holds(invitees: seq<Invitee>, p: Id, h: Digest) {
    exists i :: 0 <= i < |invitees| && invitees[i].personId == p && invitees[i].tokenHash == Some(h)
  }

  /** The index and a question's invitees point at each other. */
  ghost predicate IndexOk(q: Id, invitees: seq<Invitee>, index: Table<Row, Doc>) {
    forall p, h :: LinksTo(index, q, p, h) <==> Holds(invitees, p, h)
  }

  predicate IndexTyped(index: Table<Row, Doc>, issued: set<Token>) {
    forall r | r in index :: r.TokenRow? && r.hash.token in issued && index[r].TokenDoc?
  }

  function InviteesOf(t: Table<Row, Doc>): seq<Invitee> {
    if QuestionIn(t).Some? then QuestionIn(t).value.invitees else []
  }

  lemma HeldIsIssued(q: Id, invitees: seq<Invitee>, index: Table<Row, Doc>, issued: set<Token>, p: Id, h: Digest)
    requires IndexOk(q, invitees, index) && IndexTyped(index, issued) && Holds(invitees, p, h)
    ensures h.token in issued && LinksTo(index, q, p, h)
  {
    assert LinksTo(index, q, p, h);
    assert TokenRow(h).hash == h;
  }

  lemma HoldersAfterOne(q: Id, invitees: seq<Invitee>, index: Table<Row, Doc>, i: nat, token: Token, issued: set<Token>, p: Id, h: Digest)
    requires i < |invitees| && PeopleDiffer(invitees) && token !in issued
    requires IndexOk(q, invitees, index) && IndexTyped(index, issued)
    ensures var (invitees', index') := IssueTo(q, invitees, index, i, token);
            LinksTo(index', q, p, h) <==> Holds(invitees', p, h)
  {
    var person := invitees[i];
    var (invitees', index') := IssueTo(q, invitees, index, i, token);
    if Holds(invitees, p, h) { HeldIsIssued(q, invitees, index, issued, p, h); }
    if person.tokenHash.Some? {
      assert Holds(invitees, person.personId, person.tokenHash.value);
      HeldIsIssued(q, invitees, index, issued, person.personId, person.tokenHash.value);
    }
    assert invitees'[i].personId == person.personId && invitees'[i].tokenHash == Some(Digest(token));
    if Holds(invitees', p, h) {
      var j :| 0 <= j < |invitees'| && invitees'[j].personId == p && invitees'[j].tokenHash == Some(h);
      assert j != i ==> invitees[j] == invitees'[j] && Holds(invitees, p, h);
    }
    if LinksTo(index', q, p, h) && h != Digest(token) {
      assert LinksTo(index, q, p, h);
      var j :| 0 <= j < |invitees| && invitees[j].personId == p && invitees[j].tokenHash == Some(h);
      assert j != i ==> invitees'[j] == invitees[j];
    }
  }

  /** Sending one new link keeps the index in step, and no other question's links change. */
  lemma IssueToKeeps(q: Id, invitees: seq<Invitee>, index: Table<Row, Doc>, i: nat, token: Token, issued: set<Token>)
    requires i < |invitees| && PeopleDiffer(invitees) && token !in issued
    requires IndexOk(q, invitees, index) && IndexTyped(index, issued)
    ensures var (invitees', index') := IssueTo(q, invitees, index, i, token);
            && IndexOk(q, invitees', index') && IndexTyped(index', issued + {token})
            && OthersUnchanged(index, index', q)
  {
    var (invitees', index') := IssueTo(q, invitees, index, i, token);
    forall p, h
      ensures LinksTo(index', q, p, h) <==> Holds(invitees', p, h)
    {
      HoldersAfterOne(q, invitees, index, i, token, issued, p, h);
    }
    var person := invitees[i];
    if person.tokenHash.Some? {
      assert Holds(invitees, person.personId, person.tokenHash.value);
      HeldIsIssued(q, invitees, index, issued, person.personId, person.tokenHash.value);
    }
    assert TokenRow(Digest(token)) !in index;
  }

  predicate OneEach(links: Id -> Token, issued: set<Token>, people: set<Id>) {
    && (forall p | p in people :: links(p) !in issued)
    && (forall p, p' | p in people && p' in people :: links(p) == links(p') ==> p == p')
  }

  function PeopleIn(invitees: seq<Invitee>): set<Id> { set i | 0 <= i < |invitees| :: invitees[i].personId }

  lemma {:induction false} NotSentYet(
      issued: set<Token>, invitees: seq<Invitee>, requested: Option<set<Id>>, links: Id -> Token, n: nat, i: nat)
    requires n <= i < |invitees| && PeopleDiffer(invitees) && OneEach(links, issued, PeopleIn(invitees))
    ensures links(invitees[i].personId) !in TokensAfter(issued, invitees, requested, links, n)
  {
    assert invitees[i].personId in PeopleIn(invitees);
    if n > 0 {
      NotSentYet(issued, invitees, requested, links, n - 1, i);
      assert invitees[n - 1].personId in PeopleIn(invitees);
    }
  }

  predicate DrawnFresh(issued: set<Token>, invitees: seq<Invitee>, requested: Option<set<Id>>, links: Id -> Token, n: nat)
    requires n <= |invitees|
  {
    n == 0 || (DrawnFresh(issued, invitees, requested, links, n - 1)
               && links(invitees[n - 1].personId) !in TokensAfter(issued, invitees, requested, links, n - 1))
  }

  lemma {:induction false} InviteesAfter(q: Id, invitees: seq<Invitee>, index: Table<Row, Doc>, requested: Option<set<Id>>, links: Id -> Token, n: nat)
    requires n <= |invitees|
    ensures var after := Issue(q, invitees, index, requested, links, n).0;
            forall i | 0 <= i < |invitees| :: after[i] == if i < n then Issued(invitees[i], requested, links) else invitees[i]
  {
    if n > 0 { InviteesAfter(q, invitees, index, requested, links, n - 1); }
  }

  /** Only rows that open this question, or none, differ. */
  ghost predicate OthersUnchanged(index: Table<Row, Doc>, index': Table<Row, Doc>, q: Id) {
    forall r :: At(index, r) == At(index', r) || (PointsTo(At(index, r), q) && PointsTo(At(index', r), q))
  }

  predicate PointsTo(d: Option<Doc>, q: Id) { d.Some? ==> d.value.TokenDoc? && d.value.consultationId == q }

  lemma OthersStillUnchanged(a: Table<Row, Doc>, b: Table<Row, Doc>, c: Table<Row, Doc>, q: Id)
    requires OthersUnchanged(a, b, q) && OthersUnchanged(b, c, q)
    ensures OthersUnchanged(a, c, q)
  {
  }

  /** The invitees, the index and the tokens issued are in step, and other questions' rows are as they were in `from`. */
  ghost predicate InStep(q: Id, invitees: seq<Invitee>, index: Table<Row, Doc>, issued: set<Token>, from: Table<Row, Doc>) {
    IndexOk(q, invitees, index) && IndexTyped(index, issued) && OthersUnchanged(from, index, q)
  }

  lemma InStepAfterOne(q: Id, invitees: seq<Invitee>, index: Table<Row, Doc>, issued: set<Token>, from: Table<Row, Doc>, i: nat, token: Token)
    requires i < |invitees| && PeopleDiffer(invitees) && token !in issued && InStep(q, invitees, index, issued, from)
    ensures var (invitees', index') := IssueTo(q, invitees, index, i, token);
            InStep(q, invitees', index', issued + {token}, from)
  {
    IssueToKeeps(q, invitees, index, i, token, issued);
    OthersStillUnchanged(from, index, IssueTo(q, invitees, index, i, token).1, q);
  }

  lemma PeopleStillDiffer(q: Id, invitees: seq<Invitee>, index: Table<Row, Doc>, requested: Option<set<Id>>, links: Id -> Token, n: nat)
    requires n <= |invitees| && PeopleDiffer(invitees)
    ensures PeopleDiffer(Issue(q, invitees, index, requested, links, n).0)
  {
    InviteesAfter(q, invitees, index, requested, links, n);
  }

  lemma {:induction false} IssueKeeps(
      q: Id, invitees: seq<Invitee>, index: Table<Row, Doc>, requested: Option<set<Id>>, links: Id -> Token, n: nat, issued: set<Token>)
    requires n <= |invitees| && PeopleDiffer(invitees)
    requires DrawnFresh(issued, invitees, requested, links, n) && InStep(q, invitees, index, issued, index)
    ensures var (invitees', index') := Issue(q, invitees, index, requested, links, n);
            InStep(q, invitees', index', TokensAfter(issued, invitees, requested, links, n), index)
  {
    if n > 0 {
      IssueKeeps(q, invitees, index, requested, links, n - 1, issued);
      PeopleStillDiffer(q, invitees, index, requested, links, n - 1);
      var (before, rows) := Issue(q, invitees, index, requested, links, n - 1);
      var p := invitees[n - 1].personId;
      if Asked(requested, p) {
        InStepAfterOne(q, before, rows, TokensAfter(issued, invitees, requested, links, n - 1), index, n - 1, links(p));
      }
    }
  }

  lemma {:induction false} FreshLinks(issued: set<Token>, invitees: seq<Invitee>, requested: Option<set<Id>>, links: Id -> Token, n: nat)
    requires n <= |invitees| && PeopleDiffer(invitees) && OneEach(links, issued, PeopleIn(invitees))
    ensures DrawnFresh(issued, invitees, requested, links, n)
  {
    if n > 0 {
      FreshLinks(issued, invitees, requested, links, n - 1);
      NotSentYet(issued, invitees, requested, links, n - 1, n - 1);
    }
  }

  // ----- The whole system -----------------------------------------------------------------------

  /** A question's rows, its links and its files are in order; nothing is left of a question that is gone. */
  ghost predicate AllOk(s: Sys, q: Id) {
    var t := Rows(s, Question(q));
    && QuestionOk(q, t)
    && IndexOk(q, InviteesOf(t), Rows(s, Tokens))
    && (t == map[] ==> FilesIn(s, OfQuestion(q)) == map[])
    && (t != map[] ==> q in s.ids)
  }

  /** A workspace's rows, of those modelled: its own card, and no question's, under the name both use. */
  predicate WorkspaceOk(t: Table<Row, Doc>) {
    forall r | r in t :: (r.Meta? && t[r].WorkspaceDoc?) || (r.Record? && t[r].RecordDoc?)
  }

  ghost predicate Inv(s: Sys) {
    && NoneEmpty(s.tables)
    && FilesOk(s)
    && (forall w :: WorkspaceOk(Rows(s, Workspace(w))))
    && IndexTyped(Rows(s, Tokens), s.issued)
    && forall q :: AllOk(s, q)
  }

  lemma EmptyIsOk()
    ensures Inv(EMPTY)
  {
    assert FilesOk(EMPTY);
    assert forall q :: AllOk(EMPTY, q);
  }

  /** Rewriting a question's rows, its people and their links left as they are. */
  lemma PutQuestionKeeps(s: Sys, q: Id, t: Table<Row, Doc>)
    requires Inv(s) && QuestionOk(q, t) && t != map[] && Rows(s, Question(q)) != map[]
    requires InviteesOf(t) == InviteesOf(Rows(s, Question(q)))
    ensures Inv(Put(s, Question(q), t))
  {
    var after := Put(s, Question(q), t);
    FilesFrame(s, after);
    forall x
      ensures AllOk(after, x)
    {
      assert AllOk(s, x);
    }
  }

  lemma FilesFrame(s: Sys, after: Sys)
    requires FilesOk(s) && after.uploads == s.uploads
    requires forall p: Partition | p.FilesOf? || p.Blob? :: Rows(after, p) == Rows(s, p)
    ensures FilesOk(after)
  {
    forall o
      ensures ListOk(after, o)
    {
      assert ListOk(s, o);
    }
    forall id
      ensures BlobOk(after, id)
    {
      assert BlobOk(s, id);
    }
  }

  lemma PutWorkspaceKeeps(s: Sys, w: Id, t: Table<Row, Doc>)
    requires Inv(s) && WorkspaceOk(t)
    ensures Inv(Put(s, Workspace(w), t))
  {
    var after := Put(s, Workspace(w), t);
    FilesFrame(s, after);
    forall x
      ensures AllOk(after, x)
    {
      assert AllOk(s, x);
    }
  }

  lemma ForgetKeeps(s: Sys, dead: set<Owner>)
    requires Inv(s)
    ensures Inv(Forget(s, dead))
  {
    var after := Forget(s, dead);
    ForgetKeepsFiles(s, dead);
    forall q
      ensures AllOk(after, q)
    {
      assert AllOk(s, q);
      ForgetKeepsLinks(s, dead, q);
    }
  }

  lemma ForgetKeepsLinks(s: Sys, dead: set<Owner>, q: Id)
    requires Inv(s)
    ensures IndexOk(q, InviteesOf(Rows(Forget(s, dead), Question(q))), Rows(Forget(s, dead), Tokens))
  {
    var index, after := Rows(s, Tokens), Rows(Forget(s, dead), Tokens);
    assert AllOk(s, q);
    forall p, h
      ensures LinksTo(after, q, p, h) <==> LinksTo(index, q, p, h) && OfQuestion(q) !in dead
    {
    }
  }

  lemma FileActKeeps(s: Sys, o: Owner, act: FileAct)
    requires Inv(s) && FileFresh(s, act) && (o.OfQuestion? ==> Rows(s, Question(o.id)) != map[])
    ensures Inv(FileStep(s, o, act))
  {
    var after := FileStep(s, o, act);
    FileStepKeeps(s, o, act);
    FileStepFrame(s, o, act, Tokens);
    forall w
      ensures WorkspaceOk(Rows(after, Workspace(w)))
    {
      FileStepFrame(s, o, act, Workspace(w));
    }
    forall q
      ensures AllOk(after, q)
    {
      assert AllOk(s, q);
      FileStepFrame(s, o, act, Question(q));
      if o != OfQuestion(q) { FileStepFrame(s, o, act, FilesOf(OfQuestion(q))); }
    }
  }

  lemma OtherLinksKept(index: Table<Row, Doc>, after: Table<Row, Doc>, q: Id, x: Id, invitees: seq<Invitee>)
    requires OthersUnchanged(index, after, q) && x != q && IndexOk(x, invitees, index)
    ensures IndexOk(x, invitees, after)
  {
    forall p, h
      ensures LinksTo(after, x, p, h) <==> LinksTo(index, x, p, h)
    {
      var r := TokenRow(h);
      assert At(index, r) == At(after, r) || (PointsTo(At(index, r), q) && PointsTo(At(after, r), q));
    }
  }

  /** Rewriting one question's rows and links, every other question's left as they are. */
  lemma InvitedAllOk(s: Sys, after: Sys, q: Id)
    requires Inv(s) && Rows(s, Question(q)) != map[] && after.ids == s.ids
    requires forall x | x != q :: Rows(after, Question(x)) == Rows(s, Question(x))
    requires forall o :: FilesIn(after, o) == FilesIn(s, o)
    requires OthersUnchanged(Rows(s, Tokens), Rows(after, Tokens), q)
    requires QuestionOk(q, Rows(after, Question(q))) && Rows(after, Question(q)) != map[]
    requires IndexOk(q, InviteesOf(Rows(after, Question(q))), Rows(after, Tokens))
    ensures forall x :: AllOk(after, x)
  {
    forall x
      ensures AllOk(after, x)
    {
      assert AllOk(s, x);
      if x != q { OtherLinksKept(Rows(s, Tokens), Rows(after, Tokens), q, x, InviteesOf(Rows(s, Question(x)))); }
    }
  }

  /** The card saved and the index agree, whatever index the new links were first worked out on. */
  lemma SameInvitees(q: Id, invitees: seq<Invitee>, index: Table<Row, Doc>, requested: Option<set<Id>>, links: Id -> Token)
    ensures Issue(q, invitees, map[], requested, links, |invitees|).0 == Issue(q, invitees, index, requested, links, |invitees|).0
  {
    InviteesAfter(q, invitees, index, requested, links, |invitees|);
    InviteesAfter(q, invitees, map[], requested, links, |invitees|);
  }

  lemma InviteKeeps(s: Sys, c: Consultation, act: Act)
    requires Inv(s) && QuestionAt(s, c.id) == Some(c) && act.Invite? && CanInvite(c)
    requires OneEach(act.links, s.issued, PeopleIn(c.invitees))
    ensures Inv(LeadStep(s, c, act))
  {
    var q, n := c.id, |c.invitees|;
    var index := Rows(s, Tokens);
    var after := LeadStep(s, c, act);
    assert AllOk(s, q);
    assert QuestionOk(q, Rows(after, Question(q))) by { RowsAfterKeeps(q, Rows(s, Question(q)), c, act); }
    var people := Issue(q, c.invitees, index, act.requested, act.links, n).0;
    assert InviteesOf(Rows(after, Question(q))) == people by { SameInvitees(q, c.invitees, index, act.requested, act.links); }
    assert InStep(q, people, Rows(after, Tokens), after.issued, index) by {
      FreshLinks(s.issued, c.invitees, act.requested, act.links, n);
      IssueKeeps(q, c.invitees, index, act.requested, act.links, n, s.issued);
    }
    FilesFrame(s, after);
    InvitedAllOk(s, after, q);
  }

  /** What fresh draws mean for a lead's request. */
  ghost predicate ActFresh(s: Sys, act: Act) {
    && (act.Invite? ==>
          && (forall p: Id :: act.links(p) !in s.issued)
          && (forall p: Id, p': Id :: act.links(p) == act.links(p') ==> p == p'))
    && (act.OnFile? ==> FileFresh(s, act.file))
  }

  lemma RowsAfterStay(q: Id, t: Table<Row, Doc>, c: Consultation, act: Act)
    requires QuestionOk(q, t) && QuestionIn(t) == Some(c) && !act.Delete? && !act.Invite?
    ensures var after := RowsAfter(t, c, act); after != map[] && InviteesOf(after) == c.invitees
  {
    assert Meta in RowsAfter(t, c, act);
  }

  lemma LeadStepKeeps(s: Sys, c: Consultation, act: Act)
    requires Inv(s) && QuestionAt(s, c.id) == Some(c) && ActFresh(s, act)
    ensures Inv(LeadStep(s, c, act))
  {
    var t := Rows(s, Question(c.id));
    assert AllOk(s, c.id);
    if act.Delete? {
      ForgetKeeps(s, {OfQuestion(c.id)});
    } else if act.OnFile? {
      FileActKeeps(s, OfQuestion(c.id), act.file);
    } else if act.Invite? {
      if CanInvite(c) { InviteKeeps(s, c, act); }
    } else {
      RowsAfterKeeps(c.id, t, c, act);
      RowsAfterStay(c.id, t, c, act);
      PutQuestionKeeps(s, c.id, RowsAfter(t, c, act));
      if act.Decide? && CanDecide(c, t, act) && c.workspaceId.Some? {
        var w := c.workspaceId.value;
        PutWorkspaceKeeps(Put(s, Question(c.id), RowsAfter(t, c, act)), w, Rows(s, Workspace(w))[Record(c.id) := RecordDoc(RecordOf(c, t, act))]);
      }
    }
  }

  lemma LoadKeeps(s: Sys, q: Id, now: int)
    requires Inv(s)
    ensures Inv(Load(s, q, now))
  {
    ForgetKeeps(s, {OfQuestion(q)});
  }

  lemma SeatsOk(asked: seq<AgentId>)
    ensures Unrepeated(Seated(AGENT_IDS, asked)) && ChairLast(Seated(AGENT_IDS, asked))
  {
    SeatedOnce(AGENT_IDS, asked);
  }

  lemma NewQuestionOk(d: Draft, now: int)
    requires 0 <= d.peopleWeight <= 100 && (!d.mode.AgentsDecide? ==> PeopleOk(d.people))
    ensures CardOk(d.id, NewQuestion(d, now))
    ensures forall i | 0 <= i < |NewQuestion(d, now).invitees| :: NewQuestion(d, now).invitees[i].tokenHash == None
  {
    SeatsOk(if d.agents.Some? then d.agents.value else AGENT_IDS);
  }

  lemma NewRowsKeep(s: Sys, q: Id, c: Consultation)
    requires Inv(s) && q !in s.ids && CardOk(q, c) && forall i | 0 <= i < |c.invitees| :: c.invitees[i].tokenHash == None
    ensures Inv(Put(s, Question(q), map[Meta := QuestionDoc(c)]).(ids := s.ids + {q}))
  {
    var after := Put(s, Question(q), map[Meta := QuestionDoc(c)]).(ids := s.ids + {q});
    FilesFrame(s, after);
    forall x
      ensures AllOk(after, x)
    {
      assert AllOk(s, x);
      if x == q { NoLinksYet(x, c.invitees, Rows(s, Tokens)); }
    }
  }

  lemma CreateKeeps(s: Sys, d: Draft, now: int)
    requires Inv(s) && d.id !in s.ids
    ensures Inv(Step(s, Create(d), now))
  {
    if DraftOk(s, d) {
      var c := NewQuestion(d, now);
      assert AllOk(s, d.id);
      assert Rows(s, Question(d.id)) == map[];
      NewQuestionOk(d, now);
      NewRowsKeep(s, d.id, c);
    }
  }

  lemma NoLinksYet(q: Id, invitees: seq<Invitee>, index: Table<Row, Doc>)
    requires IndexOk(q, [], index) && forall i | 0 <= i < |invitees| :: invitees[i].tokenHash == None
    ensures IndexOk(q, invitees, index)
  {
    forall p, h
      ensures LinksTo(index, q, p, h) <==> Holds(invitees, p, h)
    {
      assert !Holds([], p, h);
    }
  }

  lemma ResolvedIsAsked(s: Sys, link: Token)
    requires Inv(s) && Resolve(s, link).Some?
    ensures var (q, p) := Resolve(s, link).value;
            && QuestionAt(s, q).Some? && QuestionAt(s, q).value.id == q
            && exists i :: 0 <= i < |QuestionAt(s, q).value.invitees| && QuestionAt(s, q).value.invitees[i].personId == p
  {
    assert AllOk(s, Resolve(s, link).value.0);
  }

  lemma AnswerStepKeeps(s: Sys, q: Id, p: Id, d: Doc)
    requires Inv(s) && QuestionAt(s, q).Some? && QuestionAt(s, q).value.status.Open? && d.ResponseDoc?
    requires exists i :: 0 <= i < |QuestionAt(s, q).value.invitees| && QuestionAt(s, q).value.invitees[i].personId == p
    ensures Inv(Put(s, Question(q), Rows(s, Question(q))[Response(p) := d]))
  {
    var c, t := QuestionAt(s, q).value, Rows(s, Question(q));
    assert AllOk(s, q);
    var i :| 0 <= i < |c.invitees| && c.invitees[i].personId == p;
    AnswerKeeps(q, t, c, i, d);
    assert Meta in t[Response(p) := d];
    PutQuestionKeeps(s, q, t[Response(p) := d]);
  }

  lemma LoadLinkKeeps(s: Sys, link: Token, now: int)
    requires Inv(s)
    ensures Inv(LoadLink(s, link, now))
  {
    if Target(s, link).Some? { LoadKeeps(s, Target(s, link).value.consultationId, now); }
  }

  lemma AnswerRequestKeeps(s: Sys, r: Request, now: int)
    requires Inv(s) && r.Answer?
    ensures Inv(Step(s, r, now))
  {
    var loaded := LoadLink(s, r.link, now);
    LoadLinkKeeps(s, r.link, now);
    if Target(s, r.link).Some? && Resolve(loaded, r.link).Some? {
      ResolvedIsAsked(loaded, r.link);
      var (q, p) := Resolve(loaded, r.link).value;
      if QuestionAt(loaded, q).value.status.Open? { AnswerStepKeeps(loaded, q, p, ResponseDoc(r.position, r.answers)); }
    }
  }

  lemma LeadRequestKeeps(s: Sys, r: Request, now: int)
    requires Inv(s) && Fresh(s, r) && r.Lead?
    ensures Inv(Step(s, r, now))
  {
    var loaded := Load(s, r.question, now);
    LoadKeeps(s, r.question, now);
    var c := QuestionAt(loaded, r.question);
    if c.Some? {
      assert AllOk(loaded, r.question);
      LeadStepKeeps(loaded, c.value, r.act);
    }
  }

  lemma StepKeeps(s: Sys, r: Request, now: int)
    requires Inv(s) && Fresh(s, r)
    ensures Inv(Step(s, r, now))
  {
    match r {
      case Create(d) => CreateKeeps(s, d, now);
      case Lead(_, _, _) => LeadRequestKeeps(s, r, now);
      case FollowLink(link) => LoadLinkKeeps(s, link, now);
      case Answer(_, _, _) => AnswerRequestKeeps(s, r, now);
      case Sweep => ForgetKeeps(s, Expired(s, now));
      case OpenWorkspace(id, token) => PutWorkspaceKeeps(s, id, Rows(s, Workspace(id))[Meta := WorkspaceDoc(Digest(token))]);
      case WorkspaceFile(id, _, file) => FileActKeeps(s, OfWorkspace(id), file);
      case CloseWorkspace(id, _) => ForgetKeeps(s, {OfWorkspace(id)});
    }
  }

  /** The invariant holds in every state of every run. */
  lemma {:induction false} RunKeeps(s: Sys, events: seq<Event>)
    requires Inv(s) && Possible(s, events)
    ensures Inv(Run(s, events))
    decreases |events|
  {
    if events != [] {
      StepKeeps(s, events[0].request, events[0].now);
      RunKeeps(Step(s, events[0].request, events[0].now), events[1..]);
    }
  }
}
