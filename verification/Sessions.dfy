/**
 * Accounts and sessions: sign up, sign in, sign out here and everywhere, change
 * the password, delete the account. Signatures are unforgeable (a cookie is
 * valid only if the server issued it), password hashes are injective, and new
 * account and session ids are fresh.
 */
module Sessions {
  import opened Basics

  type Email = string // trimmed and in lower case; also the account's row key
  type Id = nat
  type Sid = nat
  type Password = string

  const SESSION_MS: int := 14 * 24 * 60 * 60 * 1000
  const LOCK_AFTER: int := 10
  const LOCK_WINDOW_MS: int := 15 * 60 * 1000
  const LOCK_FOR_MS: int := 15 * 60 * 1000

  datatype Account = Account(id: Id, email: Email, password: Password)

  datatype Cookie = Cookie(key: Email, sid: Sid, expires: int)

  datatype Throttle = Throttle(fails: int, windowStart: int, lockedUntil: int)

  /** What the server did to sessions, in order: a history that no step reads. */
  datatype Event = Started(id: Id, sid: Sid, expires: int) | Ended(id: Id, sid: Sid) | EndedAll(id: Id)

  /**
   * `records` are the session rows by account and session id; `issued` is every
   * cookie ever signed, by session id; `data` is each account's saved workspace.
   */
  datatype State = State(
    accounts: map<Email, Account>,
    records: map<(Id, Sid), int>,
    issued: map<Sid, Cookie>,
    throttles: map<Email, Throttle>,
    data: map<Id, string>,
    ids: set<Id>,
    log: seq<Event>)

  const EMPTY := State(map[], map[], map[], map[], map[], {}, [])

  // ----- Sessions -----------------------------------------------------------------

  function ReadSession(st: State, cookie: Option<Cookie>, now: int): Option<Cookie> {
    if cookie.Some? && cookie.value.sid in st.issued && st.issued[cookie.value.sid] == cookie.value && cookie.value.expires > now
    then cookie else None
  }

  function SessionIsLive(st: State, id: Id, sid: Sid, now: int): bool {
    (id, sid) in st.records && st.records[(id, sid)] > now
  }

  /** requireAccount: the account a request is admitted as, if any. */
  function Admit(st: State, cookie: Option<Cookie>, now: int): Option<Account> {
    var claim := ReadSession(st, cookie, now);
    if claim == None then None
    else
      var found := At(st.accounts, claim.value.key);
      if found.Some? && SessionIsLive(st, found.value.id, claim.value.sid, now) then found else None
  }

  function StartSession(st: State, a: Account, sid: Sid, now: int): State {
    st.(records := st.records[(a.id, sid) := now + SESSION_MS],
        issued := st.issued[sid := Cookie(a.email, sid, now + SESSION_MS)],
        log := st.log + [Started(a.id, sid, now + SESSION_MS)])
  }

  function EndSession(st: State, id: Id, sid: Sid): State {
    st.(records := st.records - {(id, sid)}, log := st.log + [Ended(id, sid)])
  }

  function RecordsOf(st: State, id: Id): set<(Id, Sid)> { set r | r in st.records && r.0 == id }

  function EndAllSessions(st: State, id: Id): State {
    st.(records := st.records - RecordsOf(st, id), log := st.log + [EndedAll(id)])
  }

  // ----- Sign-in throttling ----------------------------------------------------------

  function Locked(st: State, email: Email, now: int): bool {
    email in st.throttles && st.throttles[email].lockedUntil > now
  }

  function Failed(t: Option<Throttle>, now: int): Throttle {
    var t0 := if t.Some? then t.value else Throttle(0, now, 0);
    var t1 := if now - t0.windowStart > LOCK_WINDOW_MS then t0.(fails := 0, windowStart := now) else t0;
    if t1.fails + 1 >= LOCK_AFTER then Throttle(0, now, now + LOCK_FOR_MS) else t1.(fails := t1.fails + 1)
  }

  function FailedSignIn(st: State, email: Email, now: int): State {
    st.(throttles := st.throttles[email := Failed(At(st.throttles, email), now)])
  }

  // ----- Requests -----------------------------------------------------------------------

  /** `valid` is what the field checks and the password policy say of the input. */
  datatype Request =
    | SignUp(email: Email, password: Password, valid: bool, id: Id, sid: Sid)
    | SignIn(email: Email, password: Password, sid: Sid)
    | SignOut(cookie: Option<Cookie>)
    | SignOutEverywhere(cookie: Option<Cookie>)
    | ChangePassword(cookie: Option<Cookie>, current: Password, chosen: Password, valid: bool, sid: Sid)
    | SaveData(cookie: Option<Cookie>, saved: string, valid: bool)
    | DeleteAccount(cookie: Option<Cookie>, password: Password)

  /** New ids are fresh. */
  predicate Fresh(st: State, r: Request) {
    && (r.SignUp? ==> r.id !in st.ids)
    && (r.SignUp? || r.SignIn? || r.ChangePassword? ==> r.sid !in st.issued)
  }

  function SignUpStep(st: State, r: Request, now: int): State
    requires r.SignUp?
  {
    if !r.valid || r.email in st.accounts then st
    else
      var created := Account(r.id, r.email, r.password);
      StartSession(st.(accounts := st.accounts[r.email := created], ids := st.ids + {r.id}), created, r.sid, now)
  }

  function SignInStep(st: State, r: Request, now: int): State
    requires r.SignIn?
  {
    if r.email == "" || Locked(st, r.email, now) then st
    else
      var found := At(st.accounts, r.email);
      if found == None || found.value.password != r.password then FailedSignIn(st, r.email, now)
      else StartSession(st.(throttles := st.throttles - {r.email}), found.value, r.sid, now)
  }

  function SignOutStep(st: State, cookie: Option<Cookie>, now: int): State {
    var claim := ReadSession(st, cookie, now);
    if claim == None || claim.value.key !in st.accounts then st
    else EndSession(st, st.accounts[claim.value.key].id, claim.value.sid)
  }

  function ChangePasswordStep(st: State, r: Request, now: int): State
    requires r.ChangePassword?
  {
    var me := Admit(st, r.cookie, now);
    if me == None then st
    else if me.value.password != r.current then FailedSignIn(st, me.value.email, now)
    else if !r.valid then st
    else
      var updated := me.value.(password := r.chosen);
      StartSession(EndAllSessions(st.(accounts := st.accounts[updated.email := updated]), updated.id), updated, r.sid, now)
  }

  function DeleteStep(st: State, r: Request, now: int): State
    requires r.DeleteAccount?
  {
    var me := Admit(st, r.cookie, now);
    if me == None || me.value.password != r.password then st
    else
      var ended := EndAllSessions(st, me.value.id);
      ended.(data := ended.data - {me.value.id}, accounts := ended.accounts - {me.value.email})
  }

  function Step(st: State, r: Request, now: int): State {
    match r
    case SignUp(_, _, _, _, _) => SignUpStep(st, r, now)
    case SignIn(_, _, _) => SignInStep(st, r, now)
    case SignOut(cookie) => SignOutStep(st, cookie, now)
    case SignOutEverywhere(cookie) =>
      var me := Admit(st, cookie, now);
      if me == None then st else EndAllSessions(st, me.value.id)
    case ChangePassword(_, _, _, _, _) => ChangePasswordStep(st, r, now)
    case SaveData(cookie, saved, valid) =>
      var me := Admit(st, cookie, now);
      if me == None || !valid then st else st.(data := st.data[me.value.id := saved])
    case DeleteAccount(_, _) => DeleteStep(st, r, now)
  }

  /** A run: requests with the times they arrive, whatever those are. */
  type Requests = seq<(Request, int)>

  function Run(st: State, rs: Requests): State
    decreases |rs|
  {
    if rs == [] then st else Run(Step(st, rs[0].0, rs[0].1), rs[1..])
  }

  predicate AllFresh(st: State, rs: Requests)
    decreases |rs|
  {
    rs != [] ==> Fresh(st, rs[0].0) && AllFresh(Step(st, rs[0].0, rs[0].1), rs[1..])
  }

  // ----- What every run keeps --------------------------------------------------------------

  /** The session's expiry according to the history: started, and not ended since. */
  function SessionIn(log: seq<Event>, id: Id, sid: Sid): Option<int> {
    if log == [] then None
    else
      var e := log[|log| - 1];
      if e == Ended(id, sid) || e == EndedAll(id) then None
      else if e.Started? && e.id == id && e.sid == sid then Some(e.expires)
      else SessionIn(log[..|log| - 1], id, sid)
  }

  ghost predicate AccountsOk(st: State) {
    && (forall k | k in st.accounts :: st.accounts[k].email == k && st.accounts[k].id in st.ids)
    && (forall j, k | j in st.accounts && k in st.accounts && st.accounts[j].id == st.accounts[k].id :: j == k)
  }

  /** A session record belongs to an account that exists, and its cookie names that account. */
  ghost predicate RecordsOk(st: State) {
    forall r | r in st.records ::
      && r.1 in st.issued
      && var c := st.issued[r.1]; c.sid == r.1 && c.expires == st.records[r] && c.key in st.accounts && st.accounts[c.key].id == r.0
  }

  ghost predicate HistoryOk(st: State) {
    forall id, sid :: At(st.records, (id, sid)) == SessionIn(st.log, id, sid)
  }

  ghost predicate Inv(st: State) { AccountsOk(st) && RecordsOk(st) && HistoryOk(st) }

  lemma LastEvent(log: seq<Event>, e: Event, id: Id, sid: Sid)
    ensures SessionIn(log + [e], id, sid) ==
      if e == Ended(id, sid) || e == EndedAll(id) then None
      else if e.Started? && e.id == id && e.sid == sid then Some(e.expires)
      else SessionIn(log, id, sid)
  {
    assert (log + [e])[..|log + [e]| - 1] == log;
  }

  lemma StartKeeps(st: State, a: Account, sid: Sid, now: int)
    requires Inv(st) && sid !in st.issued && a.email in st.accounts && st.accounts[a.email] == a
    ensures Inv(StartSession(st, a, sid, now))
  {
    var next := StartSession(st, a, sid, now);
    forall id, s ensures At(next.records, (id, s)) == SessionIn(next.log, id, s) {
      LastEvent(st.log, Started(a.id, sid, now + SESSION_MS), id, s);
    }
  }

  lemma EndKeeps(st: State, id: Id, sid: Sid)
    requires Inv(st)
    ensures Inv(EndSession(st, id, sid))
  {
    var next := EndSession(st, id, sid);
    forall i: Id, s: Sid ensures At(next.records, (i, s)) == SessionIn(next.log, i, s) {
      LastEvent(st.log, Ended(id, sid), i, s);
    }
  }

  lemma EndAllKeeps(st: State, id: Id)
    requires Inv(st)
    ensures Inv(EndAllSessions(st, id))
    ensures forall s: Sid :: (id, s) !in EndAllSessions(st, id).records
  {
    var next := EndAllSessions(st, id);
    forall i: Id, s: Sid ensures At(next.records, (i, s)) == SessionIn(next.log, i, s) {
      LastEvent(st.log, EndedAll(id), i, s);
      assert (i, s) in RecordsOf(st, id) <==> (i, s) in st.records && i == id;
    }
  }

  lemma AdmittedAccount(st: State, cookie: Option<Cookie>, now: int)
    requires Inv(st)
    ensures var me := Admit(st, cookie, now);
            me.Some? ==> me.value.email in st.accounts && st.accounts[me.value.email] == me.value
  {
  }

  lemma SignUpKeeps(st: State, r: Request, now: int)
    requires r.SignUp? && Inv(st) && Fresh(st, r)
    ensures Inv(SignUpStep(st, r, now))
  {
    if r.valid && r.email !in st.accounts {
      var created := Account(r.id, r.email, r.password);
      var added := st.(accounts := st.accounts[r.email := created], ids := st.ids + {r.id});
      assert HistoryOk(added);
      StartKeeps(added, created, r.sid, now);
    }
  }

  lemma ThrottlesDoNotMatter(st: State, throttles: map<Email, Throttle>)
    requires Inv(st)
    ensures Inv(st.(throttles := throttles))
  {
    assert HistoryOk(st.(throttles := throttles));
  }

  lemma SignInKeeps(st: State, r: Request, now: int)
    requires r.SignIn? && Inv(st) && Fresh(st, r)
    ensures Inv(SignInStep(st, r, now))
  {
    ThrottlesDoNotMatter(st, FailedSignIn(st, r.email, now).throttles);
    ThrottlesDoNotMatter(st, st.throttles - {r.email});
    if r.email in st.accounts { StartKeeps(st.(throttles := st.throttles - {r.email}), st.accounts[r.email], r.sid, now); }
  }

  lemma PasswordReplaced(st: State, me: Account, chosen: Password)
    requires Inv(st) && me.email in st.accounts && st.accounts[me.email] == me
    ensures Inv(st.(accounts := st.accounts[me.email := me.(password := chosen)]))
  {
    assert HistoryOk(st.(accounts := st.accounts[me.email := me.(password := chosen)]));
  }

  lemma ChangePasswordKeeps(st: State, r: Request, now: int)
    requires r.ChangePassword? && Inv(st) && Fresh(st, r)
    ensures Inv(ChangePasswordStep(st, r, now))
  {
    AdmittedAccount(st, r.cookie, now);
    var me := Admit(st, r.cookie, now);
    if me.Some? {
      ThrottlesDoNotMatter(st, FailedSignIn(st, me.value.email, now).throttles);
      var updated := me.value.(password := r.chosen);
      var changed := st.(accounts := st.accounts[updated.email := updated]);
      PasswordReplaced(st, me.value, r.chosen);
      EndAllKeeps(changed, updated.id);
      StartKeeps(EndAllSessions(changed, updated.id), updated, r.sid, now);
    }
  }

  lemma DeleteKeeps(st: State, r: Request, now: int)
    requires r.DeleteAccount? && Inv(st)
    ensures Inv(DeleteStep(st, r, now))
  {
    AdmittedAccount(st, r.cookie, now);
    var me := Admit(st, r.cookie, now);
    if me.Some? {
      EndAllKeeps(st, me.value.id);
      assert HistoryOk(DeleteStep(st, r, now));
    }
  }

  lemma StepKeeps(st: State, r: Request, now: int)
    requires Inv(st) && Fresh(st, r)
    ensures Inv(Step(st, r, now))
  {
    match r {
      case SignUp(_, _, _, _, _) => SignUpKeeps(st, r, now);
      case SignIn(_, _, _) => SignInKeeps(st, r, now);
      case SignOut(cookie) =>
        var claim := ReadSession(st, cookie, now);
        if claim.Some? && claim.value.key in st.accounts { EndKeeps(st, st.accounts[claim.value.key].id, claim.value.sid); }
      case SignOutEverywhere(cookie) =>
        var me := Admit(st, cookie, now);
        if me.Some? { EndAllKeeps(st, me.value.id); }
      case ChangePassword(_, _, _, _, _) => ChangePasswordKeeps(st, r, now);
      case SaveData(_, _, _) => assert HistoryOk(Step(st, r, now));
      case DeleteAccount(_, _) => DeleteKeeps(st, r, now);
    }
  }

  lemma {:induction false} RunKeeps(st: State, rs: Requests)
    requires Inv(st) && AllFresh(st, rs)
    ensures Inv(Run(st, rs))
    decreases |rs|
  {
    if rs != [] {
      StepKeeps(st, rs[0].0, rs[0].1);
      RunKeeps(Step(st, rs[0].0, rs[0].1), rs[1..]);
    }
  }

  // ----- Who is admitted --------------------------------------------------------------------

  /** An event after which an earlier start of this session no longer counts. */
  predicate Closes(e: Event, id: Id, sid: Sid) {
    e == Ended(id, sid) || e == EndedAll(id) || (e.Started? && e.id == id && e.sid == sid)
  }

  predicate OpenSince(log: seq<Event>, id: Id, sid: Sid, now: int, i: nat) {
    && i < |log| && log[i].Started? && log[i].id == id && log[i].sid == sid && log[i].expires > now
    && forall j | i < j < |log| :: !Closes(log[j], id, sid)
  }

  /** The account started this session, it has not expired, and nothing ended it afterwards. */
  ghost predicate StillOpen(log: seq<Event>, id: Id, sid: Sid, now: int) { exists i: nat :: OpenSince(log, id, sid, now, i) }

  lemma {:induction false} OpenInHistory(log: seq<Event>, id: Id, sid: Sid, now: int)
    ensures StillOpen(log, id, sid, now) <==> SessionIn(log, id, sid).Some? && SessionIn(log, id, sid).value > now
  {
    if log != [] {
      var init, e := log[..|log| - 1], log[|log| - 1];
      OpenInHistory(init, id, sid, now);
      forall i: nat ensures OpenSince(log, id, sid, now, i) <==>
        if Closes(e, id, sid) then i == |init| && e.Started? && e.expires > now else OpenSince(init, id, sid, now, i)
      {
        if i < |init| { assert log[i] == init[i] && log[|init|] == e; }
      }
      if Closes(e, id, sid) {
        assert StillOpen(log, id, sid, now) <==> OpenSince(log, id, sid, now, |init|);
      }
    }
  }

  predicate AdmittedAs(st: State, cookie: Cookie, id: Id, now: int) {
    Admit(st, Some(cookie), now).Some? && Admit(st, Some(cookie), now).value.id == id
  }

  /**
   * In every run, a cookie is admitted as an account exactly when the server
   * signed it, it has not expired, and that very account started its session and
   * no later sign-out, sign-out everywhere, password change or deletion ended it.
   */
  lemma AdmittedExactlyWhileOpen(rs: Requests, cookie: Cookie, id: Id, now: int)
    requires AllFresh(EMPTY, rs)
    ensures AdmittedAs(Run(EMPTY, rs), cookie, id, now)
       <==> ReadSession(Run(EMPTY, rs), Some(cookie), now).Some? && StillOpen(Run(EMPTY, rs).log, id, cookie.sid, now)
  {
    var st := Run(EMPTY, rs);
    RunKeeps(EMPTY, rs);
    OpenInHistory(st.log, id, cookie.sid, now);
    assert At(st.records, (id, cookie.sid)) == SessionIn(st.log, id, cookie.sid);
  }

  /** A session started when none of the account's is left is its only one. */
  lemma OnlyNewSession(st: State, a: Account, sid: Sid, now: int, cookie: Cookie, later: int)
    requires Inv(st) && a.email in st.accounts && st.accounts[a.email] == a && RecordsOf(st, a.id) == {} && sid !in st.issued
    ensures var next := StartSession(st, a, sid, now);
            && RecordsOf(next, a.id) == {(a.id, sid)}
            && (AdmittedAs(next, cookie, a.id, later) <==> cookie == Cookie(a.email, sid, now + SESSION_MS) && later < now + SESSION_MS)
  {
    var next := StartSession(st, a, sid, now);
    forall r ensures r in RecordsOf(next, a.id) <==> r == (a.id, sid) {
      assert r in next.records && r != (a.id, sid) ==> r in st.records;
      assert r in st.records && r.0 == a.id ==> r in RecordsOf(st, a.id);
    }
    assert AdmittedAs(next, cookie, a.id, later) ==> (a.id, cookie.sid) in RecordsOf(next, a.id);
  }

  /** After a password change exactly one of the account's sessions is left, the one just started. */
  lemma OneSessionAfterPasswordChange(rs: Requests, r: Request, now: int, cookie: Cookie, later: int)
    requires AllFresh(EMPTY, rs) && r.ChangePassword? && Fresh(Run(EMPTY, rs), r)
    requires var me := Admit(Run(EMPTY, rs), r.cookie, now); me.Some? && me.value.password == r.current && r.valid
    ensures var me := Admit(Run(EMPTY, rs), r.cookie, now).value;
            var next := Step(Run(EMPTY, rs), r, now);
            && RecordsOf(next, me.id) == {(me.id, r.sid)}
            && (AdmittedAs(next, cookie, me.id, later) <==> cookie == Cookie(me.email, r.sid, now + SESSION_MS) && later < now + SESSION_MS)
  {
    var st := Run(EMPTY, rs);
    RunKeeps(EMPTY, rs);
    var me := Admit(st, r.cookie, now).value;
    var updated := me.(password := r.chosen);
    AdmittedAccount(st, r.cookie, now);
    var changed := st.(accounts := st.accounts[updated.email := updated]);
    PasswordReplaced(st, me, r.chosen);
    EndAllKeeps(changed, updated.id);
    var ended := EndAllSessions(changed, updated.id);
    assert RecordsOf(ended, updated.id) == {};
    OnlyNewSession(ended, updated, r.sid, now, cookie, later);
  }

  /** A cookie whose session has no record: signed out, ended, or of a deleted account. */
  ghost predicate Dead(st: State, cookie: Cookie) {
    cookie.sid in st.issued && forall id :: (id, cookie.sid) !in st.records
  }

  lemma DeadStep(st: State, r: Request, now: int, cookie: Cookie)
    requires Fresh(st, r) && Dead(st, cookie)
    ensures Dead(Step(st, r, now), cookie)
  {
  }

  /**
   * Nothing brings a session back: once its record is gone its cookie is refused
   * for ever, whatever happens next, even when an account is created again for
   * the same email address.
   */
  lemma {:induction false} DeadCookiesStayDead(st: State, rs: Requests, cookie: Cookie, now: int)
    requires AllFresh(st, rs) && Dead(st, cookie)
    ensures Dead(Run(st, rs), cookie) && Admit(Run(st, rs), Some(cookie), now) == None
    decreases |rs|
  {
    if rs != [] {
      DeadStep(st, rs[0].0, rs[0].1, cookie);
      DeadCookiesStayDead(Step(st, rs[0].0, rs[0].1), rs[1..], cookie, now);
    }
  }

  /** Deleting an account kills every cookie it was ever admitted with. */
  lemma DeletionKillsCookies(rs: Requests, r: Request, now: int, cookie: Cookie, at: int)
    requires AllFresh(EMPTY, rs) && r.DeleteAccount?
    requires var st := Run(EMPTY, rs);
             && Admit(st, r.cookie, now).Some? && Admit(st, r.cookie, now).value.password == r.password
             && Admit(st, Some(cookie), at) == Admit(st, r.cookie, now)
    ensures Dead(Step(Run(EMPTY, rs), r, now), cookie)
  {
    var st := Run(EMPTY, rs);
    RunKeeps(EMPTY, rs);
    var id := Admit(st, r.cookie, now).value.id;
    EndAllKeeps(st, id);
    assert (id, cookie.sid) in st.records;
    forall i ensures (i, cookie.sid) !in Step(st, r, now).records {
      assert (i, cookie.sid) in st.records ==> i == id;
    }
  }

  // ----- Saved workspaces ---------------------------------------------------------------------

  predicate Exists(st: State, id: Id) { exists k :: k in st.accounts && st.accounts[k].id == id }

  /** Saved data belongs to an account that exists. */
  ghost predicate DataOk(st: State) { forall id | id in st.data :: Exists(st, id) }

  lemma StepKeepsAccount(st: State, r: Request, now: int, id: Id)
    requires Inv(st) && Exists(st, id) && id in Step(st, r, now).data
    ensures Exists(Step(st, r, now), id)
  {
    var next := Step(st, r, now);
    AdmittedAccount(st, if r.SignUp? || r.SignIn? then None else r.cookie, now);
    var k :| k in st.accounts && st.accounts[k].id == id;
    assert k in next.accounts ==> next.accounts[k].id == id;
  }

  lemma StepKeepsData(st: State, r: Request, now: int)
    requires Inv(st) && DataOk(st)
    ensures DataOk(Step(st, r, now))
  {
    var next := Step(st, r, now);
    forall id | id in next.data
      ensures Exists(next, id)
    {
      if r.SaveData? && id !in st.data {
        var me := Admit(st, r.cookie, now).value;
        AdmittedAccount(st, r.cookie, now);
        assert next.accounts[me.email].id == id;
      } else {
        StepKeepsAccount(st, r, now, id);
      }
    }
  }

  lemma {:induction false} RunKeepsData(st: State, rs: Requests)
    requires Inv(st) && DataOk(st) && AllFresh(st, rs)
    ensures DataOk(Run(st, rs))
    decreases |rs|
  {
    if rs != [] {
      StepKeeps(st, rs[0].0, rs[0].1);
      StepKeepsData(st, rs[0].0, rs[0].1);
      RunKeepsData(Step(st, rs[0].0, rs[0].1), rs[1..]);
    }
  }

  /**
   * In every reachable state no session record and no saved workspace outlives
   * its account, so deleting an account leaves nothing under its id.
   */
  lemma NothingOutlivesAccounts(rs: Requests, id: Id)
    requires AllFresh(EMPTY, rs)
    ensures var st := Run(EMPTY, rs);
            (id in st.data ==> Exists(st, id)) && (forall sid :: (id, sid) in st.records ==> Exists(st, id))
  {
    RunKeeps(EMPTY, rs);
    RunKeepsData(EMPTY, rs);
    var st := Run(EMPTY, rs);
    forall sid | (id, sid) in st.records
      ensures Exists(st, id)
    {
      assert st.accounts[st.issued[sid].key].id == id;
    }
  }

  /** A new account starts with no saved workspace, even under the address of a deleted one. */
  lemma NewAccountStartsEmpty(rs: Requests, r: Request, now: int)
    requires AllFresh(EMPTY, rs) && r.SignUp? && Fresh(Run(EMPTY, rs), r)
    ensures r.id !in Step(Run(EMPTY, rs), r, now).data
  {
    NothingOutlivesAccounts(rs, r.id);
    RunKeeps(EMPTY, rs);
  }

  /** A deletion takes the account's row, its saved workspace and all its sessions. */
  lemma DeletionLeavesNothing(rs: Requests, r: Request, now: int)
    requires AllFresh(EMPTY, rs) && r.DeleteAccount?
    requires var me := Admit(Run(EMPTY, rs), r.cookie, now); me.Some? && me.value.password == r.password
    ensures var id, next := Admit(Run(EMPTY, rs), r.cookie, now).value.id, Step(Run(EMPTY, rs), r, now);
            !Exists(next, id) && id !in next.data && forall sid :: (id, sid) !in next.records
  {
    RunKeeps(EMPTY, rs);
    AdmittedAccount(Run(EMPTY, rs), r.cookie, now);
  }
}
