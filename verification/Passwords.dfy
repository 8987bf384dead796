/** Which password opens an account, what every account request leaves behind, and what is saved for whom. */
module Passwords {
  import opened Basics
  import opened Sessions

  // ----- One request -------------------------------------------------------------------

  const FOURTEEN_DAYS: int := 1_209_600_000

  /** The state with this session started, and nothing else done to sessions. */
  predicate StartedIn(st: State, next: State, id: Id, email: Email, sid: Sid, now: int) {
    && next.records == st.records[(id, sid) := now + FOURTEEN_DAYS]
    && next.issued == st.issued[sid := Cookie(email, sid, now + FOURTEEN_DAYS)]
    && next.log == st.log + [Started(id, sid, now + FOURTEEN_DAYS)]
  }

  predicate SameSessions(st: State, next: State) { next.records == st.records && next.issued == st.issued && next.log == st.log }

  predicate SameAccounts(st: State, next: State) { next.accounts == st.accounts && next.ids == st.ids && next.data == st.data }

  /** One failure more is counted for this address, or it is locked with this one, and no other address is touched. */
  predicate CountsFailure(st: State, next: State, email: Email, now: int) {
    && email in next.throttles && next.throttles == st.throttles[email := next.throttles[email]]
    && var was, t := At(st.throttles, email), next.throttles[email];
       var counted := if was.Some? && now - was.value.windowStart <= 900_000 then was.value.fails else 0;
       if counted >= 9 then t == Throttle(0, now, now + 900_000)
       else && t.fails == counted + 1
            && t.windowStart == (if was.Some? && now - was.value.windowStart <= 900_000 then was.value.windowStart else now)
            && t.lockedUntil == if was.Some? then was.value.lockedUntil else 0
  }

  /** What a sign-in asks for: an address that is not locked, an account under it, and that account's password. */
  predicate Opens(st: State, email: Email, password: Password, now: int) {
    && email != "" && !(email in st.throttles && st.throttles[email].lockedUntil > now)
    && email in st.accounts && st.accounts[email].password == password
  }

  /**
   * A sign-in starts a session exactly when the password is the account's and
   * the address is not locked; otherwise it starts none, and unless it was
   * locked out it counts one failure.
   */
  lemma SignInStartsExactlyWhen(st: State, email: Email, password: Password, sid: Sid, now: int)
    requires AccountsOk(st)
    ensures var next := Step(st, SignIn(email, password, sid), now);
            && SameAccounts(st, next)
            && (Opens(st, email, password, now) ==>
                  StartedIn(st, next, st.accounts[email].id, email, sid, now) && next.throttles == st.throttles - {email})
            && (!Opens(st, email, password, now) ==>
                  && SameSessions(st, next)
                  && (if email == "" || (email in st.throttles && st.throttles[email].lockedUntil > now) then next == st
                      else CountsFailure(st, next, email, now)))
  {
  }

  /** A sign-up creates an account with the password given exactly when the input is valid and the address is free. */
  lemma SignUpCreatesExactlyWhen(st: State, email: Email, password: Password, valid: bool, id: Id, sid: Sid, now: int)
    ensures var next := Step(st, SignUp(email, password, valid, id, sid), now);
            if valid && email !in st.accounts
            then && next.accounts == st.accounts[email := Account(id, email, password)] && next.ids == st.ids + {id}
                 && StartedIn(st, next, id, email, sid, now) && next.throttles == st.throttles && next.data == st.data
            else next == st
  {
  }

  /**
   * A password change replaces the password exactly when someone signed in gives
   * the current one and the new one is acceptable; a wrong one counts as a failure.
   */
  lemma PasswordChangesExactlyWhen(st: State, r: Request, now: int)
    requires r.ChangePassword? && AccountsOk(st)
    ensures var next, me := Step(st, r, now), Admit(st, r.cookie, now);
            if me.Some? && me.value.password == r.current && r.valid
            then && next.accounts == st.accounts[me.value.email := Account(me.value.id, me.value.email, r.chosen)]
                 && next.data == st.data && next.throttles == st.throttles && next.ids == st.ids
            else SameAccounts(st, next) && SameSessions(st, next)
                 && (if me.Some? && me.value.password != r.current then CountsFailure(st, next, me.value.email, now) else next == st)
  {
  }

  /** What is saved is what was sent, for the account signed in and no other. */
  lemma SavedIsWhatWasSent(st: State, cookie: Option<Cookie>, saved: string, valid: bool, now: int)
    ensures var next, me := Step(st, SaveData(cookie, saved, valid), now), Admit(st, cookie, now);
            if me.Some? && valid then next == st.(data := st.data[me.value.id := saved]) else next == st
  {
  }

  /** Deleting asks for the password too. */
  lemma DeletesExactlyWhen(st: State, r: Request, now: int)
    requires r.DeleteAccount? && AccountsOk(st)
    ensures var next, me := Step(st, r, now), Admit(st, r.cookie, now);
            if me.Some? && me.value.password == r.password
            then && next.accounts == st.accounts - {me.value.email} && next.data == st.data - {me.value.id}
                 && next.throttles == st.throttles && next.ids == st.ids && next.issued == st.issued
            else next == st
  {
  }

  /** Whether the server signed this very cookie and it has not expired. */
  predicate IsGood(st: State, cookie: Cookie, now: int) { At(st.issued, cookie.sid) == Some(cookie) && now < cookie.expires }

  /** Signing out ends the cookie's own session: it is refused from then on, and every other cookie is judged as before. */
  lemma SignOutEndsExactly(st: State, cookie: Cookie, now: int, other: Cookie, at: int)
    requires Inv(st)
    ensures var next := Step(st, SignOut(Some(cookie)), now);
            && SameAccounts(st, next) && next.throttles == st.throttles && next.issued == st.issued
            && (IsGood(st, cookie, now) && other == cookie ==> Admit(next, Some(other), at) == None)
            && (other.sid != cookie.sid || !IsGood(st, cookie, now) ==> Admit(next, Some(other), at) == Admit(st, Some(other), at))
  {
  }

  /** Signing out everywhere ends every session of that account and no other's. */
  lemma SignOutEverywhereEndsExactly(st: State, cookie: Option<Cookie>, now: int, other: Cookie, at: int)
    requires Inv(st)
    ensures var next, me := Step(st, SignOutEverywhere(cookie), now), Admit(st, cookie, now);
            && SameAccounts(st, next) && next.throttles == st.throttles && next.issued == st.issued
            && Admit(next, Some(other), at) == if me.Some? && Admit(st, Some(other), at) == me then None else Admit(st, Some(other), at)
  {
    var me := Admit(st, cookie, now);
    if me.Some? {
      AdmittedAccount(st, cookie, now);
      AdmittedAccount(st, Some(other), at);
      assert forall r :: r in RecordsOf(st, me.value.id) <==> r in st.records && r.0 == me.value.id;
    }
  }

  /** Without a good cookie no one is admitted. */
  lemma OnlyGoodCookiesAdmit(st: State, cookie: Option<Cookie>, now: int)
    ensures Admit(st, cookie, now).Some? ==>
      && cookie.Some? && IsGood(st, cookie.value, now)
      && cookie.value.key in st.accounts && Admit(st, cookie, now).value == st.accounts[cookie.value.key]
  {
  }

  // ----- Runs ------------------------------------------------------------------------------

  /** Whether a request gives the account a password: a sign-up that creates it, or a change someone signed in to it makes. */
  predicate Gives(st: State, r: Request, now: int, id: Id) {
    || (r.SignUp? && r.valid && r.email !in st.accounts && r.id == id)
    || (r.ChangePassword? && r.valid
        && var me := Admit(st, r.cookie, now); me.Some? && me.value.id == id && me.value.password == r.current)
  }

  /** The password the requests last gave this account. */
  function LastGiven(st: State, rs: Requests, id: Id, before: Option<Password>): Option<Password>
    decreases |rs|
  {
    if rs == [] then before
    else
      var (r, now) := rs[0];
      LastGiven(Step(st, r, now), rs[1..], id,
                if !Gives(st, r, now, id) then before else if r.SignUp? then Some(r.password) else Some(r.chosen))
  }

  /** Every account has the password last given it. */
  ghost predicate PasswordIs(st: State, id: Id, password: Option<Password>) {
    forall k | k in st.accounts && st.accounts[k].id == id :: password == Some(st.accounts[k].password)
  }

  lemma StepKeepsPassword(st: State, r: Request, now: int, id: Id, before: Option<Password>)
    requires Inv(st) && Fresh(st, r) && PasswordIs(st, id, before)
    ensures PasswordIs(Step(st, r, now), id,
              if !Gives(st, r, now, id) then before else if r.SignUp? then Some(r.password) else Some(r.chosen))
  {
    AdmittedAccount(st, if r.SignUp? || r.SignIn? then None else r.cookie, now);
    match r {
      case SignUp(email, password, valid, i, sid) => SignUpCreatesExactlyWhen(st, email, password, valid, i, sid, now);
      case SignIn(email, password, sid) => SignInStartsExactlyWhen(st, email, password, sid, now);
      case ChangePassword(_, _, _, _, _) => PasswordChangesExactlyWhen(st, r, now);
      case DeleteAccount(_, _) => DeletesExactlyWhen(st, r, now);
      case _ =>
    }
  }

  lemma {:induction false} RunKeepsPassword(st: State, rs: Requests, id: Id, before: Option<Password>)
    requires Inv(st) && AllFresh(st, rs) && PasswordIs(st, id, before)
    ensures PasswordIs(Run(st, rs), id, LastGiven(st, rs, id, before))
    decreases |rs|
  {
    if rs != [] {
      var (r, now) := rs[0];
      StepKeeps(st, r, now);
      StepKeepsPassword(st, r, now, id, before);
      RunKeepsPassword(Step(st, r, now), rs[1..], id,
                       if !Gives(st, r, now, id) then before else if r.SignUp? then Some(r.password) else Some(r.chosen));
    }
  }

  /**
   * In every run, the password that signs in to an account whose address is not
   * locked is exactly the one last given by its sign-up or by a change someone
   * signed in to it made with the password of the time.
   */
  lemma LastPasswordSignsIn(rs: Requests, email: Email, password: Password, now: int)
    requires AllFresh(EMPTY, rs) && email in Run(EMPTY, rs).accounts
    requires email != "" && !(email in Run(EMPTY, rs).throttles && Run(EMPTY, rs).throttles[email].lockedUntil > now)
    ensures Opens(Run(EMPTY, rs), email, password, now)
       <==> LastGiven(EMPTY, rs, Run(EMPTY, rs).accounts[email].id, None) == Some(password)
  {
    RunKeepsPassword(EMPTY, rs, Run(EMPTY, rs).accounts[email].id, None);
  }

  // ----- Saved workspaces over runs ---------------------------------------------------------

  predicate Saves(st: State, r: Request, now: int, id: Id) {
    r.SaveData? && r.valid && Admit(st, r.cookie, now).Some? && Admit(st, r.cookie, now).value.id == id
  }

  /** What someone signed in to this account last saved. */
  function LastSaved(st: State, rs: Requests, id: Id, before: Option<string>): Option<string>
    decreases |rs|
  {
    if rs == [] then before
    else LastSaved(Step(st, rs[0].0, rs[0].1), rs[1..], id, if Saves(st, rs[0].0, rs[0].1, id) then Some(rs[0].0.saved) else before)
  }

  /** The saved workspace of an account that exists is this; one that has not been yet has none. */
  predicate SavedIs(st: State, id: Id, saved: Option<string>) {
    && (Exists(st, id) ==> At(st.data, id) == saved)
    && (id !in st.ids ==> saved == None && id !in st.data)
  }

  lemma StepKeepsExisting(st: State, r: Request, now: int, id: Id)
    requires Inv(st) && Fresh(st, r)
    ensures Exists(Step(st, r, now), id) ==> Exists(st, id) || (r.SignUp? && r.id == id)
    ensures st.ids <= Step(st, r, now).ids && (id in Step(st, r, now).ids ==> id in st.ids || (r.SignUp? && r.id == id))
  {
    AdmittedAccount(st, if r.SignUp? || r.SignIn? then None else r.cookie, now);
    if Exists(Step(st, r, now), id) {
      var k :| k in Step(st, r, now).accounts && Step(st, r, now).accounts[k].id == id;
      assert k in st.accounts && st.accounts[k].id == id ==> Exists(st, id);
    }
  }

  lemma StepKeepsSaved(st: State, r: Request, now: int, id: Id, before: Option<string>)
    requires Inv(st) && Fresh(st, r) && SavedIs(st, id, before)
    ensures SavedIs(Step(st, r, now), id, if Saves(st, r, now, id) then Some(r.saved) else before)
  {
    StepKeepsExisting(st, r, now, id);
    AdmittedAccount(st, if r.SignUp? || r.SignIn? then None else r.cookie, now);
    match r {
      case SignUp(email, password, valid, i, sid) => SignUpCreatesExactlyWhen(st, email, password, valid, i, sid, now);
      case SignIn(email, password, sid) => SignInStartsExactlyWhen(st, email, password, sid, now);
      case ChangePassword(_, _, _, _, _) => PasswordChangesExactlyWhen(st, r, now);
      case DeleteAccount(_, _) => DeletesExactlyWhen(st, r, now);
      case SaveData(cookie, saved, valid) => SavedIsWhatWasSent(st, cookie, saved, valid, now);
      case _ =>
    }
  }

  lemma {:induction false} RunKeepsSaved(st: State, rs: Requests, id: Id, before: Option<string>)
    requires Inv(st) && AllFresh(st, rs) && SavedIs(st, id, before)
    ensures SavedIs(Run(st, rs), id, LastSaved(st, rs, id, before))
    decreases |rs|
  {
    if rs != [] {
      var (r, now) := rs[0];
      StepKeeps(st, r, now);
      StepKeepsSaved(st, r, now, id, before);
      RunKeepsSaved(Step(st, r, now), rs[1..], id, if Saves(st, r, now, id) then Some(r.saved) else before);
    }
  }

  /** In every run the saved workspace of an account is what someone signed in to it last saved. */
  lemma SavedIsLastSaved(rs: Requests, id: Id)
    requires AllFresh(EMPTY, rs) && Exists(Run(EMPTY, rs), id)
    ensures At(Run(EMPTY, rs).data, id) == LastSaved(EMPTY, rs, id, None)
  {
    RunKeepsSaved(EMPTY, rs, id, None);
  }
}
