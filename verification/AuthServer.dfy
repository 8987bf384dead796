/** The account handlers as they run: rows of the store read, put and removed one after another. */
module AuthServer {
  import opened Basics
  import opened Store
  import S = Sessions

  datatype Part = Accounts | SessionsOf(id: S.Id) | Throttles

  datatype Key = AccountRow(email: S.Email) | DataRow(id: S.Id) | SessionRow(sid: S.Sid) | ThrottleRow(email: S.Email)

  datatype Doc =
    | AccountDoc(account: S.Account) | DataDoc(saved: string) | SessionDoc(expiresAt: int) | ThrottleDoc(throttle: S.Throttle)

  /** The document a state keeps in a place of the store. */
  function RowOf(st: S.State, p: Part, r: Key): Option<Doc> {
    match p
    case Accounts =>
      if r.AccountRow? && r.email in st.accounts then Some(AccountDoc(st.accounts[r.email]))
      else if r.DataRow? && r.id in st.data then Some(DataDoc(st.data[r.id]))
      else None
    case SessionsOf(id) => if r.SessionRow? && (id, r.sid) in st.records then Some(SessionDoc(st.records[(id, r.sid)])) else None
    case Throttles => if r.ThrottleRow? && r.email in st.throttles then Some(ThrottleDoc(st.throttles[r.email])) else None
  }

  /** The store holds the state's documents and no others. */
  ghost predicate Represents(tables: Tables<Part, Key, Doc>, st: S.State) {
    NoneEmpty(tables) && forall p, r :: At(TableAt(tables, p), r) == RowOf(st, p, r)
  }

  lemma RowPut(tables: Tables<Part, Key, Doc>, st: S.State, p: Part, r: Key, doc: Doc, next: S.State)
    requires Represents(tables, st) && RowOf(next, p, r) == Some(doc)
    requires forall q, k | !(q == p && k == r) :: RowOf(next, q, k) == RowOf(st, q, k)
    ensures Represents(WithTable(tables, p, TableAt(tables, p)[r := doc]), next)
  {
    var after := WithTable(tables, p, TableAt(tables, p)[r := doc]);
    forall q, k
      ensures At(TableAt(after, q), k) == RowOf(next, q, k)
    {
      assert At(TableAt(tables, q), k) == RowOf(st, q, k);
    }
  }

  lemma RowRemoved(tables: Tables<Part, Key, Doc>, st: S.State, p: Part, r: Key, next: S.State)
    requires Represents(tables, st) && RowOf(next, p, r) == None
    requires forall q, k | !(q == p && k == r) :: RowOf(next, q, k) == RowOf(st, q, k)
    ensures Represents(WithTable(tables, p, TableAt(tables, p) - {r}), next)
  {
    var after := WithTable(tables, p, TableAt(tables, p) - {r});
    forall q, k
      ensures At(TableAt(after, q), k) == RowOf(next, q, k)
    {
      assert At(TableAt(tables, q), k) == RowOf(st, q, k);
    }
  }

  lemma SessionsListed(tables: Tables<Part, Key, Doc>, st: S.State, id: S.Id)
    requires Represents(tables, st)
    ensures forall r | r in TableAt(tables, SessionsOf(id)) :: r.SessionRow? && (id, r.sid) in st.records
    ensures forall sid | (id, sid) in st.records :: SessionRow(sid) in TableAt(tables, SessionsOf(id))
  {
    var t := TableAt(tables, SessionsOf(id));
    forall r
      ensures r in t <==> RowOf(st, SessionsOf(id), r).Some?
    {
      assert At(t, r) == RowOf(st, SessionsOf(id), r);
    }
    assert forall sid | (id, sid) in st.records :: RowOf(st, SessionsOf(id), SessionRow(sid)).Some?;
  }

  // ----- The loop over an account's sessions --------------------------------------------

  ghost function Without(st: S.State, done: set<(S.Id, S.Sid)>): S.State { st.(records := st.records - done) }

  lemma NothingRemoved(st: S.State)
    ensures Without(st, {}) == st
  {
    assert st.records - {} == st.records;
  }

  lemma OneMoreRemoved(st: S.State, done: set<(S.Id, S.Sid)>, r: (S.Id, S.Sid))
    ensures Without(st, done).(records := Without(st, done).records - {r}) == Without(st, done + {r})
  {
    assert st.records - done - {r} == st.records - (done + {r});
  }

  /** The rows still to go are the account's sessions not yet done. */
  ghost predicate Ending(was: S.State, id: S.Id, left: set<Key>, done: set<(S.Id, S.Sid)>) {
    && (forall r | r in left :: r.SessionRow? && (id, r.sid) in was.records && (id, r.sid) !in done)
    && (forall r | r in done :: r in S.RecordsOf(was, id))
    && (forall sid | (id, sid) in was.records :: SessionRow(sid) in left || (id, sid) in done)
  }

  class Server {
    const store: MemoryStore<Part, Key, Doc>
    var issued: map<S.Sid, S.Cookie> // the cookies whose signature is the server's
    ghost var state: S.State

    constructor ()
      ensures fresh(store) && Valid() && state == S.EMPTY
    {
      store := new MemoryStore<Part, Key, Doc>();
      issued, state := map[], S.EMPTY;
    }

    ghost predicate Valid()
      reads this, store
    {
      Represents(store.data, state) && issued == state.issued
    }

    function Claim(cookie: Option<S.Cookie>, now: int): Option<S.Cookie>
      reads this, store
      ensures Valid() ==> Claim(cookie, now) == S.ReadSession(state, cookie, now)
    {
      if cookie.Some? && cookie.value.sid in issued && issued[cookie.value.sid] == cookie.value && cookie.value.expires > now
      then cookie else None
    }

    method FindAccount(email: S.Email) returns (account: Option<S.Account>)
      requires Valid()
      ensures account == At(state.accounts, email)
    {
      var doc := store.Get(Accounts, AccountRow(email));
      assert doc == RowOf(state, Accounts, AccountRow(email));
      return if doc.Some? && doc.value.AccountDoc? then Some(doc.value.account) else None;
    }

    method RequireAccount(cookie: Option<S.Cookie>, now: int) returns (account: Option<S.Account>)
      requires Valid()
      ensures account == S.Admit(state, cookie, now)
    {
      var claim := Claim(cookie, now);
      if claim == None { return None; }
      var found := FindAccount(claim.value.key);
      if found == None { return None; }
      var doc := store.Get(SessionsOf(found.value.id), SessionRow(claim.value.sid));
      assert doc == RowOf(state, SessionsOf(found.value.id), SessionRow(claim.value.sid));
      return if doc.Some? && doc.value.SessionDoc? && doc.value.expiresAt > now then found else None;
    }

    method SaveAccount(a: S.Account)
      requires Valid()
      modifies this`state, store
      ensures Valid() && state == old(state).(accounts := old(state).accounts[a.email := a])
    {
      ghost var next := state.(accounts := state.accounts[a.email := a]);
      RowPut(store.data, state, Accounts, AccountRow(a.email), AccountDoc(a), next);
      store.Put(Accounts, AccountRow(a.email), AccountDoc(a));
      state := next;
    }

    method StartSession(a: S.Account, sid: S.Sid, now: int)
      requires Valid()
      modifies this, store
      ensures Valid() && state == S.StartSession(old(state), a, sid, now)
    {
      var expires := now + S.SESSION_MS;
      ghost var next := S.StartSession(state, a, sid, now);
      RowPut(store.data, state, SessionsOf(a.id), SessionRow(sid), SessionDoc(expires), next);
      issued := issued[sid := S.Cookie(a.email, sid, expires)];
      store.Put(SessionsOf(a.id), SessionRow(sid), SessionDoc(expires));
      state := next;
    }

    method RemoveSession(id: S.Id, sid: S.Sid)
      requires Valid()
      modifies this`state, store
      ensures Valid() && state == old(state).(records := old(state).records - {(id, sid)})
    {
      ghost var next := state.(records := state.records - {(id, sid)});
      RowRemoved(store.data, state, SessionsOf(id), SessionRow(sid), next);
      store.Remove(SessionsOf(id), SessionRow(sid));
      state := next;
    }

    /** Every session row of the account goes, in whatever order the store lists them. */
    method EndAllSessions(id: S.Id) returns (ended: nat)
      requires Valid()
      modifies this`state, store
      ensures Valid() && state == S.EndAllSessions(old(state), id)
      ensures ended == |S.RecordsOf(old(state), id)|
    {
      ghost var was := state;
      var rows := store.List(SessionsOf(id));
      SessionsListed(store.data, state, id);
      var left := rows.Keys;
      ghost var done: set<(S.Id, S.Sid)> := {};
      ended := 0;
      NothingRemoved(state);
      while left != {}
        invariant Valid() && state == Without(was, done) && ended == |done|
        invariant Ending(was, id, left, done)
      {
        var row :| row in left;
        RemoveSession(id, row.sid);
        OneMoreRemoved(was, done, (id, row.sid));
        left, done, ended := left - {row}, done + {(id, row.sid)}, ended + 1;
      }
      assert done == S.RecordsOf(was, id);
      state := state.(log := state.log + [S.EndedAll(id)]);
    }

    method SaveThrottle(email: S.Email, t: S.Throttle)
      requires Valid()
      modifies this`state, store
      ensures Valid() && state == old(state).(throttles := old(state).throttles[email := t])
    {
      ghost var next := state.(throttles := state.throttles[email := t]);
      RowPut(store.data, state, Throttles, ThrottleRow(email), ThrottleDoc(t), next);
      store.Put(Throttles, ThrottleRow(email), ThrottleDoc(t));
      state := next;
    }

    method FindThrottle(email: S.Email) returns (t: Option<S.Throttle>)
      requires Valid()
      ensures t == At(state.throttles, email)
    {
      var doc := store.Get(Throttles, ThrottleRow(email));
      assert doc == RowOf(state, Throttles, ThrottleRow(email));
      return if doc.Some? && doc.value.ThrottleDoc? then Some(doc.value.throttle) else None;
    }

    method RecordFailedSignIn(email: S.Email, now: int)
      requires Valid()
      modifies this`state, store
      ensures Valid() && state == S.FailedSignIn(old(state), email, now)
    {
      var found := FindThrottle(email);
      var t := if found.Some? then found.value else S.Throttle(0, now, 0);
      if now - t.windowStart > S.LOCK_WINDOW_MS { t := t.(fails := 0, windowStart := now); }
      t := t.(fails := t.fails + 1);
      if t.fails >= S.LOCK_AFTER { t := S.Throttle(0, now, now + S.LOCK_FOR_MS); }
      SaveThrottle(email, t);
    }

    method ClearFailedSignIns(email: S.Email)
      requires Valid()
      modifies this`state, store
      ensures Valid() && state == old(state).(throttles := old(state).throttles - {email})
    {
      ghost var next := state.(throttles := state.throttles - {email});
      RowRemoved(store.data, state, Throttles, ThrottleRow(email), next);
      store.Remove(Throttles, ThrottleRow(email));
      state := next;
    }

    method SignUp(r: S.Request, now: int)
      requires r.SignUp? && Valid()
      modifies this, store
      ensures Valid() && state == S.Step(old(state), r, now)
    {
      if !r.valid { return; }
      var found := FindAccount(r.email);
      if found.Some? { return; }
      var created := S.Account(r.id, r.email, r.password);
      SaveAccount(created);
      state := state.(ids := state.ids + {r.id});
      StartSession(created, r.sid, now);
    }

    method SignIn(r: S.Request, now: int)
      requires r.SignIn? && Valid()
      modifies this, store
      ensures Valid() && state == S.Step(old(state), r, now)
    {
      if r.email == "" { return; }
      var throttle := FindThrottle(r.email);
      if throttle.Some? && throttle.value.lockedUntil > now { return; }
      var found := FindAccount(r.email);
      if found == None || found.value.password != r.password {
        RecordFailedSignIn(r.email, now);
        return;
      }
      ClearFailedSignIns(r.email);
      StartSession(found.value, r.sid, now);
    }

    method SignOut(cookie: Option<S.Cookie>, now: int)
      requires Valid()
      modifies this`state, store
      ensures Valid() && state == S.Step(old(state), S.SignOut(cookie), now)
    {
      var claim := Claim(cookie, now);
      if claim == None { return; }
      var found := FindAccount(claim.value.key);
      if found == None { return; }
      RemoveSession(found.value.id, claim.value.sid);
      state := state.(log := state.log + [S.Ended(found.value.id, claim.value.sid)]);
    }

    method SignOutEverywhere(cookie: Option<S.Cookie>, now: int)
      requires Valid()
      modifies this`state, store
      ensures Valid() && state == S.Step(old(state), S.SignOutEverywhere(cookie), now)
    {
      var me := RequireAccount(cookie, now);
      if me == None { return; }
      var _ := EndAllSessions(me.value.id);
    }

    method ChangePassword(r: S.Request, now: int)
      requires r.ChangePassword? && Valid()
      modifies this, store
      ensures Valid() && state == S.Step(old(state), r, now)
    {
      var me := RequireAccount(r.cookie, now);
      if me == None { return; }
      if me.value.password != r.current {
        RecordFailedSignIn(me.value.email, now);
        return;
      }
      if !r.valid { return; }
      var updated := me.value.(password := r.chosen);
      SaveAccount(updated);
      var _ := EndAllSessions(updated.id);
      StartSession(updated, r.sid, now);
    }

    method SaveData(cookie: Option<S.Cookie>, saved: string, valid: bool, now: int)
      requires Valid()
      modifies this`state, store
      ensures Valid() && state == S.Step(old(state), S.SaveData(cookie, saved, valid), now)
    {
      var me := RequireAccount(cookie, now);
      if me == None || !valid { return; }
      ghost var next := state.(data := state.data[me.value.id := saved]);
      RowPut(store.data, state, Accounts, DataRow(me.value.id), DataDoc(saved), next);
      store.Put(Accounts, DataRow(me.value.id), DataDoc(saved));
      state := next;
    }

    /** The sessions go first, then the saved workspace, then the account. */
    method DeleteAccount(r: S.Request, now: int)
      requires r.DeleteAccount? && Valid()
      modifies this`state, store
      ensures Valid() && state == S.Step(old(state), r, now)
    {
      var me := RequireAccount(r.cookie, now);
      if me == None || me.value.password != r.password { return; }
      var _ := EndAllSessions(me.value.id);
      RemoveData(me.value.id);
      RemoveAccount(me.value.email);
    }

    method RemoveData(id: S.Id)
      requires Valid()
      modifies this`state, store
      ensures Valid() && state == old(state).(data := old(state).data - {id})
    {
      ghost var next := state.(data := state.data - {id});
      RowRemoved(store.data, state, Accounts, DataRow(id), next);
      store.Remove(Accounts, DataRow(id));
      state := next;
    }

    method RemoveAccount(email: S.Email)
      requires Valid()
      modifies this`state, store
      ensures Valid() && state == old(state).(accounts := old(state).accounts - {email})
    {
      ghost var next := state.(accounts := state.accounts - {email});
      RowRemoved(store.data, state, Accounts, AccountRow(email), next);
      store.Remove(Accounts, AccountRow(email));
      state := next;
    }
  }
}
