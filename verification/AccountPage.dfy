/**
 * One browser page over its local storage: reading, writing and clearing one
 * user's entries among everyone's keys, saving, activating an account and
 * signing out.
 */
module AccountPage {
  import opened Basics
  import opened Fingerprints
  import opened Letters
  import opened AccountSync

  // ----- Keys --------------------------------------------------------------

  type Items = map<string, Text>

  const ANON := "anon"

  function Prefix(user: string): string { "sagehalpin_" + user + "_" }

  predicate IsName(name: string) {
    1 <= |name| <= 80 && forall c | c in name :: 'a' <= c <= 'z' || '0' <= c <= '9' || c == '_'
  }

  predicate Named(data: Copy) { forall n | n in data :: IsName(n) }

  /** The name under which a key belongs to a user, if it does. */
  function NameOf(user: string, key: string): Option<Name> {
    var p := Prefix(user);
    if p <= key && IsName(key[|p|..]) then Some(key[|p|..]) else None
  }

  function EntriesOf(items: Items, user: string): (data: Copy)
    ensures Named(data)
  {
    map n | n in (set k | k in items && NameOf(user, k).Some? :: NameOf(user, k).value) && Prefix(user) + n in items
      :: items[Prefix(user) + n]
  }

  function Cleared(items: Items, user: string): Items {
    map k | k in items && !(Prefix(user) <= k) :: items[k]
  }

  function Written(items: Items, user: string, data: Copy): Items {
    map k | k in items.Keys + (set n | n in data :: Prefix(user) + n) &&
            ((NameOf(user, k).Some? && NameOf(user, k).value in data) || k in items)
      :: if NameOf(user, k).Some? && NameOf(user, k).value in data then data[NameOf(user, k).value] else items[k]
  }

  const NAME_LETTERS: string := LOWER_LETTERS + DIGITS + "_"

  lemma NameLettersAre(c: char)
    ensures 'a' <= c <= 'z' || '0' <= c <= '9' || c == '_' <==> c in NAME_LETTERS
  {
    hide LOWER_LETTERS, DIGITS;
    LowerLettersAre(c);
    DigitsAre(c);
    InJoined(c, LOWER_LETTERS + DIGITS, "_");
    InJoined(c, LOWER_LETTERS, DIGITS);
  }

  /** A name has one to eighty of these letters. */
  lemma NamesAre(name: string)
    ensures IsName(name) <==> 1 <= |name| <= 80 && forall c | c in name :: c in NAME_LETTERS
  {
    hide NAME_LETTERS;
    forall c | c in name
      ensures 'a' <= c <= 'z' || '0' <= c <= '9' || c == '_' <==> c in NAME_LETTERS
    {
      NameLettersAre(c);
    }
  }

  /** Each entry is kept under its user's name and its own. */
  lemma EntriesAreUnderTheirKeys(items: Items, user: string, data: Copy, name: Name)
    requires name in data && IsName(name)
    ensures At(Written(items, user, data), "sagehalpin_" + user + "_" + name) == Some(data[name])
    ensures ("sagehalpin_" + user + "_" + name) !in Cleared(items, user)
  {
    NameOfKey(user, name);
    assert Prefix(user) <= Prefix(user) + name;
  }

  lemma EntryAt(items: Items, user: string, name: Name)
    ensures At(EntriesOf(items, user), name) == if IsName(name) then At(items, Prefix(user) + name) else None
  {
    var key := Prefix(user) + name;
    assert key[|Prefix(user)|..] == name;
    if IsName(name) && key in items { assert NameOf(user, key) == Some(name); }
  }

  lemma NameOfKey(user: string, name: Name)
    ensures NameOf(user, Prefix(user) + name) == if IsName(name) then Some(name) else None
  {
    assert (Prefix(user) + name)[|Prefix(user)|..] == name;
  }

  /** Clearing a user's keys and writing a copy leaves exactly that copy. */
  lemma WrittenIsReadBack(items: Items, user: string, data: Copy)
    requires Named(data)
    ensures EntriesOf(Written(Cleared(items, user), user, data), user) == data
  {
    var after := Written(Cleared(items, user), user, data);
    forall n ensures At(EntriesOf(after, user), n) == At(data, n) {
      EntryAt(after, user, n);
      NameOfKey(user, n);
    }
    SameEntries(EntriesOf(after, user), data);
  }

  /** Neither user's prefix begins the other's. */
  predicate Apart(user: string, other: string) {
    !(Prefix(user) <= Prefix(other)) && !(Prefix(other) <= Prefix(user))
  }

  lemma PrefixesNest(p: string, q: string, key: string)
    ensures p <= key && q <= key ==> p <= q || q <= p
  {
  }

  lemma ApartKeys(user: string, other: string, key: string)
    requires Apart(user, other) && Prefix(user) <= key
    ensures !(Prefix(other) <= key)
  {
    PrefixesNest(Prefix(user), Prefix(other), key);
  }

  /** Account ids have one length, so different accounts never share keys. */
  lemma SameLengthIdsAreApart(user: string, other: string)
    requires |user| == |other| && user != other
    ensures Apart(user, other)
  {
    var p, q := Prefix(user), Prefix(other);
    var head := |"sagehalpin_"|;
    assert p[head..head + |user|] == user && q[head..head + |other|] == other;
  }

  /** Replacing one user's entries leaves every other user's alone. */
  lemma OthersAreKept(items: Items, user: string, data: Copy, other: string)
    requires Apart(user, other)
    ensures EntriesOf(Cleared(items, user), other) == EntriesOf(items, other)
    ensures EntriesOf(Written(items, user, data), other) == EntriesOf(items, other)
  {
    var cleared, written := Cleared(items, user), Written(items, user, data);
    forall n
      ensures At(EntriesOf(cleared, other), n) == At(EntriesOf(items, other), n)
      ensures At(EntriesOf(written, other), n) == At(EntriesOf(items, other), n)
    {
      EntryAt(items, other, n);
      EntryAt(cleared, other, n);
      EntryAt(written, other, n);
      var key := Prefix(other) + n;
      assert Prefix(other) <= key;
      ApartKeys(other, user, key);
    }
    SameEntries(EntriesOf(cleared, other), EntriesOf(items, other));
    SameEntries(EntriesOf(written, other), EntriesOf(items, other));
  }

  lemma ShownIsNamed(server: Copy, b: Browser)
    requires Named(server) && Named(b.local)
    ensures Named(Shown(server, b))
  {
  }

  // ----- The page ------------------------------------------------------------

  class AccountServer {
    var data: Copy

    constructor (start: Copy)
      ensures data == start
    {
      data := start;
    }
  }

  class Page {
    var items: Items // local storage, all users together
    var baselines: map<string, Prints>
    var lastSaved: Option<Copy>
    var user: Option<string>
    ghost var synced: map<string, Copy> // the data behind each baseline

    constructor ()
      ensures items == map[] && baselines == map[] && lastSaved == None && user == None
    {
      items, baselines, lastSaved, user, synced := map[], map[], None, None, map[];
    }

    ghost function View(id: string): Browser
      reads this
    {
      Browser(EntriesOf(items, id), At(baselines, id), lastSaved, if id in synced then synced[id] else map[])
    }

    method LocalEntries(id: string) returns (data: Copy)
      ensures data == EntriesOf(items, id)
    {
      data := map[];
      var rest := items.Keys;
      while rest != {}
        invariant rest <= items.Keys
        invariant forall n :: At(data, n) == if IsName(n) && Prefix(id) + n !in rest then At(items, Prefix(id) + n) else None
      {
        var key :| key in rest;
        var name := NameOf(id, key);
        if name.Some? {
          assert key == Prefix(id) + name.value;
          data := data[name.value := items[key]];
        }
        forall n | IsName(n) && Prefix(id) + n == key ensures name == Some(n) {
          NameOfKey(id, n);
        }
        rest := rest - {key};
      }
      forall n ensures At(data, n) == At(EntriesOf(items, id), n) {
        EntryAt(items, id, n);
      }
      SameEntries(data, EntriesOf(items, id));
    }

    method ClearLocal(id: string)
      modifies this`items
      ensures items == Cleared(old(items), id)
    {
      var keys := set k | k in items && Prefix(id) <= k;
      while keys != {}
        invariant items == map k | k in old(items) && (!(Prefix(id) <= k) || k in keys) :: old(items)[k]
      {
        var key :| key in keys;
        items := items - {key};
        keys := keys - {key};
      }
    }

    static function WrittenAt(items: Items, id: string, data: Copy, waiting: set<Name>, key: string): Option<Text> {
      var n := NameOf(id, key);
      if n.Some? && n.value in data && n.value !in waiting then Some(data[n.value]) else At(items, key)
    }

    method WriteLocal(id: string, data: Copy)
      modifies this`items
      ensures items == Written(old(items), id, data)
    {
      var rest := data.Keys;
      while rest != {}
        invariant rest <= data.Keys
        invariant forall k :: At(items, k) == WrittenAt(old(items), id, data, rest, k)
      {
        var name :| name in rest;
        NameOfKey(id, name);
        ghost var before := items;
        if IsName(name) { items := items[Prefix(id) + name := data[name]]; }
        forall k ensures At(items, k) == WrittenAt(old(items), id, data, rest - {name}, k) {
          assert At(before, k) == WrittenAt(old(items), id, data, rest, k);
          if NameOf(id, k) == Some(name) { assert k == Prefix(id) + name; }
        }
        rest := rest - {name};
      }
      forall k ensures At(items, k) == At(Written(old(items), id, data), k) {
        if NameOf(id, k).Some? { assert k == Prefix(id) + NameOf(id, k).value; }
      }
      SameEntries(items, Written(old(items), id, data));
    }

    static method PrintAll(data: Copy) returns (prints: Prints)
      ensures prints == PrintsOf(data)
    {
      prints := map[];
      var rest := data.Keys;
      while rest != {}
        invariant rest <= data.Keys && prints.Keys == data.Keys - rest
        invariant forall n | n in prints :: prints[n] == FingerprintOf(data[n])
      {
        var name :| name in rest;
        var fingerprint := Fingerprint(data[name]);
        prints := prints[name := fingerprint];
        rest := rest - {name};
      }
    }

    method WriteBaseline(id: string, data: Copy)
      modifies this`baselines, this`synced
      ensures baselines == old(baselines)[id := PrintsOf(data)]
      ensures synced == old(synced)[id := data]
    {
      var prints := PrintAll(data);
      baselines := baselines[id := prints];
      synced := synced[id := data];
    }

    /** Saves this browser's copy if it differs from the last snapshot; see `Saved`. */
    method SaveNow(server: AccountServer, lands: bool, sameOrder: bool)
      modifies this`lastSaved, this`baselines, this`synced, server
      ensures user == None ==> unchanged(this) && unchanged(server)
      ensures user.Some? ==>
        (server.data, View(user.value)) == Saved(old(server.data), old(View(user.value)), lands, sameOrder)
    {
      if user == None { return; }
      var data := LocalEntries(user.value);
      if lastSaved == Some(data) && sameOrder { return; }
      if lands {
        server.data := data;
        lastSaved := Some(data);
        WriteBaseline(user.value, data);
      }
    }

    /**
     * Makes the account active here. Except when a sign-up adopts what was built
     * signed out, this loads and saves exactly as the protocol's steps say.
     */
    method Activate(server: AccountServer, id: string, adoptSignedOut: bool, lands: bool, sameOrder: bool)
      requires Named(server.data)
      modifies this, server
      ensures user == Some(id)
      ensures var was, b := old(server.data), old(View(id));
              var adopts := was == map[] && adoptSignedOut && b.local == map[];
              var begun := if adopts then Loaded(was, b).(local := EntriesOf(old(items), ANON)) else Loaded(was, b);
              && (server.data, View(id)) == Saved(was, begun, lands, sameOrder)
              && (adopts && Apart(id, ANON) ==> EntriesOf(items, ANON) == map[])
              && (forall other | Apart(id, other) && (adopts ==> Apart(ANON, other)) ::
                    EntriesOf(items, other) == EntriesOf(old(items), other))
    {
      user := Some(id);
      var data := server.data;
      var local := LocalEntries(id);
      ghost var b, start := View(id), items;
      var next: Option<Copy> := None;
      if data != map[] {
        if id in baselines {
          var merged := Merge(data, local, baselines[id]);
          next := Some(merged);
        } else {
          next := Some(data);
        }
        ShownIsNamed(data, b);
      } else if adoptSignedOut && local == map[] {
        var signedOut := LocalEntries(ANON);
        next := Some(signedOut);
        ClearLocal(ANON);
        forall other | Apart(ANON, other) ensures EntriesOf(items, other) == EntriesOf(start, other) {
          OthersAreKept(start, ANON, map[], other);
        }
      }
      ghost var prepared := items;
      if next.Some? {
        ClearLocal(id);
        ghost var cleared := items;
        WriteLocal(id, next.value);
        WrittenIsReadBack(prepared, id, next.value);
        forall other | Apart(id, other) ensures EntriesOf(items, other) == EntriesOf(prepared, other) {
          OthersAreKept(prepared, id, map[], other);
          OthersAreKept(cleared, id, next.value, other);
        }
      }
      if data == map[] && adoptSignedOut && local == map[] { ClearedIsEmpty(start, ANON); }
      WriteBaseline(id, data);
      lastSaved := Some(data);
      SaveNow(server, lands, sameOrder);
    }

    /**
     * After a last save, nothing of the account stays in this browser, whether or not
     * the save landed. Signing out everywhere asks the server first; when that
     * request fails (`revoked` is false) it throws and nothing is removed.
     */
    method SignOut(server: AccountServer, everywhere: bool, revoked: bool, lands: bool, sameOrder: bool) returns (done: bool)
      requires user.Some?
      modifies this, server
      ensures done <==> !everywhere || revoked
      ensures var id := old(user).value;
              var (saved, left) := Saved(old(server.data), old(View(id)), lands, sameOrder);
              && server.data == saved
              && (done ==> user == None && lastSaved == None && View(id) == FRESH)
              && (!done ==> user == Some(id) && items == old(items) && View(id) == left)
              && forall other | Apart(id, other) :: EntriesOf(items, other) == EntriesOf(old(items), other)
    {
      var id := user.value;
      SaveNow(server, lands, sameOrder);
      if everywhere && !revoked { return false; }
      ghost var before := items;
      ClearLocal(id);
      ClearedIsEmpty(before, id);
      forall other | Apart(id, other) ensures EntriesOf(items, other) == EntriesOf(before, other) {
        OthersAreKept(before, id, map[], other);
      }
      baselines := baselines - {id};
      synced := synced - {id};
      lastSaved := None;
      user := None;
      return true;
    }
  }

  lemma ClearedIsEmpty(items: Items, user: string)
    ensures EntriesOf(Cleared(items, user), user) == map[]
  {
    var cleared := Cleared(items, user);
    forall n ensures n !in EntriesOf(cleared, user) {
      EntryAt(cleared, user, n);
    }
    assert EntriesOf(cleared, user).Keys == {};
  }
}
