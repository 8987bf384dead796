/**
 * Keeping an account's workspace in step between browsers: the three-way merge
 * over fingerprints, what a save and an opening do, and whole runs in which
 * browsers take turns.
 */
module AccountSync {
  import opened Basics
  import opened Fingerprints

  type Name = string
  type Copy = map<Name, Text>
  type Prints = map<Name, string>

  // ----- The merge -------------------------------------------------------

  function PrintsOf(data: Copy): Prints { map n | n in data :: FingerprintOf(data[n]) }

  /** Whether what is here under a name differs from what the baseline remembers. */
  predicate Changed(local: Copy, baseline: Prints, name: Name) {
    At(PrintsOf(local), name) != At(baseline, name)
  }

  /** What the merge holds under one name. */
  function MergedAt(server: Copy, local: Copy, baseline: Prints, name: Name): Option<Text> {
    if !Changed(local, baseline, name) then At(server, name)
    else if name in local then Some(local[name])
    else if At(PrintsOf(server), name) == At(baseline, name) then None
    else At(server, name)
  }

  function Merged(server: Copy, local: Copy, baseline: Prints): Copy {
    map n | n in server.Keys + local.Keys && MergedAt(server, local, baseline, n).Some?
      :: MergedAt(server, local, baseline, n).value
  }

  lemma MergedIsPointwise(server: Copy, local: Copy, baseline: Prints, name: Name)
    ensures At(Merged(server, local, baseline), name) == MergedAt(server, local, baseline, name)
  {
  }

  lemma MergedHeldHere(server: Copy, local: Copy, baseline: Prints, name: Name)
    requires name in local
    ensures At(Merged(server, local, baseline), name) ==
      (if name !in baseline || FingerprintOf(local[name]) != baseline[name] then Some(local[name]) else At(server, name))
  {
    MergedIsPointwise(server, local, baseline, name);
  }

  lemma MergedRemovedHere(server: Copy, local: Copy, baseline: Prints, name: Name)
    requires name in baseline && name !in local
    ensures At(Merged(server, local, baseline), name) ==
      (if name in server && FingerprintOf(server[name]) == baseline[name] then None else At(server, name))
  {
    MergedIsPointwise(server, local, baseline, name);
  }

  lemma MergedElsewhere(server: Copy, local: Copy, baseline: Prints, name: Name)
    requires name !in baseline && name !in local
    ensures At(Merged(server, local, baseline), name) == At(server, name)
  {
    MergedIsPointwise(server, local, baseline, name);
  }

  /** The merge so far: names in `waiting` still hold what the account has. */
  ghost predicate MergedBut(out: Copy, server: Copy, merged: Copy, waiting: set<Name>) {
    forall n :: At(out, n) == (if n in waiting then At(server, n) else At(merged, n))
  }

  lemma OneMoreMerged(out: Copy, next: Copy, server: Copy, merged: Copy, waiting: set<Name>, name: Name)
    requires MergedBut(out, server, merged, waiting)
    requires next == out || next == out - {name} || (name in next && next == out[name := next[name]])
    requires At(next, name) == At(merged, name)
    ensures MergedBut(next, server, merged, waiting - {name})
  {
    forall n ensures At(next, n) == (if n in waiting - {name} then At(server, n) else At(merged, n)) {
      if n != name { assert At(next, n) == At(out, n); }
    }
  }

  lemma NothingMergedYet(server: Copy, local: Copy, baseline: Prints)
    ensures MergedBut(server, server, Merged(server, local, baseline), local.Keys + (baseline.Keys - local.Keys))
  {
    var merged, waiting := Merged(server, local, baseline), local.Keys + (baseline.Keys - local.Keys);
    forall n ensures At(server, n) == (if n in waiting then At(server, n) else At(merged, n)) {
      if n !in local && n !in baseline { MergedElsewhere(server, local, baseline, n); }
    }
  }

  lemma AllMerged(out: Copy, server: Copy, merged: Copy, waiting: set<Name>)
    requires MergedBut(out, server, merged, waiting) && waiting == {}
    ensures out == merged
  {
    forall n ensures At(out, n) == At(merged, n) {
      assert n !in waiting;
    }
    SameEntries(out, merged);
  }

  method Merge(server: Copy, local: Copy, baseline: Prints) returns (out: Copy)
    ensures out == Merged(server, local, baseline)
  {
    out := KeepChanges(server, local, baseline);
    out := DropRemovals(out, server, local, baseline);
    AllMerged(out, server, Merged(server, local, baseline), {});
  }

  lemma OneLessWaiting(rest: set<Name>, removed: set<Name>, name: Name)
    requires name !in removed
    ensures rest + removed - {name} == rest - {name} + removed
  {
  }

  method KeepChanges(server: Copy, local: Copy, baseline: Prints) returns (out: Copy)
    ensures MergedBut(out, server, Merged(server, local, baseline), baseline.Keys - local.Keys)
  {
    ghost var removed := baseline.Keys - local.Keys;
    out := server;
    var rest := local.Keys;
    NothingMergedYet(server, local, baseline);
    while rest != {}
      invariant rest <= local.Keys
      invariant MergedBut(out, server, Merged(server, local, baseline), rest + removed)
    {
      var name :| name in rest;
      ghost var before := out;
      var fingerprint := Fingerprint(local[name]);
      MergedHeldHere(server, local, baseline, name);
      if name !in baseline || fingerprint != baseline[name] { out := out[name := local[name]]; }
      OneMoreMerged(before, out, server, Merged(server, local, baseline), rest + removed, name);
      OneLessWaiting(rest, removed, name);
      rest := rest - {name};
    }
    assert {} + removed == removed;
  }

  method DropRemovals(kept: Copy, server: Copy, local: Copy, baseline: Prints) returns (out: Copy)
    requires MergedBut(kept, server, Merged(server, local, baseline), baseline.Keys - local.Keys)
    ensures MergedBut(out, server, Merged(server, local, baseline), {})
  {
    out := kept;
    var rest := baseline.Keys;
    while rest != {}
      invariant rest <= baseline.Keys
      invariant MergedBut(out, server, Merged(server, local, baseline), rest - local.Keys)
    {
      var name :| name in rest;
      ghost var before := out;
      if name !in local {
        MergedRemovedHere(server, local, baseline, name);
        if name in server {
          var fingerprint := Fingerprint(server[name]);
          if fingerprint == baseline[name] { out := out - {name}; }
        }
        OneMoreMerged(before, out, server, Merged(server, local, baseline), rest - local.Keys, name);
      }
      assert rest - {name} - local.Keys == if name in local then rest - local.Keys else rest - local.Keys - {name};
      rest := rest - {name};
    }
    assert {} - local.Keys == {};
  }

  /** Fingerprints tell the values of a set apart. */
  ghost predicate CollisionFree(values: set<Text>) {
    forall v, w | v in values && w in values && FingerprintOf(v) == FingerprintOf(w) :: v == w
  }

  ghost predicate Within(data: Copy, values: set<Text>) { data.Values <= values }

  lemma AtWithin(data: Copy, values: set<Text>, name: Name)
    requires Within(data, values)
    ensures name in data ==> data[name] in values
  {
    if name in data { assert data[name] in data.Values; }
  }

  /** With no collisions, equal fingerprints mean equal entries. */
  lemma SamePrintSameEntry(a: Copy, b: Copy, values: set<Text>, name: Name)
    requires CollisionFree(values) && Within(a, values) && Within(b, values)
    ensures At(PrintsOf(a), name) == At(PrintsOf(b), name) <==> At(a, name) == At(b, name)
  {
    AtWithin(a, values, name);
    AtWithin(b, values, name);
  }

  lemma NothingChangedHere(server: Copy, local: Copy)
    ensures Merged(server, local, PrintsOf(local)) == server
  {
    forall n ensures At(Merged(server, local, PrintsOf(local)), n) == At(server, n) {
      MergedIsPointwise(server, local, PrintsOf(local), n);
    }
    SameEntries(Merged(server, local, PrintsOf(local)), server);
  }

  lemma NothingChangedThere(server: Copy, local: Copy, values: set<Text>)
    requires CollisionFree(values) && Within(server, values) && Within(local, values)
    ensures Merged(server, local, PrintsOf(server)) == local
  {
    forall n ensures At(Merged(server, local, PrintsOf(server)), n) == At(local, n) {
      MergedIsPointwise(server, local, PrintsOf(server), n);
      SamePrintSameEntry(server, local, values, n);
    }
    SameEntries(Merged(server, local, PrintsOf(server)), local);
  }

  lemma MergeTwiceIsMergeOnce(server: Copy, local: Copy, baseline: Prints)
    ensures Merged(Merged(server, local, baseline), local, baseline) == Merged(server, local, baseline)
  {
    var once := Merged(server, local, baseline);
    forall n ensures At(Merged(once, local, baseline), n) == At(once, n) {
      MergedIsPointwise(server, local, baseline, n);
      MergedIsPointwise(once, local, baseline, n);
    }
    SameEntries(Merged(once, local, baseline), once);
  }

  // ----- One browser and the account -------------------------------------

  /**
   * What one browser holds for the account: its own entries, the fingerprints
   * of what it last saved or loaded (None before it first begun the account),
   * and the data behind the last-saved snapshot (None on a page just loaded).
   * `synced` is the data behind the fingerprints: a history variable that no
   * step reads.
   */
  datatype Browser = Browser(local: Copy, baseline: Option<Prints>, lastSaved: Option<Copy>, synced: Copy)

  const FRESH := Browser(map[], None, None, map[])

  /** The entries a browser shows once it has loaded the account's copy. */
  function Shown(server: Copy, b: Browser): Copy {
    if server == map[] then b.local
    else if b.baseline.Some? then Merged(server, b.local, b.baseline.value)
    else server
  }

  function Loaded(server: Copy, b: Browser): Browser {
    Browser(Shown(server, b), Some(PrintsOf(server)), Some(server), server)
  }

  /**
   * A save: the account's copy and the browser afterwards. `lands` says whether
   * the request is stored and acknowledged; `sameOrder` whether equal copies
   * also list their entries in the same order, as the snapshots compare text.
   */
  function Saved(server: Copy, b: Browser, lands: bool, sameOrder: bool): (Copy, Browser) {
    if b.lastSaved == Some(b.local) && sameOrder then (server, b)
    else if lands then (b.local, Browser(b.local, Some(PrintsOf(b.local)), Some(b.local), b.local))
    else (server, b)
  }

  /**
   * Loading shows the three-way merge exactly when the account's copy is not
   * empty or everything held here has changed since the baseline: an empty
   * account keeps this browser's entries whole, stale ones included.
   */
  lemma LoadingIsMergingExactlyWhen(server: Copy, local: Copy, baseline: Prints)
    ensures Shown(server, Browser(local, Some(baseline), None, map[])) == Merged(server, local, baseline)
       <==> server != map[] || forall n | n in local :: Changed(local, baseline, n)
  {
    if server == map[] {
      forall n ensures At(Merged(server, local, baseline), n) == if Changed(local, baseline, n) then At(local, n) else None {
        MergedIsPointwise(server, local, baseline, n);
      }
      if forall n | n in local :: Changed(local, baseline, n) {
        SameEntries(local, Merged(server, local, baseline));
      } else {
        var n :| n in local && !Changed(local, baseline, n);
        assert At(Merged(server, local, baseline), n) != At(local, n);
      }
    }
  }

  // ----- Runs: browsers take turns ----------------------------------------

  type BrowserId = nat

  datatype World = World(server: Copy, browsers: map<BrowserId, Browser>, active: Option<BrowserId>)

  datatype Event =
    | Open(who: BrowserId, lands: bool, sameOrder: bool)
    | Edit(who: BrowserId, name: Name, value: Option<Text>)
    | Save(who: BrowserId, lands: bool, sameOrder: bool)
    | Close(who: BrowserId)

  function BrowserOf(w: World, who: BrowserId): Browser {
    if who in w.browsers then w.browsers[who] else FRESH
  }

  predicate Enabled(w: World, e: Event) {
    if e.Open? then w.active == None else w.active == Some(e.who)
  }

  function WithSave(w: World, who: BrowserId, b: Browser, lands: bool, sameOrder: bool): World {
    var (server, after) := Saved(w.server, b, lands, sameOrder);
    World(server, w.browsers[who := after], Some(who))
  }

  function Step(w: World, e: Event): World {
    var b := BrowserOf(w, e.who);
    match e
    case Open(who, lands, sameOrder) => WithSave(w, who, Loaded(w.server, b), lands, sameOrder)
    case Save(who, lands, sameOrder) => WithSave(w, who, b, lands, sameOrder)
    case Edit(who, name, value) =>
      var local := if value.Some? then b.local[name := value.value] else b.local - {name};
      w.(browsers := w.browsers[who := b.(local := local)])
    case Close(who) => World(w.server, w.browsers[who := b.(lastSaved := None)], None)
  }

  /** A run: the account's copy at the start, then one event after another. */
  datatype History = Begin(data: Copy) | Then(past: History, event: Event)

  function Run(h: History): World {
    match h
    case Begin(data) => World(data, map[], None)
    case Then(past, e) => Step(Run(past), e)
  }

  predicate TakingTurns(h: History) {
    h.Then? ==> TakingTurns(h.past) && Enabled(Run(h.past), h.event)
  }

  /** The last value a run's edits gave a name, or its value on the account at the start. */
  function LastEdit(h: History, name: Name): Option<Text> {
    match h
    case Begin(data) => At(data, name)
    case Then(past, e) => if e.Edit? && e.name == name then e.value else LastEdit(past, name)
  }

  predicate EditedOnlyBy(h: History, who: BrowserId, name: Name) {
    h.Then? ==> EditedOnlyBy(h.past, who, name) && (h.event.Edit? && h.event.name == name ==> h.event.who == who)
  }

  predicate NeverEditedBy(h: History, who: BrowserId, name: Name) {
    h.Then? ==> NeverEditedBy(h.past, who, name) && (h.event.Edit? && h.event.name == name ==> h.event.who != who)
  }

  /** Every value that occurs in the run is in the set. */
  ghost predicate Uses(h: History, values: set<Text>) {
    match h
    case Begin(data) => Within(data, values)
    case Then(past, e) => Uses(past, values) && (e.Edit? && e.value.Some? ==> e.value.value in values)
  }

  // What every browser keeps in every run.
  ghost predicate BrowserOk(b: Browser, values: set<Text>) {
    && Within(b.local, values) && Within(b.synced, values)
    && (if b.baseline.Some? then b.baseline.value == PrintsOf(b.synced) else b.local == b.synced == map[])
  }

  ghost predicate WorldOk(w: World, values: set<Text>) {
    && Within(w.server, values)
    && (forall who :: BrowserOk(BrowserOf(w, who), values))
    && (w.active.Some? ==>
          var b := BrowserOf(w, w.active.value);
          b.baseline.Some? && b.synced == w.server && b.lastSaved == Some(w.server))
  }

  lemma ShownWithin(server: Copy, b: Browser, values: set<Text>)
    requires Within(server, values) && BrowserOk(b, values)
    ensures Within(Shown(server, b), values)
  {
    var shown := Shown(server, b);
    forall v | v in shown.Values ensures v in values {
      var n :| n in shown && shown[n] == v;
      if server != map[] && b.baseline.Some? { MergedIsPointwise(server, b.local, b.baseline.value, n); }
      AtWithin(server, values, n);
      AtWithin(b.local, values, n);
    }
  }

  lemma EditWithin(b: Browser, values: set<Text>, e: Event)
    requires e.Edit? && BrowserOk(b, values) && (e.value.Some? ==> e.value.value in values)
    ensures Within(if e.value.Some? then b.local[e.name := e.value.value] else b.local - {e.name}, values)
  {
    var local := if e.value.Some? then b.local[e.name := e.value.value] else b.local - {e.name};
    forall v | v in local.Values ensures v in values {
      var n :| n in local && local[n] == v;
      AtWithin(b.local, values, n);
    }
  }

  lemma StepKeepsWorldOk(w: World, e: Event, values: set<Text>)
    requires WorldOk(w, values) && Enabled(w, e)
    requires e.Edit? && e.value.Some? ==> e.value.value in values
    ensures WorldOk(Step(w, e), values)
  {
    var b, after := BrowserOf(w, e.who), Step(w, e);
    assert BrowserOk(b, values);
    if e.Open? { ShownWithin(w.server, b, values); }
    if e.Edit? { EditWithin(b, values, e); }
    assert BrowserOk(BrowserOf(after, e.who), values);
    forall who ensures BrowserOk(BrowserOf(after, who), values) {
      if who != e.who { assert BrowserOf(after, who) == BrowserOf(w, who); }
    }
  }

  lemma {:induction false} RunKeepsWorldOk(h: History, values: set<Text>)
    requires TakingTurns(h) && Uses(h, values)
    ensures WorldOk(Run(h), values)
  {
    if h.Then? {
      RunKeepsWorldOk(h.past, values);
      StepKeepsWorldOk(Run(h.past), h.event, values);
    }
  }

  // ----- What an opening does to a name on the account ---------------------------

  /** Whether this browser shows a value of its own under the name: not the one it last saved or loaded. */
  predicate HoldsUnsaved(b: Browser, name: Name) {
    b.baseline.Some? && name in b.local && Changed(b.local, b.baseline.value, name)
  }

  /** Whether this browser removed the name since the baseline and the account still holds it as it was then. */
  predicate RemovesHere(server: Copy, b: Browser, name: Name) {
    b.baseline.Some? && name !in b.local && name in server && At(PrintsOf(server), name) == At(b.baseline.value, name)
  }

  /** Whether this browser would put another value on the account: its own unsaved one, or any at all on an empty account. */
  predicate PutsAnother(server: Copy, b: Browser, name: Name) {
    name in b.local && (server == map[] || HoldsUnsaved(b, name)) && At(server, name) != At(b.local, name)
  }

  /** What activate knows before it saves. */
  predicate LeavesAlone(server: Copy, b: Browser, name: Name) {
    !PutsAnother(server, b, name) && !RemovesHere(server, b, name)
  }

  /** For every state: a landing opening leaves the account's value under a name alone exactly under that condition. */
  lemma OpeningLeavesAloneExactlyWhen(w: World, who: BrowserId, name: Name, sameOrder: bool)
    ensures At(Step(w, Open(who, true, sameOrder)).server, name) == At(w.server, name)
       <==> LeavesAlone(w.server, BrowserOf(w, who), name)
  {
    var b := BrowserOf(w, who);
    if w.server != map[] && b.baseline.Some? { MergedIsPointwise(w.server, b.local, b.baseline.value, name); }
  }

  // ----- Names a browser left alone -----------------------------------------

  /** The fingerprints are those of the data last saved or loaded, and nothing held here was removed since. */
  predicate NeverRemovedHere(b: Browser, name: Name) {
    && (if b.baseline.Some? then b.baseline.value == PrintsOf(b.synced) else b.synced == map[])
    && (name in b.synced ==> name in b.local)
  }

  lemma StepKeepsUnremoved(w: World, e: Event, who: BrowserId, name: Name)
    requires NeverRemovedHere(BrowserOf(w, who), name)
    requires e.Edit? && e.name == name ==> e.who != who
    ensures NeverRemovedHere(BrowserOf(Step(w, e), who), name)
  {
    var b := BrowserOf(w, who);
    if e.who != who {
      assert BrowserOf(Step(w, e), who) == b;
    } else if e.Open? && w.server != map[] && b.baseline.Some? {
      MergedIsPointwise(w.server, b.local, b.baseline.value, name);
    }
  }

  lemma {:induction false} RunKeepsUnremoved(h: History, who: BrowserId, name: Name)
    requires NeverEditedBy(h, who, name)
    ensures NeverRemovedHere(BrowserOf(Run(h), who), name)
  {
    if h.Then? {
      RunKeepsUnremoved(h.past, who, name);
      StepKeepsUnremoved(Run(h.past), h.event, who, name);
    }
  }

  /**
   * When a browser that never edited a name opens and saves, the account keeps
   * what the others saved under it, exactly unless this browser holds another
   * value of the name and the account is empty or that value is unsaved here, as
   * an earlier opening on an empty account leaves it.
   */
  lemma OthersWorkSurvivesExactlyWhen(h: History, who: BrowserId, name: Name, sameOrder: bool)
    requires NeverEditedBy(h, who, name)
    ensures At(Step(Run(h), Open(who, true, sameOrder)).server, name) == At(Run(h).server, name)
       <==> !PutsAnother(Run(h).server, BrowserOf(Run(h), who), name)
  {
    OpeningLeavesAloneExactlyWhen(Run(h), who, name, sameOrder);
    RunKeepsUnremoved(h, who, name);
  }

  // ----- A name that only one browser edits --------------------------------

  /**
   * An opening or save by another browser that changes the account's value under
   * the name while the editor holds no unsaved value of it.
   */
  predicate Overrides(w: World, e: Event, who: BrowserId, name: Name) {
    && e.who != who && !HoldsUnsaved(BrowserOf(w, who), name)
    && ((e.Open? && e.lands && !LeavesAlone(w.server, BrowserOf(w, e.who), name))
        || (e.Save? && e.lands && At(BrowserOf(w, e.who).local, name) != At(w.server, name)))
  }

  /** Nothing has overridden the name since it was last edited, or ever if it was not. */
  predicate NotOverriddenSince(h: History, who: BrowserId, name: Name) {
    h.Then? ==>
      || (h.event.Edit? && h.event.name == name)
      || (NotOverriddenSince(h.past, who, name) && !Overrides(Run(h.past), h.event, who, name))
  }

  /** `cur` is the editor's value, and the account's is what the editor last saw unless the editor's own is still to come. */
  ghost predicate OwnNameOk(w: World, who: BrowserId, name: Name, cur: Option<Text>) {
    var a := BrowserOf(w, who);
    if a.baseline.Some?
    then At(a.local, name) == cur && (At(w.server, name) == At(a.synced, name) || HoldsUnsaved(a, name))
    else cur == At(w.server, name)
  }

  lemma ShownForEditor(server: Copy, b: Browser, values: set<Text>, name: Name)
    requires CollisionFree(values) && Within(server, values) && BrowserOk(b, values)
    requires b.baseline.Some? && (At(server, name) == At(b.synced, name) || HoldsUnsaved(b, name))
    ensures At(Shown(server, b), name) == At(b.local, name)
  {
    if server != map[] {
      MergedIsPointwise(server, b.local, b.baseline.value, name);
      SamePrintSameEntry(b.local, b.synced, values, name);
      SamePrintSameEntry(server, b.synced, values, name);
    }
  }

  lemma OthersStepKeepsOwnName(w: World, e: Event, who: BrowserId, name: Name, cur: Option<Text>)
    requires Enabled(w, e) && OwnNameOk(w, who, name, cur)
    requires e.who != who && (e.Edit? ==> e.name != name) && !Overrides(w, e, who, name)
    ensures OwnNameOk(Step(w, e), who, name, cur)
  {
    assert BrowserOf(Step(w, e), who) == BrowserOf(w, who);
    if e.Open? && e.lands { OpeningLeavesAloneExactlyWhen(w, e.who, name, e.sameOrder); }
  }

  lemma EditorsOpeningKeepsOwnName(w: World, e: Event, name: Name, cur: Option<Text>, values: set<Text>)
    requires CollisionFree(values) && WorldOk(w, values) && e.Open? && OwnNameOk(w, e.who, name, cur)
    ensures OwnNameOk(Step(w, e), e.who, name, cur)
  {
    var b := BrowserOf(w, e.who);
    assert BrowserOk(b, values);
    assert At(Shown(w.server, b), name) == cur by {
      if b.baseline.Some? { ShownForEditor(w.server, b, values, name); }
    }
  }

  lemma EditorsStepKeepsOwnName(w: World, e: Event, name: Name, cur: Option<Text>, values: set<Text>)
    requires CollisionFree(values) && WorldOk(w, values) && Enabled(w, e) && OwnNameOk(w, e.who, name, cur)
    ensures OwnNameOk(Step(w, e), e.who, name, if e.Edit? && e.name == name then e.value else cur)
  {
    if e.Open? { EditorsOpeningKeepsOwnName(w, e, name, cur, values); }
  }

  /** An edit of the name starts afresh, whatever was overridden before. */
  lemma EditStartsAfresh(w: World, e: Event, values: set<Text>)
    requires WorldOk(w, values) && Enabled(w, e) && e.Edit?
    ensures OwnNameOk(Step(w, e), e.who, e.name, e.value)
  {
  }

  lemma {:induction false} RunKeepsOwnName(h: History, who: BrowserId, name: Name, values: set<Text>)
    requires CollisionFree(values) && Uses(h, values) && TakingTurns(h)
    requires EditedOnlyBy(h, who, name) && NotOverriddenSince(h, who, name)
    ensures OwnNameOk(Run(h), who, name, LastEdit(h, name))
  {
    if h.Then? {
      var w, e := Run(h.past), h.event;
      RunKeepsWorldOk(h.past, values);
      if e.Edit? && e.name == name {
        EditStartsAfresh(w, e, values);
        return;
      }
      RunKeepsOwnName(h.past, who, name, values);
      if e.who == who { EditorsStepKeepsOwnName(w, e, name, LastEdit(h.past, name), values); }
      else { OthersStepKeepsOwnName(w, e, who, name, LastEdit(h.past, name)); }
    }
  }

  /**
   * However the turns went and whichever saves were lost, a name that only one
   * browser edits holds that browser's last edit on the account (or is gone, if
   * that was a removal) once the browser next opens and its save lands, as long
   * as no other browser has overridden it since that edit.
   */
  lemma LastEditReachesAccount(h: History, who: BrowserId, name: Name, sameOrder: bool, values: set<Text>)
    requires CollisionFree(values) && Uses(h, values)
    requires TakingTurns(h) && Run(h).active == None
    requires EditedOnlyBy(h, who, name) && NotOverriddenSince(h, who, name)
    ensures At(Step(Run(h), Open(who, true, sameOrder)).server, name) == LastEdit(h, name)
  {
    var w := Run(h);
    var b := BrowserOf(w, who);
    RunKeepsOwnName(h, who, name, values);
    RunKeepsWorldOk(h, values);
    assert BrowserOk(b, values);
    if b.baseline.Some? { ShownForEditor(w.server, b, values, name); }
  }

  /** The run goes on: another browser opens the account and closes it again. */
  function ThenVisit(h: History, who: BrowserId, lands: bool, sameOrder: bool): History {
    Then(Then(h, Open(who, lands, sameOrder)), Close(who))
  }

  lemma OnlyEditorEdits(h: History, who: BrowserId, other: BrowserId, name: Name)
    requires EditedOnlyBy(h, who, name) && other != who
    ensures NeverEditedBy(h, other, name)
  {
  }

  /** What is on the account once another browser has overridden the name. */
  lemma OverriddenValue(w: World, e: Event, who: BrowserId, name: Name)
    requires e.Open? && Overrides(w, e, who, name) && NeverRemovedHere(BrowserOf(w, e.who), name)
    ensures name in Step(w, e).server && At(Step(w, e).server, name) != At(w.server, name)
  {
    OpeningLeavesAloneExactlyWhen(w, e.who, name, e.sameOrder);
    var b := BrowserOf(w, e.who);
    if w.server != map[] && b.baseline.Some? { MergedIsPointwise(w.server, b.local, b.baseline.value, name); }
  }

  /** An editor without an unsaved value takes a new value from the account, even over its own removal. */
  lemma EditorTakesOver(server: Copy, b: Browser, values: set<Text>, name: Name, before: Option<Text>)
    requires CollisionFree(values) && Within(server, values) && BrowserOk(b, values) && !HoldsUnsaved(b, name)
    requires b.baseline.Some? ==> before == At(b.synced, name)
    requires name in server && At(server, name) != before
    ensures At(Shown(server, b), name) == At(server, name)
  {
    if b.baseline.Some? {
      MergedIsPointwise(server, b.local, b.baseline.value, name);
      SamePrintSameEntry(server, b.synced, values, name);
    }
  }

  lemma AfterOthersVisit(h: History, e: Event, who: BrowserId)
    requires e.Open? && e.who != who && TakingTurns(h) && Run(h).active == None
    ensures var w, after := Run(h), Run(Then(Then(h, e), Close(e.who)));
            after.server == Step(w, e).server && BrowserOf(after, who) == BrowserOf(w, who)
  {
    assert Run(Then(h, e)) == Step(Run(h), e);
  }

  /** What a visit that overrides leaves on the account, seen from the editor. */
  lemma OverridingVisit(h: History, who: BrowserId, name: Name, e: Event, values: set<Text>)
    requires Uses(h, values) && TakingTurns(h) && Run(h).active == None && e.Open?
    requires EditedOnlyBy(h, who, name) && Overrides(Run(h), e, who, name)
    ensures var server := Step(Run(h), e).server;
            name in server && At(server, name) != At(Run(h).server, name) && Within(server, values)
  {
    var h1 := Then(h, e);
    assert TakingTurns(h1) && Uses(h1, values) && Run(h1) == Step(Run(h), e);
    RunKeepsWorldOk(h1, values);
    OnlyEditorEdits(h, who, e.who, name);
    RunKeepsUnremoved(h, e.who, name);
    OverriddenValue(Run(h), e, who, name);
  }

  lemma OverriddenForGood(h: History, who: BrowserId, name: Name, e: Event, sameOrder: bool, values: set<Text>)
    requires CollisionFree(values) && Uses(h, values)
    requires TakingTurns(h) && Run(h).active == None && e.Open?
    requires EditedOnlyBy(h, who, name) && NotOverriddenSince(h, who, name) && Overrides(Run(h), e, who, name)
    ensures At(Step(Run(Then(Then(h, e), Close(e.who))), Open(who, true, sameOrder)).server, name) != LastEdit(h, name)
  {
    var w := Run(h);
    var server, b := Step(w, e).server, BrowserOf(w, who);
    RunKeepsOwnName(h, who, name, values);
    assert BrowserOk(b, values) by { RunKeepsWorldOk(h, values); }
    OverridingVisit(h, who, name, e, values);
    EditorTakesOver(server, b, values, name, At(w.server, name));
    AfterOthersVisit(h, e, who);
  }

  /**
   * As long as the last edit has not been overridden, one more visit by another browser is
   * harmless exactly when it does not override the name: an override is always
   * fatal to the last edit, a removal or a saved value alike.
   */
  lemma LastEditReachesAccountExactlyWhen(
      h: History, who: BrowserId, name: Name, other: BrowserId, lands: bool, order: bool, sameOrder: bool, values: set<Text>)
    requires CollisionFree(values) && Uses(h, values)
    requires TakingTurns(h) && Run(h).active == None && other != who
    requires EditedOnlyBy(h, who, name) && NotOverriddenSince(h, who, name)
    ensures At(Step(Run(ThenVisit(h, other, lands, order)), Open(who, true, sameOrder)).server, name) == LastEdit(h, name)
       <==> !Overrides(Run(h), Open(other, lands, order), who, name)
  {
    var e := Open(other, lands, order);
    if Overrides(Run(h), e, who, name) {
      OverriddenForGood(h, who, name, e, sameOrder, values);
    } else {
      var h1 := Then(h, e);
      assert TakingTurns(h1) && NotOverriddenSince(h1, who, name);
      LastEditReachesAccount(ThenVisit(h, other, lands, order), who, name, sameOrder, values);
    }
  }

  // ----- Only an empty account lets a browser override -----------------------------

  /** Opening on an empty account shows a name this browser still holds. */
  predicate RevivesHere(w: World, who: BrowserId, name: Name) {
    w.server == map[] && name in BrowserOf(w, who).local
  }

  /** No other browser opens while it holds the name and the account is empty. */
  predicate NoRevivalByOthers(h: History, who: BrowserId, name: Name) {
    h.Then? ==>
      && NoRevivalByOthers(h.past, who, name)
      && (h.event.Open? && h.event.who != who ==> !RevivesHere(Run(h.past), h.event.who, name))
  }

  lemma StepKeepsInStep(w: World, e: Event, other: BrowserId, name: Name, values: set<Text>)
    requires CollisionFree(values) && WorldOk(w, values) && Enabled(w, e)
    requires At(BrowserOf(w, other).local, name) == At(BrowserOf(w, other).synced, name)
    requires e.who == other ==> !(e.Edit? && e.name == name) && !(e.Open? && RevivesHere(w, other, name))
    ensures At(BrowserOf(Step(w, e), other).local, name) == At(BrowserOf(Step(w, e), other).synced, name)
  {
    var b := BrowserOf(w, other);
    assert BrowserOk(b, values);
    if e.who != other {
      assert BrowserOf(Step(w, e), other) == b;
    } else if e.Open? && w.server != map[] && b.baseline.Some? {
      MergedIsPointwise(w.server, b.local, b.baseline.value, name);
      SamePrintSameEntry(b.local, b.synced, values, name);
    }
  }

  lemma {:induction false} RunKeepsInStep(h: History, who: BrowserId, other: BrowserId, name: Name, values: set<Text>)
    requires CollisionFree(values) && Uses(h, values) && TakingTurns(h)
    requires EditedOnlyBy(h, who, name) && NoRevivalByOthers(h, who, name) && other != who
    ensures At(BrowserOf(Run(h), other).local, name) == At(BrowserOf(Run(h), other).synced, name)
  {
    if h.Then? {
      RunKeepsInStep(h.past, who, other, name, values);
      RunKeepsWorldOk(h.past, values);
      StepKeepsInStep(Run(h.past), h.event, other, name, values);
    }
  }

  /** Nothing has ever overridden the name, edited since or not. */
  predicate NeverOverridden(h: History, who: BrowserId, name: Name) {
    h.Then? ==> NeverOverridden(h.past, who, name) && !Overrides(Run(h.past), h.event, who, name)
  }

  /** Overriding starts with an opening on an empty account: without one, nothing the editor did is ever overridden. */
  lemma {:induction false} NothingOverriddenWithoutRevival(h: History, who: BrowserId, name: Name, values: set<Text>)
    requires CollisionFree(values) && Uses(h, values) && TakingTurns(h)
    requires EditedOnlyBy(h, who, name) && NoRevivalByOthers(h, who, name)
    ensures NeverOverridden(h, who, name) && NotOverriddenSince(h, who, name)
  {
    if h.Then? {
      var w, e := Run(h.past), h.event;
      NothingOverriddenWithoutRevival(h.past, who, name, values);
      RunKeepsWorldOk(h.past, values);
      if e.who != who {
        var b := BrowserOf(w, e.who);
        RunKeepsInStep(h.past, who, e.who, name, values);
        assert BrowserOk(b, values);
        SamePrintSameEntry(b.local, b.synced, values, name);
      }
    }
  }

  lemma BeforeAnyRevival(h: History, who: BrowserId, name: Name, values: set<Text>)
    requires CollisionFree(values) && Uses(h, values) && TakingTurns(h)
    requires EditedOnlyBy(h, who, name) && NoRevivalByOthers(h, who, name)
    ensures OwnNameOk(Run(h), who, name, LastEdit(h, name))
  {
    NothingOverriddenWithoutRevival(h, who, name, values);
    RunKeepsOwnName(h, who, name, values);
  }

  /** Before any revival, a visit overrides exactly when it revives the name with a landing save while the last edit is a removal. */
  lemma FirstRevivalOverrides(h: History, who: BrowserId, name: Name, e: Event, values: set<Text>)
    requires CollisionFree(values) && Uses(h, values) && TakingTurns(h) && e.Open? && e.who != who
    requires EditedOnlyBy(h, who, name) && NoRevivalByOthers(h, who, name)
    ensures Overrides(Run(h), e, who, name) <==> e.lands && RevivesHere(Run(h), e.who, name) && LastEdit(h, name) == None
  {
    var w := Run(h);
    var a, b := BrowserOf(w, who), BrowserOf(w, e.who);
    BeforeAnyRevival(h, who, name, values);
    RunKeepsInStep(h, who, e.who, name, values);
    RunKeepsWorldOk(h, values);
    assert BrowserOk(a, values) && BrowserOk(b, values);
    SamePrintSameEntry(b.local, b.synced, values, name);
    SamePrintSameEntry(a.local, a.synced, values, name);
  }

  /**
   * The first opening of a stale browser on an empty account: harmless to the
   * editor's last value, even when it lands, and fatal exactly to a removal.
   */
  lemma FirstRevivalUndoesOnlyRemovals(
      h: History, who: BrowserId, name: Name, other: BrowserId, lands: bool, order: bool, sameOrder: bool, values: set<Text>)
    requires CollisionFree(values) && Uses(h, values)
    requires TakingTurns(h) && Run(h).active == None && other != who
    requires EditedOnlyBy(h, who, name) && NoRevivalByOthers(h, who, name)
    ensures At(Step(Run(ThenVisit(h, other, lands, order)), Open(who, true, sameOrder)).server, name) == LastEdit(h, name)
       <==> !(lands && RevivesHere(Run(h), other, name)) || LastEdit(h, name).Some?
  {
    NothingOverriddenWithoutRevival(h, who, name, values);
    FirstRevivalOverrides(h, who, name, Open(other, lands, order), values);
    LastEditReachesAccountExactlyWhen(h, who, name, other, lands, order, sameOrder, values);
  }

  // ----- Why the condition is needed ------------------------------------------

  // A browser in step with the account, its page open or closed.
  function InStep(copy: Copy): Browser { Browser(copy, Some(PrintsOf(copy)), Some(copy), copy) }

  function Closed(copy: Copy): Browser { InStep(copy).(lastSaved := None) }

  function Visit(h: History, who: BrowserId): History { Then(Then(h, Open(who, true, true)), Close(who)) }

  function EditingVisit(h: History, who: BrowserId, name: Name, value: Option<Text>): History {
    Then(Then(Then(Then(h, Open(who, true, true)), Edit(who, name, value)), Save(who, true, true)), Close(who))
  }

  /** A visit during which no save lands. */
  function Peek(h: History, who: BrowserId): History { Then(Then(h, Open(who, false, true)), Close(who)) }

  /** Browser 0 adds a name, browser 1 loads it, browser 0 removes it. */
  function AddLoadRemove(name: Name, value: Text): History {
    EditingVisit(Visit(EditingVisit(Begin(map[]), 0, name, Some(value)), 1), 0, name, None)
  }

  /** Browser 1 returns to the empty account, and its save lands. */
  function AddLoadRemoveReturn(name: Name, value: Text): History { Visit(AddLoadRemove(name, value), 1) }

  /** Browser 1 returns to the empty account but its save does not land, and browser 0 saves a new value. */
  function AddLoadRemovePeekAdd(name: Name, value: Text, newer: Text): History {
    EditingVisit(Peek(AddLoadRemove(name, value), 1), 0, name, Some(newer))
  }

  lemma OpenStep(w: World, who: BrowserId, copy: Copy)
    requires Shown(w.server, BrowserOf(w, who)) == copy
    ensures Step(w, Open(who, true, true)) == World(copy, w.browsers[who := InStep(copy)], Some(who))
  {
  }

  lemma EditStep(w: World, who: BrowserId, copy: Copy, name: Name, value: Option<Text>, next: Copy)
    requires next == (if value.Some? then copy[name := value.value] else copy - {name})
    ensures Step(World(copy, w.browsers[who := InStep(copy)], Some(who)), Edit(who, name, value))
         == World(copy, w.browsers[who := InStep(copy).(local := next)], Some(who))
  {
    var b := w.browsers[who := InStep(copy)];
    assert b[who := InStep(copy).(local := next)] == w.browsers[who := InStep(copy).(local := next)];
  }

  lemma SaveStep(w: World, who: BrowserId, copy: Copy, next: Copy)
    requires next != copy
    ensures Step(World(copy, w.browsers[who := InStep(copy).(local := next)], Some(who)), Save(who, true, true))
         == World(next, w.browsers[who := InStep(next)], Some(who))
  {
    var b := w.browsers[who := InStep(copy).(local := next)];
    assert b[who := InStep(next)] == w.browsers[who := InStep(next)];
  }

  lemma CloseStep(w: World, who: BrowserId, copy: Copy)
    ensures Step(World(copy, w.browsers[who := InStep(copy)], Some(who)), Close(who))
         == World(copy, w.browsers[who := Closed(copy)], None)
  {
    assert w.browsers[who := InStep(copy)][who := Closed(copy)] == w.browsers[who := Closed(copy)];
  }

  lemma AfterVisit(h: History, who: BrowserId, copy: Copy)
    requires TakingTurns(h) && Run(h).active == None
    requires Shown(Run(h).server, BrowserOf(Run(h), who)) == copy
    ensures TakingTurns(Visit(h, who))
    ensures Run(Visit(h, who)) == World(copy, Run(h).browsers[who := Closed(copy)], None)
  {
    OpenStep(Run(h), who, copy);
    CloseStep(Run(h), who, copy);
  }

  lemma AfterEditingVisit(h: History, who: BrowserId, copy: Copy, name: Name, value: Option<Text>, next: Copy)
    requires TakingTurns(h) && Run(h).active == None
    requires Shown(Run(h).server, BrowserOf(Run(h), who)) == copy
    requires next == (if value.Some? then copy[name := value.value] else copy - {name}) && next != copy
    ensures TakingTurns(EditingVisit(h, who, name, value))
    ensures Run(EditingVisit(h, who, name, value)) == World(next, Run(h).browsers[who := Closed(next)], None)
  {
    var w := Run(h);
    var h1 := Then(h, Open(who, true, true));
    OpenStep(w, who, copy);
    assert Run(h1) == World(copy, w.browsers[who := InStep(copy)], Some(who));
    var h2 := Then(h1, Edit(who, name, value));
    EditStep(w, who, copy, name, value, next);
    assert Run(h2) == World(copy, w.browsers[who := InStep(copy).(local := next)], Some(who));
    var h3 := Then(h2, Save(who, true, true));
    SaveStep(w, who, copy, next);
    assert Run(h3) == World(next, w.browsers[who := InStep(next)], Some(who));
    assert TakingTurns(h3);
    CloseStep(w, who, next);
  }

  lemma VisitsAndEdits(h: History, who: BrowserId, editor: BrowserId, name: Name, value: Option<Text>)
    ensures LastEdit(Visit(h, who), name) == LastEdit(h, name)
    ensures EditedOnlyBy(Visit(h, who), editor, name) == EditedOnlyBy(h, editor, name)
    ensures LastEdit(EditingVisit(h, who, name, value), name) == value
    ensures EditedOnlyBy(EditingVisit(h, who, name, value), who, name) == EditedOnlyBy(h, who, name)
  {
    var h1 := Then(h, Open(who, true, true));
    var h2 := Then(h1, Edit(who, name, value));
    assert LastEdit(h2, name) == value && LastEdit(h1, name) == LastEdit(h, name);
    assert EditedOnlyBy(h2, who, name) == EditedOnlyBy(h, who, name);
  }

  lemma AddLoadRemoveEdits(name: Name, value: Text)
    ensures var h := AddLoadRemove(name, value);
            EditedOnlyBy(h, 0, name) && LastEdit(h, name) == None
  {
    var added := EditingVisit(Begin(map[]), 0, name, Some(value));
    VisitsAndEdits(Begin(map[]), 0, 0, name, Some(value));
    VisitsAndEdits(added, 1, 0, name, None);
    VisitsAndEdits(Visit(added, 1), 0, 0, name, None);
  }

  lemma AddLoadRuns(name: Name, value: Text)
    ensures var h, copy := Visit(EditingVisit(Begin(map[]), 0, name, Some(value)), 1), map[name := value];
            TakingTurns(h) && Run(h) == World(copy, map[0 := Closed(copy), 1 := Closed(copy)], None)
  {
    var copy := map[name := value];
    assert name in copy;
    AfterEditingVisit(Begin(map[]), 0, map[], name, Some(value), copy);
    AfterVisit(EditingVisit(Begin(map[]), 0, name, Some(value)), 1, copy);
  }

  lemma AddLoadRemoveRuns(name: Name, value: Text)
    ensures var h, copy := AddLoadRemove(name, value), map[name := value];
            && TakingTurns(h)
            && Run(h) == World(map[], map[0 := Closed(map[]), 1 := Closed(copy)], None)
  {
    var empty: Copy, copy := map[], map[name := value];
    assert name in copy;
    AddLoadRuns(name, value);
    NothingChangedHere(copy, copy);
    AfterEditingVisit(Visit(EditingVisit(Begin(empty), 0, name, Some(value)), 1), 0, copy, name, None, empty);
  }

  /**
   * A removal can be undone: the only editor removed the name and saved, yet
   * after its next opening and save the account holds the name again, because
   * another browser that still held it begun in between.
   */
  lemma RemovedNameReturns(name: Name, value: Text)
    ensures var h := AddLoadRemoveReturn(name, value);
            && TakingTurns(h) && Run(h).active == None
            && EditedOnlyBy(h, 0, name) && LastEdit(h, name) == None
            && At(Step(Run(h), Open(0, true, true)).server, name) == Some(value)
  {
    var removed, h, copy := AddLoadRemove(name, value), AddLoadRemoveReturn(name, value), map[name := value];
    AddLoadRemoveRuns(name, value);
    AddLoadRemoveEdits(name, value);
    VisitsAndEdits(removed, 1, 0, name, None);
    AfterVisit(removed, 1, copy); // the account is empty: the stale copy is kept whole
    assert name !in PrintsOf(map[]);
    MergedElsewhere(copy, map[], PrintsOf(map[]), name);
    OpenStep(Run(h), 0, Merged(copy, map[], PrintsOf(map[])));
  }

  /** What browser 1 holds after that visit: its stale copy, now unsaved work over the empty account. */
  function Stale(copy: Copy): Browser { Browser(copy, Some(PrintsOf(map[])), None, map[]) }

  lemma AfterPeek(h: History, who: BrowserId, b: Browser)
    requires TakingTurns(h) && Run(h).active == None && Run(h).server == map[] && BrowserOf(Run(h), who) == b && b.local != map[]
    ensures TakingTurns(Peek(h, who))
    ensures Run(Peek(h, who)) == World(map[], Run(h).browsers[who := Stale(b.local)], None)
  {
    var peeking := Browser(b.local, Some(PrintsOf(map[])), Some(map[]), map[]);
    assert Step(Run(h), Open(who, false, true)) == World(map[], Run(h).browsers[who := peeking], Some(who));
    assert Run(h).browsers[who := peeking][who := Stale(b.local)] == Run(h).browsers[who := Stale(b.local)];
  }

  lemma AddedAfterPeek(h: History, copy: Copy, name: Name, newer: Text)
    requires TakingTurns(h) && Run(h) == World(map[], map[0 := Closed(map[]), 1 := Stale(copy)], None)
    ensures var after, next := EditingVisit(h, 0, name, Some(newer)), map[name := newer];
            TakingTurns(after) && Run(after) == World(next, map[0 := Closed(next), 1 := Stale(copy)], None)
  {
    var next := map[name := newer];
    assert name in next;
    AfterEditingVisit(h, 0, map[], name, Some(newer), next);
    ZeroReplaced(Closed(map[]), Stale(copy), Closed(next));
  }

  lemma ZeroReplaced(zero: Browser, one: Browser, next: Browser)
    ensures map[0 := zero, 1 := one][0 := next] == map[0 := next, 1 := one]
  {
  }

  lemma AddLoadRemovePeekAddRuns(name: Name, value: Text, newer: Text)
    ensures var h, copy, next := AddLoadRemovePeekAdd(name, value, newer), map[name := value], map[name := newer];
            && TakingTurns(h)
            && Run(h) == World(next, map[0 := Closed(next), 1 := Stale(copy)], None)
  {
    var copy := map[name := value];
    assert name in copy;
    AddLoadRemoveRuns(name, value);
    AfterPeek(AddLoadRemove(name, value), 1, Closed(copy));
    AddedAfterPeek(Peek(AddLoadRemove(name, value), 1), copy, name, newer);
  }

  lemma PeekEdits(h: History, who: BrowserId, editor: BrowserId, name: Name)
    ensures LastEdit(Peek(h, who), name) == LastEdit(h, name)
    ensures EditedOnlyBy(Peek(h, who), editor, name) == EditedOnlyBy(h, editor, name)
  {
    var h1 := Then(h, Open(who, false, true));
    assert LastEdit(h1, name) == LastEdit(h, name) && EditedOnlyBy(h1, editor, name) == EditedOnlyBy(h, editor, name);
  }

  lemma AddLoadRemovePeekAddEdits(name: Name, value: Text, newer: Text)
    ensures var h := AddLoadRemovePeekAdd(name, value, newer);
            EditedOnlyBy(h, 0, name) && LastEdit(h, name) == Some(newer)
  {
    var removed := AddLoadRemove(name, value);
    AddLoadRemoveEdits(name, value);
    PeekEdits(removed, 1, 0, name);
    VisitsAndEdits(Peek(removed, 1), 0, 0, name, Some(newer));
  }

  /** The merge of a stale copy that counts as unsaved work: it wins over the newer value. */
  lemma StaleWins(name: Name, value: Text, newer: Text)
    ensures Shown(map[name := newer], Stale(map[name := value])) == map[name := value]
  {
    var server, local: Copy := map[name := newer], map[name := value];
    assert name in server && name in local;
    forall n
      ensures At(Merged(server, local, PrintsOf(map[])), n) == At(local, n)
    {
      MergedIsPointwise(server, local, PrintsOf(map[]), n);
    }
    SameEntries(Merged(server, local, PrintsOf(map[])), local);
  }

  /**
   * An account that is not empty is no protection: browser 1 never edited the
   * name, yet its opening replaces what browser 0 saved, because an earlier
   * opening on the empty account, whose save did not land, left its stale copy
   * looking like unsaved work.
   */
  lemma OthersWorkIsReplaced(name: Name, value: Text, newer: Text)
    requires value != newer
    ensures var h := AddLoadRemovePeekAdd(name, value, newer);
            && TakingTurns(h) && Run(h).active == None && NeverEditedBy(h, 1, name)
            && Run(h).server == map[name := newer]
            && At(Step(Run(h), Open(1, true, true)).server, name) == Some(value)
  {
    var h := AddLoadRemovePeekAdd(name, value, newer);
    AddLoadRemovePeekAddRuns(name, value, newer);
    AddLoadRemovePeekAddEdits(name, value, newer);
    OnlyEditorEdits(h, 0, 1, name);
    StaleWins(name, value, newer);
    OpenStep(Run(h), 1, map[name := value]);
  }

  /** In that run even the only editor's saved value is lost for good: its next opening takes the stale one. */
  lemma SavedValueIsReplaced(name: Name, value: Text, newer: Text)
    requires value != newer
    ensures var h := Visit(AddLoadRemovePeekAdd(name, value, newer), 1);
            && TakingTurns(h) && Run(h).active == None
            && EditedOnlyBy(h, 0, name) && LastEdit(h, name) == Some(newer)
            && At(Step(Run(h), Open(0, true, true)).server, name) == Some(value)
  {
    var before := AddLoadRemovePeekAdd(name, value, newer);
    var copy, next := map[name := value], map[name := newer];
    AddLoadRemovePeekAddRuns(name, value, newer);
    AddLoadRemovePeekAddEdits(name, value, newer);
    VisitsAndEdits(before, 1, 0, name, None);
    StaleWins(name, value, newer);
    AfterVisit(before, 1, copy);
    NothingChangedHere(copy, next);
    OpenStep(Run(Visit(before, 1)), 0, copy);
  }
}
