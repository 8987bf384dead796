/**
 * Horizon scans of one workspace: which feed items are offered for triage, which
 * signals are kept, and what a scan forgets. What triage and the web search
 * answer is arbitrary.
 */
module HorizonScan {
  import opened Basics

  type ItemId = string

  const MAX_NEW_PER_SCAN: nat := 40
  const MAX_SIGNALS: nat := 300
  const SEEN_MS: int := 60 * 24 * 60 * 60 * 1000

  /** Dates are comparison keys; an undated item sorts as the earliest. */
  datatype Item = Item(id: ItemId, publishedAt: Option<nat>)

  /** Kept signals by id with the date they sort by, and when each offered item was marked seen. */
  datatype Rows = Rows(signals: map<ItemId, nat>, seen: map<ItemId, nat>)

  /**
   * One scan: when it starts, when it marks what it offered (after triage), when
   * it clears old markers, the items read, the positions triage keeps (none at
   * all if it fails) and what the web search found.
   */
  datatype Input = Input(start: nat, now: nat, end: nat, candidates: seq<Item>, picks: seq<nat>, found: seq<Item>)

  // ----- Which items are offered ------------------------------------------------------

  function IdsOf(items: seq<Item>): set<ItemId> { set k | 0 <= k < |items| :: items[k].id }

  /** Items whose id did not occur earlier and that are neither kept nor marked seen. */
  function Unseen(rows: Rows, items: seq<Item>): seq<Item> {
    if items == [] then []
    else
      var init, it := items[..|items| - 1], items[|items| - 1];
      if it.id in IdsOf(init) || it.id in rows.signals || it.id in rows.seen then Unseen(rows, init)
      else Unseen(rows, init) + [it]
  }

  function DateOf(it: Item): int { if it.publishedAt.Some? then it.publishedAt.value else -1 }

  /** Insertion into a list sorted newest first, after items of the same date. */
  function Insert(sorted: seq<Item>, it: Item): seq<Item> {
    if sorted == [] || DateOf(sorted[0]) < DateOf(it) then [it] + sorted else [sorted[0]] + Insert(sorted[1..], it)
  }

  function NewestFirst(items: seq<Item>): seq<Item> {
    if items == [] then [] else Insert(NewestFirst(items[..|items| - 1]), items[|items| - 1])
  }

  function Offered(rows: Rows, candidates: seq<Item>): seq<Item> {
    var sorted := NewestFirst(Unseen(rows, candidates));
    sorted[..Min(MAX_NEW_PER_SCAN, |sorted|)]
  }

  predicate Distinct(items: seq<Item>) { forall j, k | 0 <= j < k < |items| :: items[j].id != items[k].id }

  lemma IdsOfOneMore(items: seq<Item>, it: Item)
    ensures IdsOf(items + [it]) == IdsOf(items) + {it.id}
  {
    var all := items + [it];
    assert all[|items|].id == it.id;
    assert forall k | 0 <= k < |items| :: all[k] == items[k];
  }

  lemma {:induction false} UnseenIsNew(rows: Rows, items: seq<Item>)
    ensures var u := Unseen(rows, items);
            && Distinct(u)
            && (forall id :: id in IdsOf(u) <==> id in IdsOf(items) && id !in rows.signals && id !in rows.seen)
  {
    if items != [] {
      var init, it := items[..|items| - 1], items[|items| - 1];
      UnseenIsNew(rows, init);
      var u, v := Unseen(rows, items), Unseen(rows, init);
      assert items == init + [it];
      IdsOfOneMore(init, it);
      IdsOfOneMore(v, it);
      if |u| > |v| {
        forall j | 0 <= j < |v| ensures u[j].id != it.id {
          assert v[j].id in IdsOf(v);
        }
      }
    }
  }

  predicate Sorted(items: seq<Item>) { forall j, k | 0 <= j < k < |items| :: DateOf(items[j]) >= DateOf(items[k]) }

  lemma {:induction false} InsertAdds(sorted: seq<Item>, it: Item)
    ensures multiset(Insert(sorted, it)) == multiset(sorted) + multiset{it}
  {
    if !(sorted == [] || DateOf(sorted[0]) < DateOf(it)) {
      InsertAdds(sorted[1..], it);
      assert sorted == [sorted[0]] + sorted[1..];
    }
  }

  lemma {:induction false} InsertBelow(sorted: seq<Item>, it: Item, top: int)
    requires Sorted(sorted) && DateOf(it) <= top && forall k | 0 <= k < |sorted| :: DateOf(sorted[k]) <= top
    ensures Sorted(Insert(sorted, it)) && forall k | 0 <= k < |Insert(sorted, it)| :: DateOf(Insert(sorted, it)[k]) <= top
  {
    if !(sorted == [] || DateOf(sorted[0]) < DateOf(it)) { InsertBelow(sorted[1..], it, DateOf(sorted[0])); }
  }

  lemma InsertSorts(sorted: seq<Item>, it: Item)
    requires Sorted(sorted)
    ensures Sorted(Insert(sorted, it)) && multiset(Insert(sorted, it)) == multiset(sorted) + multiset{it}
  {
    hide Insert;
    InsertAdds(sorted, it);
    InsertBelow(sorted, it, if sorted == [] then DateOf(it) else Max(DateOf(sorted[0]), DateOf(it)));
  }

  /** The items of one date, in their order. */
  function OfDate(items: seq<Item>, date: int): seq<Item> {
    if items == [] then []
    else OfDate(items[..|items| - 1], date) + if DateOf(items[|items| - 1]) == date then [items[|items| - 1]] else []
  }

  lemma {:induction false} OfDateJoins(a: seq<Item>, b: seq<Item>, date: int)
    ensures OfDate(a + b, date) == OfDate(a, date) + OfDate(b, date)
  {
    if b == [] {
      assert a + b == a;
    } else {
      OfDateJoins(a, b[..|b| - 1], date);
      assert (a + b)[..|a + b| - 1] == a + b[..|b| - 1];
    }
  }

  lemma {:induction false} NoneOfDate(items: seq<Item>, date: int)
    requires forall k | 0 <= k < |items| :: DateOf(items[k]) != date
    ensures OfDate(items, date) == []
  {
    if items != [] { NoneOfDate(items[..|items| - 1], date); }
  }

  lemma OneOfDate(it: Item, date: int)
    ensures OfDate([it], date) == if DateOf(it) == date then [it] else []
  {
    assert [it][..0] == [];
  }

  lemma {:induction false} InsertedLast(sorted: seq<Item>, it: Item, date: int)
    requires Sorted(sorted)
    ensures OfDate(Insert(sorted, it), date) == OfDate(sorted, date) + if DateOf(it) == date then [it] else []
  {
    hide OfDate, DateOf;
    if sorted == [] || DateOf(sorted[0]) < DateOf(it) {
      OfDateJoins([it], sorted, date);
      OneOfDate(it, date);
      if DateOf(it) == date { NoneOfDate(sorted, date); }
    } else {
      var head, tail := [sorted[0]], sorted[1..];
      InsertedLast(tail, it, date);
      assert sorted == head + tail;
      OfDateJoins(head, tail, date);
      OfDateJoins(head, Insert(tail, it), date);
    }
  }

  /** The sort is stable: items of one date keep their order. */
  lemma {:induction false} SameDatesKeepTheirOrder(items: seq<Item>, date: int)
    ensures OfDate(NewestFirst(items), date) == OfDate(items, date)
  {
    if items != [] {
      var init := items[..|items| - 1];
      SameDatesKeepTheirOrder(init, date);
      NewestFirstSorts(init);
      InsertedLast(NewestFirst(init), items[|items| - 1], date);
    }
  }

  lemma {:induction false} NewestFirstSorts(items: seq<Item>)
    ensures Sorted(NewestFirst(items)) && multiset(NewestFirst(items)) == multiset(items)
  {
    if items != [] {
      var init := items[..|items| - 1];
      NewestFirstSorts(init);
      InsertSorts(NewestFirst(init), items[|items| - 1]);
      assert items == init + [items[|items| - 1]];
    }
  }

  lemma {:induction false} DistinctPermutation(a: seq<Item>, b: seq<Item>)
    requires multiset(a) == multiset(b) && Distinct(a)
    ensures Distinct(b) && IdsOf(a) == IdsOf(b) && |a| == |b|
  {
    assert |a| == |multiset(a)| == |multiset(b)| == |b|;
    forall id ensures id in IdsOf(a) <==> id in IdsOf(b) {
      assert forall k | 0 <= k < |a| :: a[k] in multiset(a);
      assert forall k | 0 <= k < |b| :: b[k] in multiset(b);
      if id in IdsOf(a) {
        var k :| 0 <= k < |a| && a[k].id == id;
        assert a[k] in b;
      }
      if id in IdsOf(b) {
        var k :| 0 <= k < |b| && b[k].id == id;
        assert b[k] in a;
      }
    }
    forall j, k | 0 <= j < k < |b| ensures b[j].id != b[k].id {
      if b[j].id == b[k].id {
        assert b[j] in multiset(b) && b[k] in multiset(b);
        assert b[j] in a && b[k] in a;
        assert b[j] == b[k];
        TwicePresent(b, j, k);
        OnceInDistinct(a, b[j]);
      }
    }
  }

  lemma TwicePresent(b: seq<Item>, j: nat, k: nat)
    requires j < k < |b| && b[j] == b[k]
    ensures multiset(b)[b[j]] >= 2
  {
    assert b == b[..k] + [b[k]] + b[k + 1..];
    assert b[..k][j] == b[j];
  }

  lemma {:induction false} OnceInDistinct(a: seq<Item>, it: Item)
    requires Distinct(a)
    ensures multiset(a)[it] <= 1
  {
    if a != [] {
      var init, last := a[..|a| - 1], a[|a| - 1];
      OnceInDistinct(init, it);
      assert a == init + [last];
      if last == it {
        forall k | 0 <= k < |init| ensures init[k] != it {
          assert init[k].id == a[k].id != last.id;
        }
        assert it !in init;
      }
    }
  }

  lemma SortedUnseen(rows: Rows, candidates: seq<Item>)
    ensures var unseen, sorted := Unseen(rows, candidates), NewestFirst(Unseen(rows, candidates));
            && Distinct(sorted) && Sorted(sorted) && IdsOf(sorted) == IdsOf(unseen) && |sorted| == |unseen|
            && forall k | 0 <= k < |unseen| :: unseen[k] in sorted
  {
    var unseen, sorted := Unseen(rows, candidates), NewestFirst(Unseen(rows, candidates));
    UnseenIsNew(rows, candidates);
    NewestFirstSorts(unseen);
    DistinctPermutation(unseen, sorted);
    forall k | 0 <= k < |unseen| ensures unseen[k] in sorted {
      assert unseen[k] in multiset(unseen);
    }
  }

  /** At most forty new items, no id twice, none kept or marked before. */
  lemma OfferedAreNew(rows: Rows, candidates: seq<Item>)
    ensures var offered := Offered(rows, candidates);
            && |offered| == Min(40, |Unseen(rows, candidates)|) && Distinct(offered)
            && forall id | id in IdsOf(offered) :: id in IdsOf(candidates) && id !in rows.signals && id !in rows.seen
  {
    SortedUnseen(rows, candidates);
    UnseenIsNew(rows, candidates);
    var offered, sorted := Offered(rows, candidates), NewestFirst(Unseen(rows, candidates));
    assert forall k | 0 <= k < |offered| :: offered[k] == sorted[k];
  }

  /** And none of them older than a new item left out. */
  lemma OfferedAreNewest(rows: Rows, candidates: seq<Item>, j: nat, k: nat)
    requires j < |Offered(rows, candidates)| && k < |Unseen(rows, candidates)|
    requires Unseen(rows, candidates)[k].id !in IdsOf(Offered(rows, candidates))
    ensures DateOf(Offered(rows, candidates)[j]) >= DateOf(Unseen(rows, candidates)[k])
  {
    SortedUnseen(rows, candidates);
    var offered, sorted, it := Offered(rows, candidates), NewestFirst(Unseen(rows, candidates)), Unseen(rows, candidates)[k];
    assert forall m | 0 <= m < |offered| :: offered[m] == sorted[m] && offered[m].id in IdsOf(offered);
    assert it in sorted;
    var m :| 0 <= m < |sorted| && sorted[m] == it;
  }

  /** What is offered is unseen and comes newest first. */
  lemma OfferedAreUnseen(rows: Rows, candidates: seq<Item>, j: nat)
    requires j < |Offered(rows, candidates)|
    ensures Offered(rows, candidates)[j] in Unseen(rows, candidates)
    ensures j > 0 ==> DateOf(Offered(rows, candidates)[j - 1]) >= DateOf(Offered(rows, candidates)[j])
  {
    var unseen, sorted := Unseen(rows, candidates), NewestFirst(Unseen(rows, candidates));
    NewestFirstSorts(unseen);
    assert sorted[j] in multiset(sorted);
  }

  // ----- What a scan keeps ----------------------------------------------------------------

  /** Each signal's date: the item's own, or when it was found. */
  function SignalDate(it: Item, now: nat): nat { if it.publishedAt.Some? then it.publishedAt.value else now }

  /** Triage keeps some of the offered items; the web search adds what is not already a signal. */
  function Kept(rows: Rows, input: Input): seq<Item> {
    Picked(Offered(rows, input.candidates), input.picks) + NotSignals(rows, input.found)
  }

  function Picked(offered: seq<Item>, picks: seq<nat>): seq<Item> {
    if picks == [] then []
    else (if picks[0] < |offered| then [offered[picks[0]]] else []) + Picked(offered, picks[1..])
  }

  function NotSignals(rows: Rows, found: seq<Item>): seq<Item> {
    if found == [] then []
    else (if found[0].id in rows.signals then [] else [found[0]]) + NotSignals(rows, found[1..])
  }

  /** The signals put in this scan: the first of each id. */
  function Additions(items: seq<Item>, now: nat): (added: map<ItemId, nat>)
    ensures added.Keys == IdsOf(items)
  {
    if items == [] then map[]
    else
      var init, it := items[..|items| - 1], items[|items| - 1];
      assert items == init + [it];
      IdsOfOneMore(init, it);
      var added := Additions(init, now);
      if it.id in added then added else added[it.id := SignalDate(it, now)]
  }

  /** `after` keeps the newest MAX_SIGNALS of `before`. */
  ghost predicate TrimmedTo(before: map<ItemId, nat>, after: map<ItemId, nat>) {
    && after.Keys <= before.Keys
    && (forall id | id in after :: after[id] == before[id])
    && |after| == Min(MAX_SIGNALS, |before|)
    && (forall gone, kept | gone in before && gone !in after && kept in after :: before[gone] <= before[kept])
  }

  /** Every offered item is marked seen; markers older than sixty days go. */
  function Marked(rows: Rows, input: Input): map<ItemId, nat> {
    var offered := IdsOf(Offered(rows, input.candidates));
    map id | id in rows.seen.Keys + offered && (if id in offered then input.now else rows.seen[id]) >= input.end - SEEN_MS
      :: if id in offered then input.now else rows.seen[id]
  }

  ghost predicate Scanned(rows: Rows, input: Input, after: Rows) {
    && TrimmedTo(rows.signals + Additions(Kept(rows, input), input.now), after.signals)
    && after.seen == Marked(rows, input)
  }

  lemma {:induction false} PickedAreOffered(offered: seq<Item>, picks: seq<nat>)
    ensures IdsOf(Picked(offered, picks)) <= IdsOf(offered)
  {
    if picks != [] {
      var rest := Picked(offered, picks[1..]);
      PickedAreOffered(offered, picks[1..]);
      forall id | id in IdsOf(Picked(offered, picks)) ensures id in IdsOf(offered) {
        var all := Picked(offered, picks);
        var k :| 0 <= k < |all| && all[k].id == id;
        if picks[0] < |offered| && k > 0 { assert all[k] == rest[k - 1]; }
        if picks[0] >= |offered| { assert all == rest; }
      }
    }
  }

  lemma {:induction false} NotSignalsAreNew(rows: Rows, found: seq<Item>)
    ensures IdsOf(NotSignals(rows, found)) !! rows.signals.Keys
  {
    if found != [] {
      var rest, all := NotSignals(rows, found[1..]), NotSignals(rows, found);
      NotSignalsAreNew(rows, found[1..]);
      forall id | id in IdsOf(all) ensures id !in rows.signals {
        var k :| 0 <= k < |all| && all[k].id == id;
        if found[0].id in rows.signals {
          assert all == rest;
        } else if k > 0 {
          assert all[k] == rest[k - 1];
        }
      }
    }
  }

  lemma KeptAreNew(rows: Rows, input: Input)
    ensures IdsOf(Kept(rows, input)) !! rows.signals.Keys
  {
    var offered := Offered(rows, input.candidates);
    var picked, found, kept := Picked(offered, input.picks), NotSignals(rows, input.found), Kept(rows, input);
    assert IdsOf(picked) !! rows.signals.Keys by {
      OfferedAreNew(rows, input.candidates);
      PickedAreOffered(offered, input.picks);
    }
    NotSignalsAreNew(rows, input.found);
    assert forall k | 0 <= k < |picked| :: picked[k].id in IdsOf(picked);
    assert forall k | 0 <= k < |found| :: found[k].id in IdsOf(found);
    assert forall k | 0 <= k < |kept| :: kept[k] == if k < |picked| then picked[k] else found[k - |picked|];
  }

  lemma DisjointSize(earlier: map<ItemId, nat>, added: map<ItemId, nat>)
    requires earlier.Keys !! added.Keys
    ensures |earlier + added| == |earlier| + |added.Keys|
  {
    assert (earlier + added).Keys == earlier.Keys + added.Keys;
    assert |earlier.Keys + added.Keys| == |earlier.Keys| + |added.Keys|;
  }

  /**
   * What a scan keeps was not a signal before, so no id is stored twice, and the
   * scan leaves the newest of the old and new signals, at most three hundred.
   */
  lemma KeptAreNewAndBounded(rows: Rows, input: Input, after: Rows)
    requires Scanned(rows, input, after)
    ensures IdsOf(Kept(rows, input)) !! rows.signals.Keys
    ensures |after.signals| == Min(300, |rows.signals| + |IdsOf(Kept(rows, input))|)
  {
    KeptAreNew(rows, input);
    DisjointSize(rows.signals, Additions(Kept(rows, input), input.now));
  }

  // ----- Which items become signals, and with which dates -----------------------------------

  /** Whether triage keeps an offered item of this id. */
  predicate TriageKeeps(rows: Rows, input: Input, id: ItemId) {
    var offered := Offered(rows, input.candidates);
    exists i :: 0 <= i < |input.picks| && input.picks[i] < |offered| && offered[input.picks[i]].id == id
  }

  predicate IsPicked(offered: seq<Item>, picks: seq<nat>, it: Item) {
    exists i :: 0 <= i < |picks| && picks[i] < |offered| && offered[picks[i]] == it
  }

  lemma PickedOneMore(offered: seq<Item>, picks: seq<nat>, it: Item)
    requires picks != []
    ensures IsPicked(offered, picks, it) <==> (picks[0] < |offered| && offered[picks[0]] == it) || IsPicked(offered, picks[1..], it)
  {
    if i :| 0 <= i < |picks| && picks[i] < |offered| && offered[picks[i]] == it {
      assert i > 0 ==> picks[1..][i - 1] == picks[i];
    }
    if i :| 0 <= i < |picks[1..]| && picks[1..][i] < |offered| && offered[picks[1..][i]] == it {
      assert picks[i + 1] == picks[1..][i];
    }
  }

  lemma {:induction false} PickedAre(offered: seq<Item>, picks: seq<nat>, it: Item)
    ensures it in Picked(offered, picks) <==> IsPicked(offered, picks, it)
  {
    if picks != [] {
      PickedAre(offered, picks[1..], it);
      PickedOneMore(offered, picks, it);
    }
  }

  lemma {:induction false} NotSignalsAre(rows: Rows, found: seq<Item>, it: Item)
    ensures it in NotSignals(rows, found) <==> it in found && it.id !in rows.signals
  {
    if found != [] {
      NotSignalsAre(rows, found[1..], it);
      assert found == [found[0]] + found[1..];
    }
  }

  lemma HasId(items: seq<Item>, id: ItemId)
    ensures id in IdsOf(items) <==> exists it :: it in items && it.id == id
  {
    if id in IdsOf(items) {
      var k :| 0 <= k < |items| && items[k].id == id;
      assert items[k] in items;
    }
  }

  /** Kept are the items triage keeps and those the web search found that are no signals yet, and no others. */
  lemma KeptExactly(rows: Rows, input: Input, id: ItemId)
    ensures id in IdsOf(Kept(rows, input)) <==> TriageKeeps(rows, input, id) || (id in IdsOf(input.found) && id !in rows.signals)
  {
    var offered := Offered(rows, input.candidates);
    var picked, found, kept := Picked(offered, input.picks), NotSignals(rows, input.found), Kept(rows, input);
    HasId(kept, id);
    HasId(input.found, id);
    if it :| it in kept && it.id == id {
      PickedAre(offered, input.picks, it);
      NotSignalsAre(rows, input.found, it);
      assert it in picked || it in found;
    }
    if TriageKeeps(rows, input, id) {
      var i :| 0 <= i < |input.picks| && input.picks[i] < |offered| && offered[input.picks[i]].id == id;
      PickedAre(offered, input.picks, offered[input.picks[i]]);
      assert offered[input.picks[i]] in kept;
    }
    if it :| it in input.found && it.id == id && id !in rows.signals {
      NotSignalsAre(rows, input.found, it);
      assert it in kept;
    }
  }

  /** The first item of an id in a list. */
  predicate FirstOf(items: seq<Item>, id: ItemId, k: nat) {
    k < |items| && items[k].id == id && forall j | 0 <= j < k :: items[j].id != id
  }

  lemma {:induction false} AdditionsAreFirsts(items: seq<Item>, now: nat, id: ItemId, k: nat)
    requires FirstOf(items, id, k)
    ensures id in Additions(items, now)
    ensures Additions(items, now)[id] == if items[k].publishedAt.Some? then items[k].publishedAt.value else now
    decreases |items|
  {
    var init := items[..|items| - 1];
    if k < |init| {
      AdditionsAreFirsts(init, now, id, k);
    } else {
      assert forall j | 0 <= j < |init| :: init[j].id == items[j].id != id;
    }
  }

  lemma {:induction false} FirstFound(rows: Rows, found: seq<Item>, id: ItemId, j: nat) returns (k: nat)
    requires FirstOf(found, id, j) && id !in rows.signals
    ensures FirstOf(NotSignals(rows, found), id, k) && NotSignals(rows, found)[k] == found[j]
  {
    if j == 0 {
      k := 0;
    } else {
      assert FirstOf(found[1..], id, j - 1) by { assert forall m | 0 <= m < j :: found[1..][m] == found[m + 1]; }
      var rest := FirstFound(rows, found[1..], id, j - 1);
      k := if found[0].id in rows.signals then rest else rest + 1;
    }
  }

  lemma HasFirst(items: seq<Item>, id: ItemId) returns (k: nat)
    requires id in IdsOf(items)
    ensures FirstOf(items, id, k)
  {
    k := 0;
    while items[k].id != id
      invariant k < |items| && forall j | 0 <= j < k :: items[j].id != id
      invariant exists m :: k <= m < |items| && items[m].id == id
      decreases |items| - k
    {
      k := k + 1;
    }
  }

  /** An item that triage keeps is put with its own date, or else the scan's time, whatever the web search found. */
  lemma PickedDate(rows: Rows, input: Input, i: nat)
    requires i < |input.picks| && input.picks[i] < |Offered(rows, input.candidates)|
    ensures var it := Offered(rows, input.candidates)[input.picks[i]];
            && it.id in Additions(Kept(rows, input), input.now)
            && Additions(Kept(rows, input), input.now)[it.id] == if it.publishedAt.Some? then it.publishedAt.value else input.now
  {
    hide Additions, Offered, Picked, NotSignals;
    var offered := Offered(rows, input.candidates);
    var it, picked, kept := offered[input.picks[i]], Picked(offered, input.picks), Kept(rows, input);
    OfferedAreNew(rows, input.candidates);
    PickedAre(offered, input.picks, it);
    HasId(picked, it.id);
    var k := HasFirst(picked, it.id);
    assert kept[k] == picked[k] && FirstOf(kept, it.id, k);
    PickedAre(offered, input.picks, picked[k]);
    var m :| 0 <= m < |input.picks| && input.picks[m] < |offered| && offered[input.picks[m]] == picked[k];
    assert offered[input.picks[m]].id == offered[input.picks[i]].id;
    AdditionsAreFirsts(kept, input.now, it.id, k);
  }

  /** An item only the web search found is put with the date of the first of its id. */
  lemma FoundDate(rows: Rows, input: Input, id: ItemId, j: nat)
    requires FirstOf(input.found, id, j) && id !in rows.signals && !TriageKeeps(rows, input, id)
    ensures id in Additions(Kept(rows, input), input.now)
    ensures Additions(Kept(rows, input), input.now)[id]
         == if input.found[j].publishedAt.Some? then input.found[j].publishedAt.value else input.now
  {
    var offered := Offered(rows, input.candidates);
    var picked, found, kept := Picked(offered, input.picks), NotSignals(rows, input.found), Kept(rows, input);
    forall m | 0 <= m < |picked|
      ensures picked[m].id != id
    {
      PickedAre(offered, input.picks, picked[m]);
    }
    var k := FirstFound(rows, input.found, id, j);
    assert forall m | 0 <= m < |found| :: kept[|picked| + m] == found[m];
    assert FirstOf(kept, id, |picked| + k);
    AdditionsAreFirsts(kept, input.now, id, |picked| + k);
  }

  predicate IsOldOrNew(rows: Rows, input: Input, id: ItemId) {
    id in rows.signals || TriageKeeps(rows, input, id) || id in IdsOf(input.found)
  }

  /** The item's own date, or else the scan's time. */
  predicate IsDateOf(date: nat, it: Item, now: nat) { date == if it.publishedAt.Some? then it.publishedAt.value else now }

  /** The date of whatever item triage keeps under this id. */
  ghost predicate IsPickedDate(rows: Rows, input: Input, id: ItemId, date: nat) {
    var offered := Offered(rows, input.candidates);
    forall i | 0 <= i < |input.picks| && input.picks[i] < |offered| && offered[input.picks[i]].id == id ::
      IsDateOf(date, offered[input.picks[i]], input.now)
  }

  /** The date of the first item found under this id. */
  ghost predicate IsFoundDate(input: Input, id: ItemId, date: nat) {
    forall j: nat | FirstOf(input.found, id, j) :: IsDateOf(date, input.found[j], input.now)
  }

  /** The date a signal has after a scan: the one it had, that of the item triage kept, or that of the first one found. */
  ghost predicate HasDate(rows: Rows, input: Input, id: ItemId, date: nat) {
    if id in rows.signals then date == rows.signals[id]
    else if TriageKeeps(rows, input, id) then IsPickedDate(rows, input, id, date)
    else IsFoundDate(input, id, date)
  }

  /**
   * After a scan the signals are those there were, those triage kept and those
   * found, each with its date; one of them is gone only when three hundred
   * others, none of them older, are there.
   */
  lemma SignalsAfterScan(rows: Rows, input: Input, after: Rows, id: ItemId)
    requires Scanned(rows, input, after)
    ensures id in after.signals ==> IsOldOrNew(rows, input, id) && HasDate(rows, input, id, after.signals[id])
    ensures IsOldOrNew(rows, input, id) && id !in after.signals ==>
      |after.signals| == 300 && exists date :: HasDate(rows, input, id, date) && forall other | other in after.signals :: after.signals[other] >= date
  {
    var before := rows.signals + Additions(Kept(rows, input), input.now);
    hide Additions, Kept, TriageKeeps, HasDate;
    KeptExactly(rows, input, id);
    KeptAreNew(rows, input);
    if id in before { DateBefore(rows, input, id); }
    if id in before && id !in after.signals {
      assert HasDate(rows, input, id, before[id]);
      assert after.signals.Keys < before.Keys;
      SmallerKeys(after.signals, before);
    }
  }

  lemma SmallerKeys(a: map<ItemId, nat>, b: map<ItemId, nat>)
    requires a.Keys < b.Keys
    ensures |a| < |b|
  {
    var id :| id in b && id !in a;
    assert a.Keys <= b.Keys - {id};
    SizeOfSubset(a.Keys, b.Keys - {id});
  }

  lemma {:induction false} SizeOfSubset(a: set<ItemId>, b: set<ItemId>)
    requires a <= b
    ensures |a| <= |b|
  {
    if a != {} {
      var x :| x in a;
      SizeOfSubset(a - {x}, b - {x});
    }
  }

  lemma PickedDates(rows: Rows, input: Input, id: ItemId)
    requires TriageKeeps(rows, input, id)
    ensures id in Additions(Kept(rows, input), input.now)
    ensures IsPickedDate(rows, input, id, Additions(Kept(rows, input), input.now)[id])
  {
    hide Additions, Kept, Offered;
    var offered, additions := Offered(rows, input.candidates), Additions(Kept(rows, input), input.now);
    forall i | 0 <= i < |input.picks| && input.picks[i] < |offered| && offered[input.picks[i]].id == id
      ensures id in additions && IsDateOf(additions[id], offered[input.picks[i]], input.now)
    {
      PickedDate(rows, input, i);
    }
  }

  lemma FoundDates(rows: Rows, input: Input, id: ItemId)
    requires id in IdsOf(input.found) && id !in rows.signals && !TriageKeeps(rows, input, id)
    ensures id in Additions(Kept(rows, input), input.now)
    ensures IsFoundDate(input, id, Additions(Kept(rows, input), input.now)[id])
  {
    hide Additions, Kept, Offered, TriageKeeps;
    var additions := Additions(Kept(rows, input), input.now);
    var first := HasFirst(input.found, id);
    FoundDate(rows, input, id, first);
    forall j: nat | FirstOf(input.found, id, j)
      ensures IsDateOf(additions[id], input.found[j], input.now)
    {
      FoundDate(rows, input, id, j);
    }
  }

  lemma DateBefore(rows: Rows, input: Input, id: ItemId)
    requires id in rows.signals + Additions(Kept(rows, input), input.now)
    ensures HasDate(rows, input, id, (rows.signals + Additions(Kept(rows, input), input.now))[id])
  {
    hide Additions, Kept, TriageKeeps, IsPickedDate, IsFoundDate;
    KeptAreNew(rows, input);
    KeptExactly(rows, input, id);
    if id !in rows.signals {
      if TriageKeeps(rows, input, id) { PickedDates(rows, input, id); } else { FoundDates(rows, input, id); }
    }
  }

  /** Markers after a scan: a new one for each item offered, and those not older than sixty days. */
  lemma MarkersAfterScan(rows: Rows, input: Input, after: Rows, id: ItemId)
    requires Scanned(rows, input, after)
    ensures var marker := if id in IdsOf(Offered(rows, input.candidates)) then Some(input.now) else At(rows.seen, id);
            At(after.seen, id) == if marker.Some? && input.end - marker.value <= 60 * 86_400_000 then marker else None
  {
  }

  /** Of several items read under one id the first counts. */
  lemma {:induction false} UnseenAreFirsts(rows: Rows, items: seq<Item>, it: Item)
    ensures it in Unseen(rows, items)
       <==> it.id !in rows.signals && it.id !in rows.seen && exists k: nat :: FirstOf(items, it.id, k) && items[k] == it
  {
    if items != [] {
      var init, last := items[..|items| - 1], items[|items| - 1];
      UnseenAreFirsts(rows, init, it);
      assert forall k | 0 <= k < |init| :: init[k] == items[k];
      if k: nat :| FirstOf(init, it.id, k) && init[k] == it {
        assert FirstOf(items, it.id, k) && items[k] == it;
      }
      if k: nat :| FirstOf(items, it.id, k) && items[k] == it {
        if k < |init| {
          assert FirstOf(init, it.id, k);
        } else {
          assert last.id !in IdsOf(init);
        }
      }
      if it == last && it.id !in IdsOf(init) { assert FirstOf(items, it.id, |init|); }
    }
  }

  // ----- Runs ------------------------------------------------------------------------------------

  /** One scan after another, with a clock that never runs backwards. */
  ghost predicate ScanRun(states: seq<Rows>, inputs: seq<Input>) {
    && |states| == |inputs| + 1
    && (forall i | 0 <= i < |inputs| :: Scanned(states[i], inputs[i], states[i + 1]) && inputs[i].start <= inputs[i].now <= inputs[i].end)
    && (forall i | 0 < i < |inputs| :: inputs[i - 1].end <= inputs[i].start)
  }

  predicate OfferedIn(states: seq<Rows>, inputs: seq<Input>, i: nat, id: ItemId)
    requires i < |inputs| && |states| == |inputs| + 1
  {
    id in IdsOf(Offered(states[i], inputs[i].candidates))
  }

  /** From an item's offer on, its marker stands or sixty days have gone by. */
  lemma {:induction false} MarkerStands(states: seq<Rows>, inputs: seq<Input>, i: nat, k: nat, id: ItemId)
    requires ScanRun(states, inputs) && i < k <= |inputs| && OfferedIn(states, inputs, i, id)
    ensures (id in states[k].seen && states[k].seen[id] >= inputs[i].now) || inputs[k - 1].end > inputs[i].now + SEEN_MS
    ensures inputs[i].now <= inputs[k - 1].end
    decreases k
  {
    assert states[k - 1 + 1].seen == Marked(states[k - 1], inputs[k - 1]);
    if k - 1 > i {
      MarkerStands(states, inputs, i, k - 1, id);
      assert inputs[k - 1 - 1].end <= inputs[k - 1].start;
    }
    MarkerAfterScan(states[k - 1], inputs[k - 1], id, inputs[i].now);
  }

  /** One scan leaves a marker no older than it was, or clears it after sixty days. */
  lemma MarkerAfterScan(rows: Rows, input: Input, id: ItemId, since: nat)
    ensures since <= input.now && (id in IdsOf(Offered(rows, input.candidates)) || (id in rows.seen && rows.seen[id] >= since))
        ==> (id in Marked(rows, input) && Marked(rows, input)[id] >= since) || input.end > since + SEEN_MS
  {
  }

  /** In every run an item offered twice is offered again only by a scan that starts more than sixty days after it was marked. */
  lemma OfferedAgainOnlyLater(states: seq<Rows>, inputs: seq<Input>, i: nat, j: nat, id: ItemId)
    requires ScanRun(states, inputs) && i < j < |inputs|
    requires OfferedIn(states, inputs, i, id) && OfferedIn(states, inputs, j, id)
    ensures inputs[j].start > inputs[i].now + 60 * 86_400_000
  {
    MarkerStands(states, inputs, i, j, id);
    assert inputs[j - 1].end <= inputs[j].start;
    OfferedAreNew(states[j], inputs[j].candidates);
  }

  // ----- The scan as it runs ----------------------------------------------------------------------

  /** A list of exactly these ids, none twice, newest first. */
  ghost predicate Lists(list: seq<ItemId>, dates: map<ItemId, nat>, ids: set<ItemId>) {
    && ids <= dates.Keys
    && (forall id :: id in list <==> id in ids)
    && (forall j, k | 0 <= j < k < |list| :: list[j] != list[k])
    && (forall k | 0 <= k < |list| :: list[k] in dates)
    && (forall j, k | 0 <= j < k < |list| :: dates[list[j]] >= dates[list[k]])
  }

  function InsertedAt(list: seq<ItemId>, id: ItemId, at: nat): (more: seq<ItemId>)
    requires at <= |list|
    ensures |more| == |list| + 1
    ensures forall k | 0 <= k < |more| :: more[k] == if k < at then list[k] else if k == at then id else list[k - 1]
  {
    list[..at] + [id] + list[at..]
  }

  lemma InsertedMembers(list: seq<ItemId>, id: ItemId, at: nat, x: ItemId)
    requires at <= |list|
    ensures x in InsertedAt(list, id, at) <==> x == id || x in list
  {
    var more := InsertedAt(list, id, at);
    if x in list {
      var k :| 0 <= k < |list| && list[k] == x;
      assert more[if k < at then k else k + 1] == x;
    }
    assert more[at] == id;
  }

  lemma ListsOneMore(list: seq<ItemId>, dates: map<ItemId, nat>, ids: set<ItemId>, id: ItemId, at: nat)
    requires Lists(list, dates, ids) && id in dates && id !in ids && at <= |list|
    requires forall k | 0 <= k < at :: dates[list[k]] >= dates[id]
    requires at < |list| ==> dates[list[at]] < dates[id]
    ensures Lists(InsertedAt(list, id, at), dates, ids + {id})
  {
    var more := InsertedAt(list, id, at);
    forall x ensures x in more <==> x in ids + {id} {
      InsertedMembers(list, id, at, x);
    }
    assert forall k | 0 <= k < |list| :: list[k] in list;
    forall j, k | 0 <= j < k < |more| ensures more[j] != more[k] {
      assert more[j] == id ==> j == at;
    }
    forall j, k | 0 <= j < k < |more| ensures dates[more[j]] >= dates[more[k]] {
      if j == at { assert dates[list[at]] >= dates[list[k - 1]]; }
    }
  }

  function Prefix(list: seq<ItemId>, n: nat): (ids: set<ItemId>)
    requires n <= |list|
  {
    set k | 0 <= k < n :: list[k]
  }

  lemma {:induction false} PrefixSize(list: seq<ItemId>, n: nat)
    requires n <= |list| && forall j, k | 0 <= j < k < |list| :: list[j] != list[k]
    ensures |Prefix(list, n)| == n
  {
    if n > 0 {
      PrefixSize(list, n - 1);
      assert Prefix(list, n) == Prefix(list, n - 1) + {list[n - 1]};
      assert list[n - 1] !in Prefix(list, n - 1);
    } else {
      assert Prefix(list, 0) == {};
    }
  }

  lemma PrefixLess(list: seq<ItemId>, n: nat)
    requires n < |list| && forall j, k | 0 <= j < k < |list| :: list[j] != list[k]
    ensures Prefix(list, n + 1) == Prefix(list, n) + {list[n]} && list[n] !in Prefix(list, n)
  {
  }

  function Restricted(dates: map<ItemId, nat>, list: seq<ItemId>, n: nat): map<ItemId, nat>
    requires n <= |list|
  {
    map id | id in dates && id in Prefix(list, n) :: dates[id]
  }

  lemma RestrictedLess(dates: map<ItemId, nat>, list: seq<ItemId>, n: nat)
    requires n < |list| && Lists(list, dates, dates.Keys)
    ensures Restricted(dates, list, n + 1) - {list[n]} == Restricted(dates, list, n)
  {
    PrefixLess(list, n);
  }

  lemma RestrictedToAll(dates: map<ItemId, nat>, list: seq<ItemId>)
    requires Lists(list, dates, dates.Keys)
    ensures Restricted(dates, list, |list|) == dates
  {
    forall id | id in dates ensures id in Prefix(list, |list|) {
      assert id in list;
    }
  }

  /** Dropping what comes after the first three hundred of the list is trimming. */
  lemma NewestAreKept(list: seq<ItemId>, dates: map<ItemId, nat>, after: map<ItemId, nat>)
    requires Lists(list, dates, dates.Keys)
    requires after == Restricted(dates, list, Min(MAX_SIGNALS, |list|))
    ensures TrimmedTo(dates, after)
  {
    var n := Min(MAX_SIGNALS, |list|);
    assert |after| == n && |dates| == |list| by {
      PrefixSize(list, n);
      PrefixSize(list, |list|);
      assert Prefix(list, |list|) == dates.Keys;
      assert after.Keys == Prefix(list, n);
    }
    forall gone, kept | gone in dates && gone !in after && kept in after ensures dates[gone] <= dates[kept] {
      RankedBelow(list, dates, n, gone, kept);
    }
  }

  lemma RankedBelow(list: seq<ItemId>, dates: map<ItemId, nat>, n: nat, gone: ItemId, kept: ItemId)
    requires Lists(list, dates, dates.Keys) && n <= |list|
    requires gone in dates && gone !in Prefix(list, n) && kept in Prefix(list, n)
    ensures dates[gone] <= dates[kept]
  {
    assert gone in list && forall m | 0 <= m < n :: list[m] in Prefix(list, n);
    var j :| 0 <= j < |list| && list[j] == gone;
    var k :| 0 <= k < n && list[k] == kept;
  }

  function MarksOf(offered: seq<Item>, now: nat): map<ItemId, nat> { map id | id in IdsOf(offered) :: now }

  lemma MarkedIsExpiry(rows: Rows, input: Input)
    ensures var seen := rows.seen + MarksOf(Offered(rows, input.candidates), input.now);
            Marked(rows, input) == map id | id in seen && seen[id] >= input.end - SEEN_MS :: seen[id]
  {
  }

  lemma AddedLast(a: map<ItemId, nat>, b: map<ItemId, nat>, id: ItemId, date: nat)
    ensures a + b[id := date] == (a + b)[id := date]
    ensures b[id := date].Keys == b.Keys + {id}
  {
  }

  lemma AdditionsOneMore(items: seq<Item>, i: nat, now: nat)
    requires i < |items|
    ensures Additions(items[..i + 1], now)
         == (if items[i].id in Additions(items[..i], now) then Additions(items[..i], now)
             else Additions(items[..i], now)[items[i].id := SignalDate(items[i], now)])
  {
    assert items[..i + 1][..i] == items[..i];
  }

  class Workspace {
    var signals: map<ItemId, nat>
    var seen: map<ItemId, nat>

    constructor ()
      ensures signals == map[] && seen == map[]
    {
      signals, seen := map[], map[];
    }

    ghost function Contents(): Rows
      reads this
    {
      Rows(signals, seen)
    }

    /** The signals' ids, newest first. */
    method ListSignals() returns (list: seq<ItemId>)
      ensures Lists(list, signals, signals.Keys)
    {
      list := [];
      var rest := signals.Keys;
      while rest != {}
        invariant rest <= signals.Keys && Lists(list, signals, signals.Keys - rest)
      {
        var id :| id in rest;
        var at := 0;
        while at < |list| && signals[list[at]] >= signals[id]
          invariant 0 <= at <= |list| && forall k | 0 <= k < at :: signals[list[k]] >= signals[id]
        {
          at := at + 1;
        }
        ListsOneMore(list, signals, signals.Keys - rest, id, at);
        list := InsertedAt(list, id, at);
        assert signals.Keys - (rest - {id}) == signals.Keys - rest + {id};
        rest := rest - {id};
      }
      assert signals.Keys - {} == signals.Keys;
    }

    method MarkSeen(offered: seq<Item>, now: nat)
      modifies this`seen
      ensures seen == old(seen) + MarksOf(offered, now)
    {
      for i := 0 to |offered|
        invariant seen == old(seen) + MarksOf(offered[..i], now)
      {
        IdsOfOneMore(offered[..i], offered[i]);
        assert offered[..i + 1] == offered[..i] + [offered[i]];
        seen := seen[offered[i].id := now];
      }
      assert offered[..|offered|] == offered;
    }

    method PutSignals(kept: seq<Item>, now: nat)
      modifies this`signals
      ensures signals == old(signals) + Additions(kept, now)
    {
      var put: set<ItemId> := {};
      ghost var added := Additions(kept[..0], now);
      for i := 0 to |kept|
        invariant added == Additions(kept[..i], now) && put == added.Keys
        invariant signals == old(signals) + added
      {
        var it := kept[i];
        AdditionsOneMore(kept, i, now);
        if it.id !in put {
          AddedLast(old(signals), added, it.id, SignalDate(it, now));
          signals := signals[it.id := SignalDate(it, now)];
          put := put + {it.id};
          added := added[it.id := SignalDate(it, now)];
        }
      }
      assert kept[..|kept|] == kept;
    }

    method TrimSignals()
      modifies this`signals
      ensures TrimmedTo(old(signals), signals)
    {
      hide Restricted, TrimmedTo, Lists;
      var list := ListSignals();
      RestrictedToAll(signals, list);
      var i := |list|;
      while i > MAX_SIGNALS
        invariant i <= |list| && Min(MAX_SIGNALS, |list|) <= i
        invariant signals == Restricted(old(signals), list, i)
      {
        i := i - 1;
        RestrictedLess(old(signals), list, i);
        signals := signals - {list[i]};
      }
      NewestAreKept(list, old(signals), signals);
    }

    method ScanWorkspace(input: Input)
      modifies this
      ensures Scanned(old(Contents()), input, Contents())
    {
      var offered := Offered(Rows(signals, seen), input.candidates);
      var kept := Picked(offered, input.picks) + NotSignals(Rows(signals, seen), input.found);
      MarkSeen(offered, input.now);
      PutSignals(kept, input.now);
      TrimSignals();
      MarkedIsExpiry(old(Contents()), input);
      seen := map id | id in seen && seen[id] >= input.end - SEEN_MS :: seen[id];
    }
  }
}
