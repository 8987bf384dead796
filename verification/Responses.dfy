/** The answers to a question as the handlers collect them: in one plain object, under the people's ids. */
module Responses {
  import opened Basics
  import opened Store
  import opened Records
  import Tally

  // ----- A plain object ---------------------------------------------------------------

  /** An object literal: its own entries, and the prototype that assigning to one name sets instead of an entry. */
  datatype Answers = Answers(own: map<Id, Doc>, proto: Option<Doc>)

  const NO_ANSWERS := Answers(map[], None)

  const PROTO: Id := "__proto__"

  // The names every object answers to without having them.
  const INHERITED: set<Id> := {
    PROTO, "constructor", "hasOwnProperty", "isPrototypeOf", "propertyIsEnumerable", "toLocaleString", "toString", "valueOf",
    "__defineGetter__", "__defineSetter__", "__lookupGetter__", "__lookupSetter__"}

  // The names a stored answer has, and passes on to an object it is the prototype of.
  const FIELDS: set<Id> := {"answers", "submittedAt"}

  function Assigned(o: Answers, p: Id, d: Doc): Answers {
    if p == PROTO then o.(proto := Some(d)) else o.(own := o.own[p := d])
  }

  /** Nothing, an answer, or something that is not one: reading answers from that throws. */
  datatype Found = Nothing | Stored(d: Doc) | Stray

  function LookUp(o: Answers, p: Id): Found {
    if p in o.own then Stored(o.own[p])
    else if p == PROTO && o.proto.Some? then Stored(o.proto.value)
    else if p in INHERITED || (p in FIELDS && o.proto.Some?) then Stray
    else Nothing
  }

  // ----- Collecting the answers -----------------------------------------------------------

  predicate PeopleDiffer(invitees: seq<Invitee>) {
    forall i, j | 0 <= i < j < |invitees| :: invitees[i].personId != invitees[j].personId
  }

  predicate IsInvited(invitees: seq<Invitee>, p: Id) { exists i :: 0 <= i < |invitees| && invitees[i].personId == p }

  /** responsesOf: person by person. */
  function Collect(invitees: seq<Invitee>, t: Table<Row, Doc>): Answers {
    if invitees == [] then NO_ANSWERS
    else
      var before, p := Collect(invitees[..|invitees| - 1], t), invitees[|invitees| - 1].personId;
      if Response(p) in t then Assigned(before, p, t[Response(p)]) else before
  }

  /** Whether someone under the one special id has been asked and has answered. */
  predicate ProtoAnswered(invitees: seq<Invitee>, t: Table<Row, Doc>) { IsInvited(invitees, PROTO) && Response(PROTO) in t }

  lemma InvitedOneMore(invitees: seq<Invitee>, p: Id)
    requires invitees != []
    ensures IsInvited(invitees, p) <==> IsInvited(invitees[..|invitees| - 1], p) || invitees[|invitees| - 1].personId == p
  {
    var rest := invitees[..|invitees| - 1];
    if IsInvited(rest, p) {
      var i :| 0 <= i < |rest| && rest[i].personId == p;
      assert invitees[i].personId == p;
    }
    if i :| 0 <= i < |invitees| && invitees[i].personId == p {
      assert i < |rest| ==> rest[i].personId == p;
    }
  }

  /** The object has every answer of the people asked under their ids, but for one id: that answer becomes its prototype. */
  lemma {:induction false} CollectedAre(invitees: seq<Invitee>, t: Table<Row, Doc>, p: Id)
    ensures At(Collect(invitees, t).own, p) == if p != PROTO && IsInvited(invitees, p) then At(t, Response(p)) else None
    ensures Collect(invitees, t).proto == if IsInvited(invitees, PROTO) then At(t, Response(PROTO)) else None
  {
    if invitees != [] {
      CollectedAre(invitees[..|invitees| - 1], t, p);
      InvitedOneMore(invitees, p);
      InvitedOneMore(invitees, PROTO);
    }
  }

  /** Tables with the same answers give the same object. */
  lemma {:induction false} CollectFrame(invitees: seq<Invitee>, t: Table<Row, Doc>, after: Table<Row, Doc>)
    requires forall p :: At(t, Response(p)) == At(after, Response(p))
    ensures Collect(invitees, t) == Collect(invitees, after)
  {
    if invitees != [] {
      CollectFrame(invitees[..|invitees| - 1], t, after);
      var p := invitees[|invitees| - 1].personId;
      assert At(t, Response(p)) == At(after, Response(p));
    }
  }

  // ----- Who is missing ----------------------------------------------------------------------

  predicate Waiting(i: Invitee, t: Table<Row, Doc>) { i.permanent && Response(i.personId) !in t }

  function Label(i: Invitee): string { i.name + " (" + i.role + ")" }

  /** The permanent members with no stored answer, by name and role, in the order they were listed. */
  function Missing(invitees: seq<Invitee>, t: Table<Row, Doc>): seq<string> {
    if invitees == [] then []
    else
      var i := invitees[|invitees| - 1];
      Missing(invitees[..|invitees| - 1], t) + if Waiting(i, t) then [Label(i)] else []
  }

  /** The names the decision lists: those whose id is not a key of the object. */
  function NamedMissing(invitees: seq<Invitee>, o: Answers): seq<string> {
    if invitees == [] then []
    else
      var i := invitees[|invitees| - 1];
      NamedMissing(invitees[..|invitees| - 1], o) + if i.permanent && i.personId !in o.own then [Label(i)] else []
  }

  /** A permanent member with no stored answer, named with the role in brackets. */
  predicate IsMissingAs(i: Invitee, t: Table<Row, Doc>, name: string) {
    i.permanent && Response(i.personId) !in t && name == i.name + " (" + i.role + ")"
  }

  /** The names listed are those of the permanent members waited for, and no others. */
  lemma {:induction false} MissingIsExact(invitees: seq<Invitee>, t: Table<Row, Doc>, name: string)
    ensures name in Missing(invitees, t) <==> exists i :: 0 <= i < |invitees| && IsMissingAs(invitees[i], t, name)
  {
    if invitees != [] {
      var rest := invitees[..|invitees| - 1];
      MissingIsExact(rest, t, name);
      if i :| 0 <= i < |rest| && IsMissingAs(rest[i], t, name) {
        assert invitees[i] == rest[i];
      }
      if i :| 0 <= i < |invitees| && IsMissingAs(invitees[i], t, name) {
        assert i < |rest| ==> rest[i] == invitees[i];
      }
    }
  }

  /** Listed although the answer is stored. */
  predicate Overlooked(i: Invitee, o: Answers, t: Table<Row, Doc>) {
    i.permanent && i.personId !in o.own && Response(i.personId) in t
  }

  predicate SomeOverlooked(invitees: seq<Invitee>, o: Answers, t: Table<Row, Doc>) {
    exists i :: 0 <= i < |invitees| && Overlooked(invitees[i], o, t)
  }

  lemma OverlookedOneMore(invitees: seq<Invitee>, o: Answers, t: Table<Row, Doc>)
    requires invitees != []
    ensures SomeOverlooked(invitees, o, t)
       <==> SomeOverlooked(invitees[..|invitees| - 1], o, t) || Overlooked(invitees[|invitees| - 1], o, t)
  {
    var rest := invitees[..|invitees| - 1];
    if i :| 0 <= i < |rest| && Overlooked(rest[i], o, t) {
      assert Overlooked(invitees[i], o, t);
    }
    if i :| 0 <= i < |invitees| && Overlooked(invitees[i], o, t) {
      assert i < |rest| ==> rest[i] == invitees[i];
    }
  }

  predicate NoKeyMadeUp(invitees: seq<Invitee>, o: Answers, t: Table<Row, Doc>) {
    forall i | 0 <= i < |invitees| :: invitees[i].personId in o.own ==> Response(invitees[i].personId) in t
  }

  lemma {:induction false} ListedOrMissing(invitees: seq<Invitee>, o: Answers, t: Table<Row, Doc>)
    requires NoKeyMadeUp(invitees, o, t)
    ensures |NamedMissing(invitees, o)| >= |Missing(invitees, t)|
    ensures SomeOverlooked(invitees, o, t) ==> |NamedMissing(invitees, o)| > |Missing(invitees, t)|
    ensures !SomeOverlooked(invitees, o, t) ==> NamedMissing(invitees, o) == Missing(invitees, t)
  {
    if invitees != [] {
      var rest := invitees[..|invitees| - 1];
      assert forall i | 0 <= i < |rest| :: rest[i] == invitees[i];
      ListedOrMissing(rest, o, t);
      OverlookedOneMore(invitees, o, t);
      assert NoKeyMadeUp([invitees[|invitees| - 1]], o, t);
    }
  }

  /** Whether a permanent member goes by the one special id. */
  predicate ProtoIsPermanent(invitees: seq<Invitee>) {
    exists i :: 0 <= i < |invitees| && invitees[i].permanent && invitees[i].personId == PROTO
  }

  /** The names listed are the missing ones exactly unless a permanent member under that id has answered. */
  lemma ListedAreMissingExactlyWhen(invitees: seq<Invitee>, t: Table<Row, Doc>)
    ensures NamedMissing(invitees, Collect(invitees, t)) == Missing(invitees, t) <==> !(ProtoIsPermanent(invitees) && Response(PROTO) in t)
  {
    var o := Collect(invitees, t);
    forall i | 0 <= i < |invitees|
      ensures invitees[i].personId in o.own <==> invitees[i].personId != PROTO && Response(invitees[i].personId) in t
    {
      CollectedAre(invitees, t, invitees[i].personId);
      assert IsInvited(invitees, invitees[i].personId);
    }
    ListedOrMissing(invitees, o, t);
    if ProtoIsPermanent(invitees) && Response(PROTO) in t {
      var i :| 0 <= i < |invitees| && invitees[i].permanent && invitees[i].personId == PROTO;
      assert Overlooked(invitees[i], o, t);
    }
  }

  // ----- How many have answered -------------------------------------------------------------------

  /** How many of the people asked have a stored answer. */
  function Answered(invitees: seq<Invitee>, t: Table<Row, Doc>): nat {
    if invitees == [] then 0
    else Answered(invitees[..|invitees| - 1], t) + if Response(invitees[|invitees| - 1].personId) in t then 1 else 0
  }

  lemma {:induction false} CountedAre(invitees: seq<Invitee>, t: Table<Row, Doc>)
    requires PeopleDiffer(invitees)
    ensures |Collect(invitees, t).own| + (if ProtoAnswered(invitees, t) then 1 else 0) == Answered(invitees, t)
  {
    if invitees != [] {
      var rest, p := invitees[..|invitees| - 1], invitees[|invitees| - 1].personId;
      assert forall i | 0 <= i < |rest| :: rest[i] == invitees[i];
      CountedAre(rest, t);
      InvitedOneMore(invitees, PROTO);
      assert !IsInvited(rest, p);
      CollectedAre(rest, t, p);
    }
  }

  /** The number of keys is the number of answers exactly unless one is under that id. */
  lemma CountedExactlyWhen(invitees: seq<Invitee>, t: Table<Row, Doc>)
    requires PeopleDiffer(invitees)
    ensures |Collect(invitees, t).own| == Answered(invitees, t) <==> !ProtoAnswered(invitees, t)
  {
    CountedAre(invitees, t);
  }

  /** The handlers say that no one has answered exactly when no one has, or only someone under that id. */
  lemma SeemsUnansweredExactlyWhen(invitees: seq<Invitee>, t: Table<Row, Doc>)
    ensures Collect(invitees, t).own == map[]
       <==> forall i | 0 <= i < |invitees| && Response(invitees[i].personId) in t :: invitees[i].personId == PROTO
  {
    var own := Collect(invitees, t).own;
    forall i | 0 <= i < |invitees|
      ensures invitees[i].personId in own <==> Response(invitees[i].personId) in t && invitees[i].personId != PROTO
    {
      CollectedAre(invitees, t, invitees[i].personId);
      assert IsInvited(invitees, invitees[i].personId);
    }
    if p :| p in own {
      CollectedAre(invitees, t, p);
      var i :| 0 <= i < |invitees| && invitees[i].personId == p;
    }
  }

  // ----- Reading the answers ----------------------------------------------------------------------

  predicate Reads(invitees: seq<Invitee>, o: Answers) {
    forall i | 0 <= i < |invitees| :: LookUp(o, invitees[i].personId) != Stray
  }

  /** Whether going through everyone's answers comes to an end without throwing. */
  predicate Readable(invitees: seq<Invitee>, t: Table<Row, Doc>) { Reads(invitees, Collect(invitees, t)) }

  /** A person with no stored answer whose id an object answers to all the same. */
  predicate Throws(i: Invitee, invitees: seq<Invitee>, t: Table<Row, Doc>) {
    && Response(i.personId) !in t
    && (i.personId in INHERITED || (i.personId in FIELDS && ProtoAnswered(invitees, t)))
  }

  lemma FoundFor(invitees: seq<Invitee>, t: Table<Row, Doc>, i: nat)
    requires i < |invitees|
    ensures var found := LookUp(Collect(invitees, t), invitees[i].personId);
            if Response(invitees[i].personId) in t then found == Stored(t[Response(invitees[i].personId)])
            else if Throws(invitees[i], invitees, t) then found == Stray
            else found == Nothing
  {
    CollectedAre(invitees, t, invitees[i].personId);
    assert IsInvited(invitees, invitees[i].personId);
  }

  lemma ReadableExactlyWhen(invitees: seq<Invitee>, t: Table<Row, Doc>)
    ensures Readable(invitees, t) <==> forall i | 0 <= i < |invitees| :: !Throws(invitees[i], invitees, t)
  {
    forall i | 0 <= i < |invitees|
      ensures LookUp(Collect(invitees, t), invitees[i].personId) == Stray <==> Throws(invitees[i], invitees, t)
    {
      FoundFor(invitees, t, i);
    }
  }

  /** Whether no one goes by a name that plain objects know already: what a caller can see to. */
  predicate PlainIds(invitees: seq<Invitee>) { forall i | 0 <= i < |invitees| :: invitees[i].personId !in INHERITED }

  /** With such ids the names, the count and the answers are all as stored. */
  lemma PlainIdsAreSafe(invitees: seq<Invitee>, t: Table<Row, Doc>)
    requires PlainIds(invitees) && PeopleDiffer(invitees)
    ensures NamedMissing(invitees, Collect(invitees, t)) == Missing(invitees, t)
    ensures |Collect(invitees, t).own| == Answered(invitees, t)
    ensures Readable(invitees, t)
  {
    ListedAreMissingExactlyWhen(invitees, t);
    CountedExactlyWhen(invitees, t);
    ReadableExactlyWhen(invitees, t);
  }

  function PositionOf(t: Table<Row, Doc>, p: Id): Option<Tally.Position> {
    if Response(p) in t && t[Response(p)].ResponseDoc? then t[Response(p)].position else None
  }

  function FoundPosition(found: Found): Option<Tally.Position> {
    if found.Stored? && found.d.ResponseDoc? then found.d.position else None
  }

  /** Where it can be read, the object gives everyone's stored position. */
  lemma PositionsAreStored(invitees: seq<Invitee>, t: Table<Row, Doc>, i: nat)
    requires i < |invitees|
    ensures FoundPosition(LookUp(Collect(invitees, t), invitees[i].personId)) == PositionOf(t, invitees[i].personId)
  {
    FoundFor(invitees, t, i);
  }
}
