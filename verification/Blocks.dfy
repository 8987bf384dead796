/** Dropping script, style and noscript blocks: the loop over positions of the lower-case copy, which may be longer than the text. */
module Blocks {
  import opened Basics
  import opened Elements

  // ----- Where blocks open ---------------------------------------------------------

  /** The tag name and a word boundary after it. */
  predicate NamedAt(lower: string, i: nat, name: string) {
    Stands("<" + name, lower, i) && (i + 1 + |name| < |lower| ==> !IsWord(lower[i + 1 + |name|]))
  }

  predicate IsBlockName(name: string) { name == "script" || name == "style" || name == "noscript" }

  function OpenedAt(lower: string, i: nat): (name: Option<string>)
    ensures name.Some? ==> IsBlockName(name.value) && NamedAt(lower, i, name.value)
    ensures name == None ==> forall n | IsBlockName(n) :: !NamedAt(lower, i, n)
  {
    if NamedAt(lower, i, "script") then Some("script")
    else if NamedAt(lower, i, "style") then Some("style")
    else if NamedAt(lower, i, "noscript") then Some("noscript")
    else None
  }

  function FindOpen(lower: string, from: nat): (r: Option<nat>)
    ensures match r
            case Some(i) => from <= i < |lower| && OpenedAt(lower, i).Some? && forall k | from <= k < i :: OpenedAt(lower, k) == None
            case None => forall k | from <= k :: OpenedAt(lower, k) == None
    decreases |lower| - from
  {
    if from >= |lower| then None
    else if OpenedAt(lower, from).Some? then Some(from)
    else FindOpen(lower, from + 1)
  }

  /** A block opens where one of three tag names stands after a bracket and does not go on as a word. */
  lemma OpensExactlyWhere(lower: string, i: nat)
    ensures OpenedAt(lower, i).Some? <==>
      || (Stands("<script", lower, i) && (i + 7 < |lower| ==> lower[i + 7] !in WORD_LETTERS))
      || (Stands("<style", lower, i) && (i + 6 < |lower| ==> lower[i + 6] !in WORD_LETTERS))
      || (Stands("<noscript", lower, i) && (i + 9 < |lower| ==> lower[i + 9] !in WORD_LETTERS))
  {
    hide IsWord, WORD_LETTERS;
    assert "<" + "script" == "<script" && "<" + "style" == "<style" && "<" + "noscript" == "<noscript";
    if i + 7 < |lower| { WordLettersAre(lower[i + 7]); }
    if i + 6 < |lower| { WordLettersAre(lower[i + 6]); }
    if i + 9 < |lower| { WordLettersAre(lower[i + 9]); }
  }

  predicate NoneOpens(lower: string, from: nat, to: nat) { forall k | from <= k < to :: OpenedAt(lower, k) == None }

  ghost predicate NothingOpens(s: string) { forall k: nat :: OpenedAt(s, k) == None }

  /**
   * What one turn finds in the folded copy: no block, one that is never closed,
   * one whose end tag is cut short, or one and where reading goes on after it.
   */
  datatype Turn = NoBlock | Unclosed(i: nat) | CutShort(i: nat) | Block(i: nat, next: nat)

  function TurnAt(lower: string, at: nat): (t: Turn)
    ensures t.NoBlock? ==> NoneOpens(lower, at, |lower|)
    ensures !t.NoBlock? ==> at <= t.i < |lower| && OpenedAt(lower, t.i).Some? && NoneOpens(lower, at, t.i)
    ensures t.Block? ==> t.i < t.next <= |lower|
  {
    var m := FindOpen(lower, at);
    if m == None then NoBlock
    else
      var name := OpenedAt(lower, m.value).value;
      var close := IndexOf(lower, "</" + name, m.value + 1 + |name|);
      if close == None then Unclosed(m.value)
      else
        var end := IndexOf(lower, ">", close.value);
        if end == None then CutShort(m.value) else Block(m.value, end.value + 1)
  }

  /** String.slice with two ends in order: what lies past the text is cut off. */
  function Slice(s: string, from: nat, to: nat): string {
    if from >= to then "" else s[Min(from, |s|)..Min(to, |s|)]
  }

  /** Where the loop goes on; after a block that is cut short, at the text's own length. */
  function NextAt(html: string, t: Turn): nat
    requires t.Block? || t.CutShort?
  {
    if t.Block? then t.next else |html|
  }

  /** What the loop returns from a position on, if it ends within so many turns. */
  function KeptWithin(html: string, lower: string, at: nat, turns: nat): Option<string>
    decreases turns
  {
    if turns == 0 then None
    else
      match TurnAt(lower, at)
      case NoBlock => Some(Slice(html, at, |html|))
      case Unclosed(i) => Some(Slice(html, at, i) + " ")
      case t =>
        var rest := KeptWithin(html, lower, NextAt(html, t), turns - 1);
        if rest == None then None else Some(Slice(html, at, t.i) + " " + rest.value)
  }

  lemma LastTurn(html: string, lower: string, at: nat, turns: nat)
    requires turns > 0 && TurnAt(lower, at).NoBlock?
    ensures KeptWithin(html, lower, at, turns) == Some(Slice(html, at, |html|))
  {
  }

  lemma UnclosedTurn(html: string, lower: string, at: nat, turns: nat)
    requires turns > 0 && TurnAt(lower, at).Unclosed?
    ensures KeptWithin(html, lower, at, turns) == Some(Slice(html, at, TurnAt(lower, at).i) + " ")
  {
  }

  /** One turn of the loop, when another follows. */
  lemma OneTurn(html: string, lower: string, at: nat, turns: nat, t: Turn)
    requires turns > 0 && TurnAt(lower, at) == t && (t.Block? || t.CutShort?)
    ensures var rest := KeptWithin(html, lower, NextAt(html, t), turns - 1);
            KeptWithin(html, lower, at, turns) == if rest == None then None else Some(Slice(html, at, t.i) + " " + rest.value)
  {
  }

  // ----- When the loop ends ----------------------------------------------------------

  /** Whether reading the folded copy alone, block after block, comes to a block that is cut short. */
  predicate ReadsShort(lower: string, at: nat)
    decreases |lower| - at
  {
    match TurnAt(lower, at)
    case NoBlock => false
    case Unclosed(_) => false
    case CutShort(_) => true
    case Block(_, next) => ReadsShort(lower, next)
  }

  /** Neither from the start nor, if that is cut short, from the text's own length. */
  predicate Ends(html: string, lower: string) { !(ReadsShort(lower, 0) && ReadsShort(lower, |html|)) }

  lemma {:induction false} EndsFrom(html: string, lower: string, at: nat) returns (turns: nat)
    requires !ReadsShort(lower, at)
    ensures KeptWithin(html, lower, at, turns).Some?
    decreases |lower| - at
  {
    hide TurnAt;
    var t := TurnAt(lower, at);
    if t.Block? {
      var rest := EndsFrom(html, lower, t.next);
      turns := rest + 1;
      OneTurn(html, lower, at, turns, t);
    } else {
      turns := 1;
    }
  }

  lemma {:induction false} EndsAfterShort(html: string, lower: string, at: nat, last: nat) returns (turns: nat)
    requires ReadsShort(lower, at) && KeptWithin(html, lower, |html|, last).Some?
    ensures KeptWithin(html, lower, at, turns).Some?
    decreases |lower| - at
  {
    hide TurnAt;
    var t, rest := TurnAt(lower, at), last;
    if t.Block? { rest := EndsAfterShort(html, lower, t.next, last); }
    turns := rest + 1;
    OneTurn(html, lower, at, turns, t);
  }

  lemma {:induction false} NeverEnds(html: string, lower: string, at: nat, turns: nat)
    requires ReadsShort(lower, at) && ReadsShort(lower, |html|)
    ensures KeptWithin(html, lower, at, turns) == None
    decreases turns
  {
    hide TurnAt;
    if turns > 0 {
      var t := TurnAt(lower, at);
      NeverEnds(html, lower, NextAt(html, t), turns - 1);
      OneTurn(html, lower, at, turns, t);
    }
  }

  lemma EndsWithin(html: string, lower: string) returns (turns: nat)
    requires Ends(html, lower)
    ensures KeptWithin(html, lower, 0, turns).Some?
  {
    if ReadsShort(lower, 0) {
      var last := EndsFrom(html, lower, |html|);
      turns := EndsAfterShort(html, lower, 0, last);
    } else {
      turns := EndsFrom(html, lower, 0);
    }
  }

  /** For any text and any folded copy: the loop ends exactly unless both readings come to a block that is cut short. */
  lemma LoopEndsExactlyWhen(html: string, lower: string)
    ensures (exists turns :: KeptWithin(html, lower, 0, turns).Some?) <==> Ends(html, lower)
  {
    if Ends(html, lower) {
      var turns := EndsWithin(html, lower);
    } else {
      forall turns
        ensures KeptWithin(html, lower, 0, turns) == None
      {
        NeverEnds(html, lower, 0, turns);
      }
    }
  }

  /** A folded copy that is not longer than the text leaves no room for the second reading. */
  lemma NoLongerCopyEnds(html: string, lower: string)
    requires |lower| <= |html|
    ensures Ends(html, lower)
  {
  }

  /** More turns change nothing. */
  lemma {:induction false} KeptIsOne(html: string, lower: string, at: nat, turns: nat, more: nat)
    requires KeptWithin(html, lower, at, turns).Some? && KeptWithin(html, lower, at, more).Some?
    ensures KeptWithin(html, lower, at, turns) == KeptWithin(html, lower, at, more)
    decreases turns
  {
    hide TurnAt;
    var t := TurnAt(lower, at);
    if t.Block? || t.CutShort? {
      OneTurn(html, lower, at, turns, t);
      OneTurn(html, lower, at, more, t);
      KeptIsOne(html, lower, NextAt(html, t), turns - 1, more - 1);
    }
  }

  /** What is written so far and what is still to come make up the result. */
  ghost predicate Leads(html: string, lower: string, at: nat, left: nat, out: string, all: string) {
    var kept := KeptWithin(html, lower, at, left);
    kept.Some? && out + kept.value == all
  }

  lemma GoesOn(html: string, lower: string, at: nat, left: nat, out: string, all: string, t: Turn)
    requires Leads(html, lower, at, left, out, all) && TurnAt(lower, at) == t && (t.Block? || t.CutShort?)
    ensures left > 0 && Leads(html, lower, NextAt(html, t), left - 1, out + (Slice(html, at, t.i) + " "), all)
  {
    hide TurnAt;
    OneTurn(html, lower, at, left, t);
    var piece, rest := Slice(html, at, t.i) + " ", KeptWithin(html, lower, NextAt(html, t), left - 1).value;
    assert out + (piece + rest) == out + piece + rest;
  }

  lemma Stops(html: string, lower: string, at: nat, left: nat, out: string, all: string)
    requires Leads(html, lower, at, left, out, all)
    ensures TurnAt(lower, at).NoBlock? ==> out + Slice(html, at, |html|) == all
    ensures TurnAt(lower, at).Unclosed? ==> out + (Slice(html, at, TurnAt(lower, at).i) + " ") == all
  {
    hide TurnAt;
  }

  /** The loop, on every text on which it ends. */
  method DropBlocks(html: string, lower: string) returns (out: string)
    requires Ends(html, lower)
    ensures exists turns :: KeptWithin(html, lower, 0, turns) == Some(out)
  {
    hide *;
    ghost var turns := EndsWithin(html, lower);
    ghost var all := KeptWithin(html, lower, 0, turns).value;
    ghost var left := turns;
    out := "";
    var at := 0;
    Begins(html, lower, turns);
    while true
      invariant Leads(html, lower, at, left, out, all)
      decreases left
    {
      var t := TurnAt(lower, at);
      Stops(html, lower, at, left, out, all);
      if t.NoBlock? { break; }
      if t.Block? || t.CutShort? { GoesOn(html, lower, at, left, out, all, t); }
      out := out + (Slice(html, at, t.i) + " ");
      if t.Unclosed? { return; }
      at, left := NextAt(html, t), left - 1;
    }
    out := out + Slice(html, at, |html|);
  }

  lemma Begins(html: string, lower: string, turns: nat)
    requires KeptWithin(html, lower, 0, turns).Some?
    ensures Leads(html, lower, 0, turns, "", KeptWithin(html, lower, 0, turns).value)
  {
    var kept := KeptWithin(html, lower, 0, turns).value;
    assert "" + kept == kept;
  }

  // ----- What is left of blocks --------------------------------------------------------

  /** toLowerCase, letter by letter; a letter may become several. */
  function FoldText(s: string, fold: char -> string): string {
    if s == "" then "" else fold(s[0]) + FoldText(s[1..], fold)
  }

  lemma FoldFirst(c: char, s: string, fold: char -> string)
    ensures FoldText([c] + s, fold) == fold(c) + FoldText(s, fold)
  {
    assert ([c] + s)[1..] == s;
  }

  lemma JoinInTurn(a: string, b: string, c: string)
    ensures a + (b + c) == a + b + c
  {
  }

  lemma {:induction false} FoldJoins(a: string, b: string, fold: char -> string)
    ensures FoldText(a + b, fold) == FoldText(a, fold) + FoldText(b, fold)
  {
    if a == "" {
      assert a + b == b;
    } else {
      FoldJoins(a[1..], b, fold);
      assert a + b == [a[0]] + (a[1..] + b) && a == [a[0]] + a[1..];
      FoldFirst(a[0], a[1..] + b, fold);
      FoldFirst(a[0], a[1..], fold);
      JoinInTurn(fold(a[0]), FoldText(a[1..], fold), FoldText(b, fold));
    }
  }

  lemma FoldAroundSpace(piece: string, rest: string, fold: char -> string)
    requires fold(' ') == " "
    ensures FoldText(piece + " " + rest, fold) == FoldText(piece, fold) + " " + FoldText(rest, fold)
  {
    FoldJoins(piece + " ", rest, fold);
    FoldJoins(piece, " ", fold);
    assert FoldText(" ", fold) == " " + FoldText("", fold) == " ";
  }

  /** A tag cannot straddle the space put in place of a block. */
  lemma NamedInPart(piece: string, rest: string, k: nat, name: string)
    requires IsBlockName(name) && NamedAt(piece + " " + rest, k, name)
    ensures k < |piece| ==> k + 1 + |name| <= |piece| && Stands("<" + name, piece, k)
    ensures k < |piece| && k + 1 + |name| < |piece| ==> !IsWord(piece[k + 1 + |name|])
    ensures k >= |piece| ==> k > |piece| && NamedAt(rest, k - |piece| - 1, name)
  {
    var all, tag := piece + " " + rest, "<" + name;
    assert forall j | 0 <= j < |tag| :: tag[j] != ' ';
    CharInside(all, tag, k, |piece|);
    assert all[|piece|] == ' ';
    if k < |piece| {
      assert forall j | 0 <= j < |tag| :: piece[k + j] == all[k + j] == tag[j];
    } else {
      var at := k - |piece| - 1;
      assert forall j | 0 <= j < |tag| :: rest[at + j] == all[k + j] == tag[j];
    }
  }

  lemma NamedInWhole(piece: string, rest: string, k: nat, name: string)
    requires IsBlockName(name)
    ensures NamedAt(piece, k, name) ==> NamedAt(piece + " " + rest, k, name)
    ensures NamedAt(rest, k, name) ==> NamedAt(piece + " " + rest, |piece| + 1 + k, name)
  {
    var all, tag := piece + " " + rest, "<" + name;
    if NamedAt(piece, k, name) {
      assert forall j | 0 <= j < |tag| :: all[k + j] == piece[k + j] == tag[j];
    }
    if NamedAt(rest, k, name) {
      assert forall j | 0 <= j < |tag| :: all[|piece| + 1 + k + j] == rest[k + j] == tag[j];
    }
  }

  /** A space between two texts keeps their tags apart: the whole opens a block exactly when one of them does. */
  lemma OpensInAPart(piece: string, rest: string)
    ensures NothingOpens(piece + " " + rest) <==> NothingOpens(piece) && NothingOpens(rest)
  {
    var all := piece + " " + rest;
    if NothingOpens(all) {
      forall k: nat
        ensures OpenedAt(piece, k) == None && OpenedAt(rest, k) == None
      {
        if OpenedAt(piece, k).Some? { NamedInWhole(piece, rest, k, OpenedAt(piece, k).value); }
        if OpenedAt(rest, k).Some? { NamedInWhole(piece, rest, k, OpenedAt(rest, k).value); }
        assert OpenedAt(all, k) == None && OpenedAt(all, |piece| + 1 + k) == None;
      }
    }
    if NothingOpens(piece) && NothingOpens(rest) {
      forall k: nat
        ensures OpenedAt(all, k) == None
      {
        if OpenedAt(all, k).Some? { NamedInPart(piece, rest, k, OpenedAt(all, k).value); }
        assert OpenedAt(piece, k) == None && (k > |piece| ==> OpenedAt(rest, k - |piece| - 1) == None);
      }
    }
  }

  /** The slices of the text that the loop copies, their ends read off the folded copy. */
  function Copied(html: string, lower: string, at: nat, turns: nat): seq<string>
    decreases turns
  {
    if turns == 0 then []
    else
      match TurnAt(lower, at)
      case NoBlock => [Slice(html, at, |html|)]
      case Unclosed(i) => [Slice(html, at, i)]
      case t => [Slice(html, at, t.i)] + Copied(html, lower, NextAt(html, t), turns - 1)
  }

  ghost predicate AllClean(pieces: seq<string>, fold: char -> string) {
    forall k | 0 <= k < |pieces| :: NothingOpens(FoldText(pieces[k], fold))
  }

  lemma OneMorePiece(piece: string, rest: seq<string>, fold: char -> string)
    ensures AllClean([piece] + rest, fold) <==> NothingOpens(FoldText(piece, fold)) && AllClean(rest, fold)
  {
    var all := [piece] + rest;
    assert forall k | 0 <= k < |rest| :: all[k + 1] == rest[k];
    assert all[0] == piece;
  }

  lemma OnePiece(piece: string, fold: char -> string)
    ensures AllClean([piece], fold) <==> NothingOpens(FoldText(piece, fold))
  {
    assert [piece][0] == piece;
  }

  lemma PieceThenSpace(piece: string, fold: char -> string)
    requires fold(' ') == " "
    ensures NothingOpens(FoldText(piece + " ", fold)) <==> NothingOpens(FoldText(piece, fold))
  {
    assert piece + " " + "" == piece + " ";
    FoldAroundSpace(piece, "", fold);
    OpensInAPart(FoldText(piece, fold), "");
  }

  /**
   * For any text, any folding that keeps a space and any folded copy: when the
   * loop ends, no opening script, style or noscript tag is left exactly when
   * none stands in any of the slices it copied.
   */
  lemma {:induction false} NoBlockIsLeftExactlyWhen(html: string, lower: string, at: nat, turns: nat, fold: char -> string)
    requires fold(' ') == " " && KeptWithin(html, lower, at, turns).Some?
    ensures NothingOpens(FoldText(KeptWithin(html, lower, at, turns).value, fold)) <==> AllClean(Copied(html, lower, at, turns), fold)
    decreases turns
  {
    hide TurnAt, FoldText, NothingOpens, AllClean, Slice;
    var t := TurnAt(lower, at);
    if t.NoBlock? {
      OnePiece(Slice(html, at, |html|), fold);
    } else if t.Unclosed? {
      OnePiece(Slice(html, at, t.i), fold);
      PieceThenSpace(Slice(html, at, t.i), fold);
    } else {
      var piece, next := Slice(html, at, t.i), NextAt(html, t);
      OneTurn(html, lower, at, turns, t);
      var rest := KeptWithin(html, lower, next, turns - 1).value;
      NoBlockIsLeftExactlyWhen(html, lower, next, turns - 1, fold);
      FoldAroundSpace(piece, rest, fold);
      OpensInAPart(FoldText(piece, fold), FoldText(rest, fold));
      OneMorePiece(piece, Copied(html, lower, next, turns - 1), fold);
    }
  }

  // ----- Texts whose letters fold one to one ----------------------------------------------

  predicate FoldsOneToOne(s: string, fold: char -> string) { forall i | 0 <= i < |s| :: |fold(s[i])| == 1 }

  lemma {:induction false} FoldKeepsLength(s: string, fold: char -> string)
    requires FoldsOneToOne(s, fold)
    ensures |FoldText(s, fold)| == |s|
  {
    if s != "" {
      assert forall i | 0 <= i < |s[1..]| :: s[1..][i] == s[i + 1];
      FoldKeepsLength(s[1..], fold);
    }
  }

  /** Where the last block ends, or begins if nothing closes it: from there on positions no longer matter. */
  function LastBlock(lower: string, at: nat): (end: nat)
    ensures end >= at
    decreases |lower| - at
  {
    match TurnAt(lower, at)
    case NoBlock => at
    case Unclosed(i) => i
    case CutShort(i) => i
    case Block(_, next) => LastBlock(lower, next)
  }

  /** Whether the letters before a position fold to one letter each. */
  predicate OneToOneBefore(html: string, fold: char -> string, end: nat) { FoldsOneToOne(html[..Min(end, |html|)], fold) }

  /** Before such a position text and folded copy agree on where things are. */
  lemma PrefixFolds(html: string, fold: char -> string, end: nat, to: nat)
    requires OneToOneBefore(html, fold, end) && to <= end && to <= |html|
    ensures |FoldText(html[..to], fold)| == to && FoldText(html, fold) == FoldText(html[..to], fold) + FoldText(html[to..], fold)
  {
    var head := html[..Min(end, |html|)];
    assert forall i | 0 <= i < to :: html[..to][i] == head[i];
    FoldKeepsLength(html[..to], fold);
    assert html == html[..to] + html[to..];
    FoldJoins(html[..to], html[to..], fold);
  }

  lemma InsideText(html: string, fold: char -> string, end: nat)
    requires OneToOneBefore(html, fold, end) && end < |FoldText(html, fold)|
    ensures end <= |html|
  {
    if end > |html| {
      assert html[..|html|] == html;
      FoldKeepsLength(html, fold);
    }
  }

  lemma SliceFolds(html: string, fold: char -> string, from: nat, to: nat)
    requires OneToOneBefore(html, fold, to) && from <= to < |FoldText(html, fold)|
    ensures FoldText(Slice(html, from, to), fold) == FoldText(html, fold)[from..to]
  {
    InsideText(html, fold, to);
    PrefixFolds(html, fold, to, from);
    PrefixFolds(html, fold, to, to);
    var a, piece := html[..from], Slice(html, from, to);
    assert html[..to] == a + piece;
    FoldJoins(a, piece, fold);
  }

  lemma TailFolds(html: string, fold: char -> string, at: nat)
    requires OneToOneBefore(html, fold, at) && at <= |html|
    ensures at <= |FoldText(html, fold)| && FoldText(Slice(html, at, |html|), fold) == FoldText(html, fold)[at..]
  {
    PrefixFolds(html, fold, at, at);
    assert Slice(html, at, |html|) == html[at..];
  }

  lemma NamedInSuffix(lower: string, at: nat, k: nat, name: string)
    requires at <= |lower| && IsBlockName(name) && NamedAt(lower[at..], k, name)
    ensures OpenedAt(lower, at + k).Some?
  {
    var tag := "<" + name;
    assert forall j | 0 <= j < |tag| :: lower[at + k + j] == lower[at..][k + j] == tag[j];
    assert NamedAt(lower, at + k, name);
  }

  lemma NamedInPiece(lower: string, at: nat, end: nat, k: nat, name: string)
    requires at <= end < |lower| && lower[end] == '<' && IsBlockName(name)
    requires k + 1 + |name| <= end - at && Stands("<" + name, lower[at..end], k)
    requires k + 1 + |name| < end - at ==> !IsWord(lower[at..end][k + 1 + |name|])
    ensures OpenedAt(lower, at + k).Some?
  {
    var tag := "<" + name;
    assert forall j | 0 <= j < |tag| :: lower[at + k + j] == lower[at..end][k + j] == tag[j];
    assert NamedAt(lower, at + k, name);
  }

  lemma CleanTail(lower: string, at: nat)
    requires at <= |lower| && NoneOpens(lower, at, |lower|)
    ensures NothingOpens(lower[at..])
  {
    forall k: nat
      ensures OpenedAt(lower[at..], k) == None
    {
      if OpenedAt(lower[at..], k).Some? { NamedInSuffix(lower, at, k, OpenedAt(lower[at..], k).value); }
      assert k < |lower| - at ==> OpenedAt(lower, at + k) == None;
    }
  }

  lemma CleanPiece(lower: string, at: nat, end: nat)
    requires at <= end < |lower| && OpenedAt(lower, end).Some? && NoneOpens(lower, at, end)
    ensures NothingOpens(lower[at..end])
  {
    assert lower[end + 0] == ("<" + OpenedAt(lower, end).value)[0];
    forall k: nat
      ensures OpenedAt(lower[at..end], k) == None
    {
      if OpenedAt(lower[at..end], k).Some? { NamedInPiece(lower, at, end, k, OpenedAt(lower[at..end], k).value); }
      assert at + k < end ==> OpenedAt(lower, at + k) == None;
    }
  }

  lemma NothingIsClean(fold: char -> string)
    ensures NothingOpens(FoldText("", fold))
  {
  }

  /** Past the text's own length there is nothing to copy. */
  lemma {:induction false} NothingBeyond(html: string, lower: string, at: nat, turns: nat, fold: char -> string)
    requires at >= |html|
    ensures AllClean(Copied(html, lower, at, turns), fold)
    decreases turns
  {
    hide TurnAt, FoldText, NothingOpens;
    if turns > 0 {
      var t := TurnAt(lower, at);
      NothingIsClean(fold);
      if t.Block? || t.CutShort? {
        NothingBeyond(html, lower, NextAt(html, t), turns - 1, fold);
        OneMorePiece("", Copied(html, lower, NextAt(html, t), turns - 1), fold);
      }
    }
  }

  lemma PieceIsClean(html: string, fold: char -> string, at: nat, i: nat)
    requires OneToOneBefore(html, fold, i) && at <= i < |FoldText(html, fold)|
    requires OpenedAt(FoldText(html, fold), i).Some? && NoneOpens(FoldText(html, fold), at, i)
    ensures NothingOpens(FoldText(Slice(html, at, i), fold))
  {
    hide *;
    SliceFolds(html, fold, at, i);
    CleanPiece(FoldText(html, fold), at, i);
  }

  lemma TailIsClean(html: string, fold: char -> string, at: nat)
    requires OneToOneBefore(html, fold, at) && NoneOpens(FoldText(html, fold), at, |FoldText(html, fold)|)
    ensures NothingOpens(FoldText(Slice(html, at, |html|), fold))
  {
    hide FoldText, NoneOpens, NothingOpens;
    if at <= |html| {
      TailFolds(html, fold, at);
      CleanTail(FoldText(html, fold), at);
    } else {
      NothingIsClean(fold);
    }
  }

  lemma OneToOneEarlier(html: string, fold: char -> string, end: nat, i: nat)
    requires OneToOneBefore(html, fold, end) && i <= end
    ensures OneToOneBefore(html, fold, i)
  {
    var head := html[..Min(end, |html|)];
    assert forall k | 0 <= k < Min(i, |html|) :: html[..Min(i, |html|)][k] == head[k];
  }

  lemma {:induction false} CopiedIsClean(html: string, fold: char -> string, at: nat, turns: nat)
    requires OneToOneBefore(html, fold, LastBlock(FoldText(html, fold), at))
    ensures AllClean(Copied(html, FoldText(html, fold), at, turns), fold)
    decreases turns
  {
    hide TurnAt, FoldText, NothingOpens, AllClean, Slice, OneToOneBefore, NoneOpens, OpenedAt;
    var lower := FoldText(html, fold);
    var t := TurnAt(lower, at);
    if turns == 0 {
      NoPieces(fold);
    } else if t.NoBlock? {
      TailIsClean(html, fold, at);
      OnePiece(Slice(html, at, |html|), fold);
    } else {
      OneToOneEarlier(html, fold, LastBlock(lower, at), t.i);
      PieceIsClean(html, fold, at, t.i);
      OnePiece(Slice(html, at, t.i), fold);
      if t.Block? {
        CopiedIsClean(html, fold, t.next, turns - 1);
        OneMorePiece(Slice(html, at, t.i), Copied(html, lower, t.next, turns - 1), fold);
      } else if t.CutShort? {
        NothingBeyond(html, lower, |html|, turns - 1, fold);
        OneMorePiece(Slice(html, at, t.i), Copied(html, lower, |html|, turns - 1), fold);
      }
    }
  }

  lemma NoPieces(fold: char -> string)
    ensures AllClean([], fold)
  {
  }

  /**
   * If the letters before the end of the last block fold to one letter each, no
   * opening script, style or noscript tag is left, whatever comes after it.
   */
  lemma NoBlockIsLeftOneToOne(html: string, fold: char -> string, turns: nat)
    requires fold(' ') == " " && OneToOneBefore(html, fold, LastBlock(FoldText(html, fold), 0))
    requires KeptWithin(html, FoldText(html, fold), 0, turns).Some?
    ensures NothingOpens(FoldText(KeptWithin(html, FoldText(html, fold), 0, turns).value, fold))
  {
    hide *;
    CopiedIsClean(html, fold, 0, turns);
    NoBlockIsLeftExactlyWhen(html, FoldText(html, fold), 0, turns, fold);
  }

  /** Text without such tags is kept as it is. */
  lemma NothingToDrop(html: string, lower: string)
    requires NothingOpens(lower)
    ensures Ends(html, lower) && KeptWithin(html, lower, 0, 1) == Some(html)
  {
    assert TurnAt(lower, 0).NoBlock?;
    assert html[0..|html|] == html;
  }

  // U+0130, the one letter whose lower case takes two UTF-16 units everywhere.
  const DOTTED_I: char := '\U{0130}'

  function LowerCase(c: char): string {
    if c == DOTTED_I then ['i', '\U{0307}'] else if 'A' <= c <= 'Z' then [c - 'A' + 'a'] else [c]
  }

  function DottedIs(n: nat): string { seq(n, _ => DOTTED_I) }

  function Doubled(n: nat): string { seq(2 * n, i => if i % 2 == 0 then 'i' else '\U{0307}') }

  /** The lower case of a text with its own lower case behind a dotted I in front. */
  lemma DottedIFolds(s: string, lowered: string)
    requires FoldText(s, LowerCase) == lowered
    ensures FoldText([DOTTED_I] + s, LowerCase) == ['i', '\U{0307}'] + lowered
  {
    assert ([DOTTED_I] + s)[1..] == s;
  }

  lemma {:induction false} LowerFolds(tail: string)
    requires forall i | 0 <= i < |tail| :: LowerCase(tail[i]) == [tail[i]]
    ensures FoldText(tail, LowerCase) == tail
  {
    if tail != "" {
      assert forall i | 0 <= i < |tail[1..]| :: tail[1..][i] == tail[i + 1];
      LowerFolds(tail[1..]);
      assert [tail[0]] + tail[1..] == tail;
    }
  }

  lemma OneMore(n: nat, tail: string)
    requires n > 0
    ensures DottedIs(n) + tail == [DOTTED_I] + (DottedIs(n - 1) + tail)
    ensures Doubled(n) + tail == ['i', '\U{0307}'] + (Doubled(n - 1) + tail)
  {
    assert Doubled(n) == ['i', '\U{0307}'] + Doubled(n - 1);
  }

  lemma {:induction false} DottedIsFold(n: nat, tail: string)
    requires forall i | 0 <= i < |tail| :: LowerCase(tail[i]) == [tail[i]]
    ensures FoldText(DottedIs(n) + tail, LowerCase) == Doubled(n) + tail
  {
    if n == 0 {
      LowerFolds(tail);
      assert DottedIs(0) + tail == tail && Doubled(0) + tail == tail;
    } else {
      DottedIsFold(n - 1, tail);
      OneMore(n, tail);
      DottedIFolds(DottedIs(n - 1) + tail, Doubled(n - 1) + tail);
    }
  }

  // ----- Two texts ---------------------------------------------------------------------

  predicate NoAngle(lead: string) { forall i | 0 <= i < |lead| :: lead[i] != '<' }

  predicate BeginsWith(tail: string, start: string) { |start| <= |tail| && tail[..|start|] == start }

  lemma LettersOf(lead: string, tail: string, start: string)
    requires BeginsWith(tail, start)
    ensures forall j | 0 <= j < |start| :: (lead + tail)[|lead| + j] == start[j]
  {
    assert forall j | 0 <= j < |start| :: (lead + tail)[|lead| + j] == tail[j] == tail[..|start|][j];
  }

  /** The block opens right after the letters in front of it. */
  lemma OpensThere(lead: string, tail: string)
    requires BeginsWith(tail, "<script></script")
    ensures OpenedAt(lead + tail, |lead|) == Some("script")
  {
    var lower, open := lead + tail, "<script";
    var all := "<script></script";
    LettersOf(lead, tail, all);
    assert open == all[..7] && "<" + "script" == open;
    assert forall j | 0 <= j < |open| :: lower[|lead| + j] == all[j] == open[j];
    assert Stands(open, lower, |lead|) && lower[|lead| + 7] == all[7] == '>';
    assert NamedAt(lower, |lead|, "script");
  }

  lemma OpensNowhereBefore(lead: string, tail: string, k: nat)
    requires NoAngle(lead) && k < |lead|
    ensures OpenedAt(lead + tail, k) == None
  {
    var lower := lead + tail;
    assert lower[k] == lead[k] != '<';
    FirstChar(lower, "<" + "script", k);
    FirstChar(lower, "<" + "style", k);
    FirstChar(lower, "<" + "noscript", k);
  }

  lemma FoundThere(lead: string, tail: string, at: nat)
    requires NoAngle(lead) && at <= |lead| && BeginsWith(tail, "<script></script")
    ensures FindOpen(lead + tail, at) == Some(|lead|)
  {
    OpensThere(lead, tail);
    var m := FindOpen(lead + tail, at);
    if m.Some? && m.value < |lead| { OpensNowhereBefore(lead, tail, m.value); }
  }

  lemma ClosesThere(lead: string, tail: string)
    requires BeginsWith(tail, "<script></script")
    ensures IndexOf(lead + tail, "</script", |lead| + 7) == Some(|lead| + 8)
  {
    var lower, close := lead + tail, "</script";
    var all := "<script></script";
    LettersOf(lead, tail, all);
    assert close == all[8..];
    assert forall j | 0 <= j < |close| :: lower[|lead| + 8 + j] == lower[|lead| + (8 + j)] == all[8 + j] == close[j];
    assert Stands(close, lower, |lead| + 8);
    FirstChar(lower, close, |lead| + 7);
    assert lower[|lead| + 7] == all[7] == '>';
  }

  lemma ScriptTurn(lower: string, at: nat, i: nat, close: nat, end: Option<nat>)
    requires FindOpen(lower, at) == Some(i) && OpenedAt(lower, i) == Some("script")
    requires IndexOf(lower, "</script", i + 7) == Some(close) && IndexOf(lower, ">", close) == end
    ensures TurnAt(lower, at) == if end == None then CutShort(i) else Block(i, end.value + 1)
  {
    hide FindOpen, OpenedAt, IndexOf;
    assert "</" + "script" == "</script" && i + 1 + |"script"| == i + 7;
  }

  /** The end tag of the block has no closing bracket up to its name's end. */
  lemma NoCloseInName(lead: string, tail: string, k: nat)
    requires BeginsWith(tail, "<script></script") && |lead| + 8 <= k < |lead| + 16
    ensures !Stands(">", lead + tail, k)
  {
    var all, d := "<script></script", k - |lead|;
    LettersOf(lead, tail, all);
    FirstChar(lead + tail, ">", k);
    assert (lead + tail)[|lead| + d] == all[d];
    assert all[8] == '<' && all[9] == '/' && all[10] == 's' && all[11] == 'c';
    assert all[12] == 'r' && all[13] == 'i' && all[14] == 'p' && all[15] == 't';
    assert d == 8 || d == 9 || d == 10 || d == 11 || d == 12 || d == 13 || d == 14 || d == 15;
  }

  lemma EndsThere(lead: string)
    ensures IndexOf(lead + "<script></script>", ">", |lead| + 8) == Some(|lead| + 16)
  {
    var tail := "<script></script>";
    assert tail[..16] == "<script></script";
    forall k: nat | |lead| + 8 <= k < |lead| + 16
      ensures !Stands(">", lead + tail, k)
    {
      NoCloseInName(lead, tail, k);
    }
    assert (lead + tail)[|lead| + 16 + 0] == tail[16] == '>';
    assert Stands(">", lead + tail, |lead| + 16);
  }

  lemma EndsNowhere(lead: string)
    ensures IndexOf(lead + "<script></script", ">", |lead| + 8) == None
  {
    var tail := "<script></script";
    assert tail[..16] == tail;
    forall k: nat | |lead| + 8 <= k
      ensures !Stands(">", lead + tail, k)
    {
      if k < |lead| + 16 { NoCloseInName(lead, tail, k); }
    }
  }

  lemma NoAngleInDoubled(n: nat)
    ensures NoAngle(Doubled(n)) && |Doubled(n)| == 2 * n
  {
  }

  // A text and its lower case.
  const CLOSED: string := DottedIs(8) + "<script></script>"
  const LOWERED: string := Doubled(8) + "<script></script>"

  lemma OnlyTurn()
    ensures TurnAt(LOWERED, 0) == Block(16, 33) && TurnAt(LOWERED, 33) == NoBlock
  {
    hide TurnAt;
    var tail, lead := "<script></script>", Doubled(8);
    NoAngleInDoubled(8);
    assert tail[..16] == "<script></script";
    FoundThere(lead, tail, 0);
    OpensThere(lead, tail);
    ClosesThere(lead, tail);
    EndsThere(lead);
    ScriptTurn(lead + tail, 0, 16, 24, Some(32));
    assert |LOWERED| == 33;
  }

  lemma SlicesOfClosed()
    ensures Slice(CLOSED, 0, 16) == DottedIs(8) + "<script>" && Slice(CLOSED, 33, |CLOSED|) == ""
  {
    assert CLOSED[0..16] == DottedIs(8) + "<script>";
  }

  /** A text with longer lower case: the loop slices it at positions of the longer copy and keeps an opening tag. */
  lemma LongerLowerCaseKeepsATag()
    ensures FoldText(CLOSED, LowerCase) == LOWERED
    ensures KeptWithin(CLOSED, LOWERED, 0, 2) == Some(DottedIs(8) + "<script>" + " ")
  {
    hide TurnAt, Slice, DottedIs;
    DottedIsFold(8, "<script></script>");
    OnlyTurn();
    SlicesOfClosed();
    LastTurn(CLOSED, LOWERED, 33, 1);
    OneTurn(CLOSED, LOWERED, 0, 2, Block(16, 33));
    var kept := DottedIs(8) + "<script>" + " ";
    assert kept + "" == kept;
  }

  // The second text, and its lower case.
  const SHORT: string := DottedIs(16) + "<script></script"
  const LONG: string := Doubled(16) + "<script></script"

  lemma LongIsLowerCase()
    ensures FoldText(SHORT, LowerCase) == LONG
  {
    DottedIsFold(16, "<script></script");
  }

  /** Reading from the start or from the text's own length finds the same block, cut short. */
  lemma CutShortTwice(at: nat)
    requires at == 0 || at == 32
    ensures TurnAt(LONG, at) == CutShort(32)
  {
    hide TurnAt;
    var tail, lead := "<script></script", Doubled(16);
    NoAngleInDoubled(16);
    assert BeginsWith(tail, tail);
    FoundThere(lead, tail, at);
    OpensThere(lead, tail);
    ClosesThere(lead, tail);
    EndsNowhere(lead);
    ScriptTurn(lead + tail, at, 32, 40, None);
  }

  /**
   * A text on which the loop never ends: its block opens past the text's own
   * length in the longer copy and is cut short, so every turn goes on where the
   * last one did.
   */
  lemma LongerLowerCaseNeverEnds(turns: nat)
    ensures KeptWithin(SHORT, FoldText(SHORT, LowerCase), 0, turns) == None
  {
    hide TurnAt, FoldText;
    LongIsLowerCase();
    CutShortTwice(0);
    CutShortTwice(32);
    assert |SHORT| == 32;
    NeverEnds(SHORT, LONG, 0, turns);
  }
}
