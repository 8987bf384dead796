/** Taking the text out of markup: tags are removed over and over until no pair of brackets is left, and then single brackets. */
module Markup {

  // ----- Tags -----------------------------------------------------------------

  predicate IsBracket(c: char) { c == '<' || c == '>' }

  predicate NoBrackets(s: string) { forall i | 0 <= i < |s| :: !IsBracket(s[i]) }

  /** The length of the text before the first angle bracket. */
  function BeforeBracket(s: string): (n: nat)
    ensures n <= |s|
    ensures NoBrackets(s[..n])
    ensures n < |s| ==> IsBracket(s[n])
  {
    if s == "" || IsBracket(s[0]) then 0
    else
      var n := BeforeBracket(s[1..]);
      assert s[..n + 1] == [s[0]] + s[1..][..n];
      n + 1
  }

  /** Whether a tag <...> with no bracket inside starts the text. */
  predicate StartsTag(s: string) {
    s != "" && s[0] == '<' && var n := BeforeBracket(s[1..]); 1 + n < |s| && s[1 + n] == '>'
  }

  function TagLength(s: string): (n: nat)
    requires StartsTag(s)
    ensures 2 <= n <= |s|
  {
    BeforeBracket(s[1..]) + 2
  }

  /** One global replacement of /<[^<>]*>/g. */
  function Pass(s: string, replacement: string): string {
    if s == "" then ""
    else if StartsTag(s) then replacement + Pass(s[TagLength(s)..], replacement)
    else [s[0]] + Pass(s[1..], replacement)
  }

  function Blank(s: string): string {
    seq(|s|, i requires 0 <= i < |s| => if IsBracket(s[i]) then ' ' else s[i])
  }

  function Opens(s: string): nat {
    if s == "" then 0 else Opens(s[1..]) + if s[0] == '<' then 1 else 0
  }

  lemma {:induction false} OpensOfConcat(a: string, b: string)
    ensures Opens(a + b) == Opens(a) + Opens(b)
  {
    if a == "" {
      assert a + b == b;
    } else {
      assert (a + b)[1..] == a[1..] + b;
      OpensOfConcat(a[1..], b);
    }
  }

  lemma {:induction false} NoBracketsNoOpens(s: string)
    requires NoBrackets(s)
    ensures Opens(s) == 0
  {
    if s != "" {
      NoBracketsNoOpens(s[1..]);
    }
  }

  /** A pass that changes the text removes at least one '<'. */
  lemma {:induction false} PassProgresses(s: string, replacement: string)
    requires NoBrackets(replacement)
    ensures Pass(s, replacement) == s || Opens(Pass(s, replacement)) < Opens(s)
    ensures Opens(Pass(s, replacement)) <= Opens(s)
    decreases |s|
  {
    if s == "" {
    } else if StartsTag(s) {
      var n := TagLength(s);
      PassProgresses(s[n..], replacement);
      OpensOfConcat(replacement, Pass(s[n..], replacement));
      NoBracketsNoOpens(replacement);
      assert s == s[..n] + s[n..];
      OpensOfConcat(s[..n], s[n..]);
      assert Opens(s[..n]) >= 1;
    } else {
      PassProgresses(s[1..], replacement);
      assert ([s[0]] + Pass(s[1..], replacement))[1..] == Pass(s[1..], replacement);
      assert s == [s[0]] + s[1..];
    }
  }

  /** No '<' comes before a '>'. */
  predicate Unpaired(s: string) { forall i, j | 0 <= i < j < |s| :: !(s[i] == '<' && s[j] == '>') }

  method StripTags(text: string, replacement: string) returns (out: string)
    requires NoBrackets(replacement)
    ensures out == Visible(text, replacement)
  {
    var current := text;
    while true
      invariant Visible(current, replacement) == Visible(text, replacement)
      decreases Opens(current)
    {
      var prev := current;
      current := Pass(current, replacement);
      PassKeepsVisible([""], prev, replacement);
      PassProgresses(prev, replacement);
      if current == prev { break; }
    }
    FixedExactlyWhenUnpaired(current, replacement);
    BlankIsVisible([""], current, replacement);
    assert "" + Blank(current) == Blank(current);
    return Blank(current);
  }

  // ----- What is left, in one pass with a stack -----------------------------------

  /**
   * Reading the text once: a '<' opens a level, a '>' closes the innermost level
   * and leaves the replacement in its place; a '>' with nothing to close is a space.
   */
  function FeedChar(levels: seq<string>, c: char, replacement: string): (next: seq<string>)
    requires levels != []
    ensures next != []
  {
    var n := |levels|;
    if c == '<' then levels + [""]
    else if c == '>' && n > 1 then levels[..n - 2] + [levels[n - 2] + replacement]
    else levels[..n - 1] + [levels[n - 1] + [if c == '>' then ' ' else c]]
  }

  function Feed(levels: seq<string>, s: string, replacement: string): (next: seq<string>)
    requires levels != []
    ensures next != []
    decreases |s|
  {
    if s == "" then levels else Feed(FeedChar(levels, s[0], replacement), s[1..], replacement)
  }

  /** Levels never closed: each one's '<' is a space. */
  function Flatten(levels: seq<string>): string
    requires levels != []
  {
    if |levels| == 1 then levels[0] else Flatten(levels[..|levels| - 1]) + (" " + levels[|levels| - 1])
  }

  /** Everything outside the outermost tags, which nest like parentheses. */
  function Visible(s: string, replacement: string): string { Flatten(Feed([""], s, replacement)) }

  lemma {:induction false} FeedConcat(levels: seq<string>, a: string, b: string, replacement: string)
    requires levels != []
    ensures Feed(levels, a + b, replacement) == Feed(Feed(levels, a, replacement), b, replacement)
    decreases |a|
  {
    if a == "" {
      assert a + b == b;
    } else {
      assert (a + b)[1..] == a[1..] + b;
      FeedConcat(FeedChar(levels, a[0], replacement), a[1..], b, replacement);
    }
  }

  function Append(levels: seq<string>, s: string): (next: seq<string>)
    requires levels != []
    ensures next != []
  {
    levels[..|levels| - 1] + [levels[|levels| - 1] + s]
  }

  lemma {:induction false} FeedPlain(levels: seq<string>, s: string, replacement: string)
    requires levels != [] && NoBrackets(s)
    ensures Feed(levels, s, replacement) == Append(levels, s)
    decreases |s|
  {
    if s == "" {
      assert levels[|levels| - 1] + "" == levels[|levels| - 1];
      assert Append(levels, s) == levels;
    } else {
      var top := levels[|levels| - 1];
      FeedPlain(FeedChar(levels, s[0], replacement), s[1..], replacement);
      assert top + [s[0]] + s[1..] == top + s;
      assert Append(FeedChar(levels, s[0], replacement), s[1..]) == Append(levels, s);
    }
  }

  /** Reading a whole tag is reading its replacement. */
  lemma FeedTag(levels: seq<string>, inside: string, replacement: string)
    requires levels != [] && NoBrackets(inside) && NoBrackets(replacement)
    ensures Feed(levels, "<" + (inside + ">"), replacement) == Feed(levels, replacement, replacement)
  {
    var n := |levels|;
    FeedConcat(levels, "<", inside + ">", replacement);
    FeedConcat(levels + [""], inside, ">", replacement);
    FeedPlain(levels + [""], inside, replacement);
    FeedPlain(levels, replacement, replacement);
    var deeper := Append(levels + [""], inside);
    assert deeper[..n] == levels;
    assert Feed(deeper, ">", replacement) == FeedChar(deeper, '>', replacement);
    assert Feed(levels, "<", replacement) == levels + [""];
  }

  lemma {:induction false} PassKeepsVisible(levels: seq<string>, s: string, replacement: string)
    requires levels != [] && NoBrackets(replacement)
    ensures Feed(levels, Pass(s, replacement), replacement) == Feed(levels, s, replacement)
    decreases |s|
  {
    if s == "" {
    } else if StartsTag(s) {
      var n := TagLength(s);
      var inside, rest := s[1..n - 1], s[n..];
      assert inside == s[1..][..n - 2];
      assert s == ("<" + (inside + ">")) + rest;
      FeedConcat(levels, "<" + (inside + ">"), rest, replacement);
      FeedTag(levels, inside, replacement);
      FeedConcat(levels, replacement, Pass(rest, replacement), replacement);
      PassKeepsVisible(Feed(levels, replacement, replacement), rest, replacement);
    } else {
      var tail := Pass(s[1..], replacement);
      assert ([s[0]] + tail)[0] == s[0] && ([s[0]] + tail)[1..] == tail;
      PassKeepsVisible(FeedChar(levels, s[0], replacement), s[1..], replacement);
    }
  }

  lemma FlattenAppend(levels: seq<string>, s: string)
    requires levels != []
    ensures Flatten(Append(levels, s)) == Flatten(levels) + s
  {
    var n := |levels|;
    var next := Append(levels, s);
    if n > 1 {
      assert next[..n - 1] == levels[..n - 1];
      assert " " + (levels[n - 1] + s) == " " + levels[n - 1] + s;
    }
  }

  /** One character of text in which nothing closes a level. */
  lemma FlattenFeedChar(levels: seq<string>, c: char, replacement: string)
    requires levels != [] && (|levels| > 1 ==> c != '>')
    ensures Flatten(FeedChar(levels, c, replacement)) == Flatten(levels) + [if IsBracket(c) then ' ' else c]
  {
    if c == '<' {
      assert (levels + [""])[..|levels|] == levels;
      assert " " + "" == [' '];
    } else {
      var shown := if c == '>' then ' ' else c;
      assert FeedChar(levels, c, replacement) == Append(levels, [shown]);
      FlattenAppend(levels, [shown]);
    }
  }

  lemma {:induction false} BlankIsVisible(levels: seq<string>, s: string, replacement: string)
    requires levels != [] && Unpaired(s) && (|levels| > 1 ==> '>' !in s)
    ensures Flatten(Feed(levels, s, replacement)) == Flatten(levels) + Blank(s)
    decreases |s|
  {
    if s == "" {
      assert Flatten(levels) + "" == Flatten(levels);
    } else {
      var next := FeedChar(levels, s[0], replacement);
      assert s[0] in s;
      FlattenFeedChar(levels, s[0], replacement);
      NoCloseInTail(levels, s, replacement);
      BlankIsVisible(next, s[1..], replacement);
      BlankAfter(Flatten(levels), s);
    }
  }

  lemma BlankAfter(shown: string, s: string)
    requires s != ""
    ensures shown + [if IsBracket(s[0]) then ' ' else s[0]] + Blank(s[1..]) == shown + Blank(s)
  {
    assert Blank(s) == [if IsBracket(s[0]) then ' ' else s[0]] + Blank(s[1..]);
  }

  lemma NoCloseInTail(levels: seq<string>, s: string, replacement: string)
    requires levels != [] && s != "" && Unpaired(s) && (|levels| > 1 ==> '>' !in s)
    ensures Unpaired(s[1..]) && (|FeedChar(levels, s[0], replacement)| > 1 ==> '>' !in s[1..])
  {
    assert forall j | 0 <= j < |s[1..]| :: s[1..][j] == s[j + 1];
  }

  // ----- The loop's exit and its result ---------------------------------------------

  /** Replacing stops changing the text exactly when no '<' precedes a '>'. */
  lemma {:induction false} FixedExactlyWhenUnpaired(s: string, replacement: string)
    requires NoBrackets(replacement)
    ensures Pass(s, replacement) == s <==> Unpaired(s)
    decreases |s|
  {
    if s == "" {
    } else if StartsTag(s) {
      var n := TagLength(s);
      assert s[0] == '<' && s[n - 1] == '>';
      OpensOfConcat(replacement, Pass(s[n..], replacement));
      NoBracketsNoOpens(replacement);
      PassProgresses(s[n..], replacement);
      assert s == s[..n] + s[n..];
      OpensOfConcat(s[..n], s[n..]);
    } else {
      FixedExactlyWhenUnpaired(s[1..], replacement);
      assert s == [s[0]] + s[1..];
      if s[0] == '<' && Unpaired(s[1..]) { NoTagNoClose(s); }
      assert Unpaired(s[1..]) ==> (Unpaired(s) <==> !(s[0] == '<' && '>' in s[1..]));
    }
  }

  lemma NoTagNoClose(s: string)
    requires s != "" && s[0] == '<' && !StartsTag(s) && Unpaired(s[1..])
    ensures '>' !in s[1..]
  {
    var rest := s[1..];
    var n := BeforeBracket(rest);
    forall j | 0 <= j < |rest| ensures rest[j] != '>' {
      assert j < n ==> rest[..n][j] == rest[j];
    }
  }

  ghost predicate LevelsClean(levels: seq<string>) { forall k | 0 <= k < |levels| :: NoBrackets(levels[k]) }

  lemma {:induction false} VisibleHasNoBrackets(levels: seq<string>, s: string, replacement: string)
    requires levels != [] && NoBrackets(replacement) && LevelsClean(levels)
    ensures NoBrackets(Flatten(Feed(levels, s, replacement)))
    decreases |s|
  {
    if s == "" {
      FlattenHasNoBrackets(levels);
    } else {
      assert LevelsClean(FeedChar(levels, s[0], replacement));
      VisibleHasNoBrackets(FeedChar(levels, s[0], replacement), s[1..], replacement);
    }
  }

  lemma {:induction false} FlattenHasNoBrackets(levels: seq<string>)
    requires levels != [] && LevelsClean(levels)
    ensures NoBrackets(Flatten(levels))
  {
    if |levels| > 1 {
      FlattenHasNoBrackets(levels[..|levels| - 1]);
      assert NoBrackets(levels[|levels| - 1]);
    }
  }

  /** The text that comes out has no angle bracket, and text without any comes out unchanged. */
  lemma StrippedText(text: string, replacement: string)
    requires NoBrackets(replacement)
    ensures NoBrackets(Visible(text, replacement))
    ensures Visible(text, replacement) == text <==> NoBrackets(text)
  {
    VisibleHasNoBrackets([""], text, replacement);
    if NoBrackets(text) {
      FeedPlain([""], text, replacement);
      assert "" + text == text;
    }
  }
}
