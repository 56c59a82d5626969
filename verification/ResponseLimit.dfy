/** The limit that dashboard/app.py puts on the length of a model's answer. */
module ResponseLimit {
  import opened Text
  import opened Wrappers

  // str.isspace
  predicate IsSpace(c: char) {
    || '\t' <= c <= '\r' || '\U{1C}' <= c <= ' ' || c == '\U{85}' || c == '\U{A0}' || c == '\U{1680}'
    || '\U{2000}' <= c <= '\U{200A}' || c == '\U{2028}' || c == '\U{2029}' || c == '\U{202F}' || c == '\U{205F}'
    || c == '\U{3000}'
  }

  function LeftStrip(s: string): string {
    if s == "" || !IsSpace(s[0]) then s else LeftStrip(s[1..])
  }

  predicate Blank(s: string) {
    LeftStrip(s) == ""
  }

  // s.strip().startswith("[")
  predicate IsHud(s: string) {
    !Blank(s) && LeftStrip(s)[0] == '['
  }

  // s.split("\n")
  function Lines(s: string): (lines: seq<string>)
    ensures lines != [] && forall i | 0 <= i < |lines| :: '\n' !in lines[i]
    decreases |s|
  {
    var i := Find(s, '\n');
    if i == |s| then [s] else [s[..i]] + Lines(s[i + 1..])
  }

  function NonBlank(lines: seq<string>): (kept: seq<string>)
    ensures |kept| <= |lines|
    ensures forall i | 0 <= i < |kept| :: kept[i] in lines && !Blank(kept[i])
  {
    if lines == [] then [] else (if Blank(lines[0]) then [] else [lines[0]]) + NonBlank(lines[1..])
  }

  predicate Occurs(part: string, s: string, i: nat) {
    i + |part| <= |s| && s[i..i + |part|] == part
  }

  predicate Contains(s: string, part: string) {
    exists i: nat | i <= |s| :: Occurs(part, s, i)
  }

  // A code block or a table row.
  predicate Structured(s: string) {
    Contains(s, "```") || (Contains(s, "\n|") && Contains(s, "|"))
  }

  // The last line that starts with a bracket.
  function LastHud(lines: seq<string>): (hud: Option<nat>)
    ensures hud.Some? ==> hud.value < |lines| && IsHud(lines[hud.value])
    ensures forall i | (if hud.Some? then hud.value + 1 else 0) <= i < |lines| :: !IsHud(lines[i])
  {
    if lines == [] then None
    else if IsHud(lines[|lines| - 1]) then Some(|lines| - 1)
    else
      var hud := LastHud(lines[..|lines| - 1]);
      assert forall i | 0 <= i < |lines| - 1 :: lines[i] == lines[..|lines| - 1][i];
      hud
  }

  function Without(lines: seq<string>, hud: Option<nat>): seq<string>
    requires hud.Some? ==> hud.value < |lines|
  {
    match hud
    case None => lines
    case Some(h) => lines[..h] + lines[h + 1..]
  }

  function ContentLines(s: string): seq<string> {
    Without(NonBlank(Lines(s)), LastHud(NonBlank(Lines(s))))
  }

  // The last full stop, exclamation mark or question mark, or -1.
  function LastEnd(s: string): int {
    var m := if RFind(s, '.') < RFind(s, '!') then RFind(s, '!') else RFind(s, '.');
    if m < RFind(s, '?') then RFind(s, '?') else m
  }

  // A text cut after its last sentence, unless that leaves less than three tenths of it.
  function Excerpt(s: string): string {
    if LastEnd(s) > |s| * 3 / 10 then s[..LastEnd(s) + 1] else s
  }

  const MARK := " \U{25B6} [continue]"

  function Joined(lines: seq<string>): string
    requires |lines| > 3
  {
    lines[0] + " " + lines[1] + " " + lines[2]
  }

  function WithHud(first: string, hud: Option<string>): string {
    if hud.Some? then first + "\n" + hud.value else first
  }

  function Short(content: seq<string>, hud: Option<string>): string
    requires |content| > 3
  {
    WithHud(Excerpt(Joined(content)) + MARK, hud)
  }

  function HudLine(lines: seq<string>): Option<string> {
    match LastHud(lines)
    case None => None
    case Some(h) => Some(lines[h])
  }

  function Listed(hud: Option<string>): seq<string> {
    if hud.Some? then [hud.value] else []
  }

  function Enforced(s: string): string {
    if Blank(s) || Structured(s) || |NonBlank(Lines(s))| <= 4 || |ContentLines(s)| <= 3 then s
    else Short(ContentLines(s), HudLine(NonBlank(Lines(s))))
  }

  method EnforceResponseLength(content: string) returns (result: string)
    ensures result == Enforced(content)
  {
    if Blank(content) || Structured(content) {
      return content;
    }
    var nonBlank := NonBlank(Lines(content));
    if |nonBlank| <= 4 {
      return content;
    }
    var hud := FindHud(nonBlank);
    var contentLines := Without(nonBlank, hud);
    if |contentLines| <= 3 {
      return content;
    }
    result := Shorten(contentLines, if hud.Some? then Some(nonBlank[hud.value]) else None);
  }

  // The part of _enforce_response_length that builds the shorter answer.
  method Shorten(content: seq<string>, hud: Option<string>) returns (result: string)
    requires |content| > 3
    ensures result == Short(content, hud)
  {
    var excerpt := CutExcerpt(Joined(content));
    result := excerpt + MARK;
    if hud.Some? {
      result := result + "\n" + hud.value;
    }
  }

  method CutExcerpt(text: string) returns (excerpt: string)
    ensures excerpt == Excerpt(text)
  {
    excerpt := text;
    var lastEnd := LastEnd(excerpt);
    if lastEnd > |excerpt| * 3 / 10 {
      excerpt := excerpt[..lastEnd + 1];
    }
  }

  method FindHud(lines: seq<string>) returns (hud: Option<nat>)
    ensures hud == LastHud(lines)
  {
    var i := |lines|;
    while i > 0
      invariant 0 <= i <= |lines| && forall j | i <= j < |lines| :: !IsHud(lines[j])
    {
      if IsHud(lines[i - 1]) {
        return Some(i - 1);
      }
      i := i - 1;
    }
    return None;
  }

  lemma {:induction false} BlankIffSpaces(s: string)
    ensures Blank(s) <==> forall i | 0 <= i < |s| :: IsSpace(s[i])
  {
    if s != "" {
      BlankIffSpaces(s[1..]);
      assert forall i | 1 <= i < |s| :: s[i] == s[1..][i - 1];
    }
  }

  lemma BlankConcat(a: string, b: string)
    requires Blank(a + b)
    ensures Blank(a) && Blank(b)
  {
    BlankIffSpaces(a + b);
    BlankIffSpaces(a);
    BlankIffSpaces(b);
    assert forall i | 0 <= i < |a| :: (a + b)[i] == a[i];
    assert forall i | 0 <= i < |b| :: (a + b)[|a| + i] == b[i];
  }

  lemma {:induction false} BlankTogether(lines: seq<string>)
    requires lines != [] && Blank(Together(lines))
    ensures NonBlank(lines) == []
  {
    if |lines| > 1 {
      BlankConcat(lines[0] + "\n", Together(lines[1..]));
      BlankConcat(lines[0], "\n");
      BlankTogether(lines[1..]);
    }
  }

  lemma BlankHasNoLines(s: string)
    requires Blank(s)
    ensures NonBlank(Lines(s)) == []
  {
    LinesTogether(s);
    BlankTogether(Lines(s));
  }

  lemma OneLine(a: string)
    requires '\n' !in a
    ensures Lines(a) == [a]
  {}

  // A line with another one after it.
  lemma LinesAppend(a: string, b: string)
    requires '\n' !in a && '\n' !in b
    ensures Lines(a + "\n" + b) == [a, b]
  {
    var s := a + "\n" + b;
    FindSeparator(a, '\n', b);
    assert s[..|a|] == a;
    assert s[|a| + 1..] == b;
    OneLine(b);
  }

  lemma OneLineExcerpt(content: seq<string>)
    requires |content| > 3 && forall i | 0 <= i < |content| :: '\n' !in content[i]
    ensures '\n' !in Excerpt(Joined(content)) + MARK
  {
    assert '\n' !in Joined(content);
    assert '\n' !in MARK;
  }

  lemma LinesWithHud(first: string, hud: Option<string>)
    requires '\n' !in first && (hud.Some? ==> '\n' !in hud.value)
    ensures Lines(WithHud(first, hud)) == [first] + Listed(hud)
  {
    if hud.Some? {
      LinesAppend(first, hud.value);
    } else {
      OneLine(first);
    }
  }

  lemma WithoutKeeps(lines: seq<string>, hud: Option<nat>)
    requires (hud.Some? ==> hud.value < |lines|) && forall i | 0 <= i < |lines| :: '\n' !in lines[i]
    ensures |Without(lines, hud)| >= |lines| - 1
    ensures forall i | 0 <= i < |Without(lines, hud)| :: '\n' !in Without(lines, hud)[i]
  {}

  // What is kept comes from the answer's lines, each without a line break.
  lemma KeptLines(s: string, nonBlank: seq<string>)
    requires nonBlank == NonBlank(Lines(s))
    ensures |ContentLines(s)| >= |nonBlank| - 1
    ensures forall i | 0 <= i < |ContentLines(s)| :: '\n' !in ContentLines(s)[i]
    ensures HudLine(nonBlank).Some? ==> '\n' !in HudLine(nonBlank).value
  {
    forall i | 0 <= i < |nonBlank| ensures '\n' !in nonBlank[i] {
      assert nonBlank[i] in Lines(s);
    }
    WithoutKeeps(nonBlank, LastHud(nonBlank));
  }

  lemma ShortenedBy(s: string)
    ensures Enforced(s) != s <==> !Structured(s) && |NonBlank(Lines(s))| > 4
    ensures Enforced(s) != s ==>
      (&& |ContentLines(s)| > 3
       && Lines(Enforced(s)) == [Excerpt(Joined(ContentLines(s))) + MARK] + Listed(HudLine(NonBlank(Lines(s)))))
  {
    if Blank(s) {
      BlankHasNoLines(s);
    }
    if !Structured(s) && |NonBlank(Lines(s))| > 4 {
      KeptLines(s, NonBlank(Lines(s)));
      OneLineExcerpt(ContentLines(s));
      LinesWithHud(Excerpt(Joined(ContentLines(s))) + MARK, HudLine(NonBlank(Lines(s))));
    }
  }

  lemma FirstLine(content: seq<string>)
    requires |content| > 3
    ensures Excerpt(Joined(content)) + MARK
         == Excerpt(content[0] + " " + content[1] + " " + content[2]) + " \U{25B6} [continue]"
  {}

  // An answer is shortened if and only if it is unstructured with more than four lines that are not blank.
  lemma ShortenedExactly(s: string)
    ensures Enforced(s) != s <==> !Structured(s) && |NonBlank(Lines(s))| > 4
  {
    ShortenedBy(s);
  }

  lemma ContentExactly(s: string, lines: seq<string>, hud: Option<nat>)
    requires lines == NonBlank(Lines(s)) && hud == LastHud(lines)
    ensures ContentLines(s) == if hud.Some? then lines[..hud.value] + lines[hud.value + 1..] else lines
    ensures Listed(HudLine(lines)) == if hud.Some? then [lines[hud.value]] else []
  {}

  // What is left of a shortened answer is one line, from its first three without the last bracketed one, with the mark;
  // and that bracketed line.
  lemma ShortenedTo(s: string, lines: seq<string>, hud: Option<nat>, content: seq<string>)
    requires lines == NonBlank(Lines(s)) && hud == LastHud(lines)
    requires content == if hud.Some? then lines[..hud.value] + lines[hud.value + 1..] else lines
    ensures Enforced(s) != s ==> |content| > 3
    ensures Enforced(s) != s ==>
      Lines(Enforced(s)) == [Excerpt(content[0] + " " + content[1] + " " + content[2]) + " \U{25B6} [continue]"]
                            + if hud.Some? then [lines[hud.value]] else []
  {
    if Enforced(s) != s {
      ShortenedBy(s);
      ContentExactly(s, lines, hud);
      FirstLine(content);
    }
  }

  lemma AtMostFourLines(s: string)
    requires !Structured(s)
    ensures |NonBlank(Lines(Enforced(s)))| <= 4
  {
    ShortenedBy(s);
  }

  lemma EnforcedIdempotent(s: string)
    ensures Enforced(Enforced(s)) == Enforced(s)
  {
    ShortenedBy(s);
    ShortenedBy(Enforced(s));
  }

  // The promised limit of three lines beside the bracketed one holds except for four lines with none bracketed.
  lemma ThreeLinesBesideTheHud(s: string)
    requires !Structured(s)
    ensures |ContentLines(Enforced(s))| <= 3 <==> !(|NonBlank(Lines(s))| == 4 && LastHud(NonBlank(Lines(s))).None?)
  {
    ShortenedBy(s);
  }

  predicate EndsSentence(c: char) {
    c == '.' || c == '!' || c == '?'
  }

  lemma LastEndExactly(s: string)
    ensures -1 <= LastEnd(s) < |s| && (LastEnd(s) >= 0 ==> EndsSentence(s[LastEnd(s)]))
    ensures forall i | LastEnd(s) < i < |s| :: !EndsSentence(s[i])
  {
    forall i | LastEnd(s) < i < |s| ensures !EndsSentence(s[i]) {
      NothingAfter(s, '.', i);
      NothingAfter(s, '!', i);
      NothingAfter(s, '?', i);
    }
  }

  lemma ExcerptIsPrefix(s: string)
    ensures Excerpt(s) <= s && 10 * |Excerpt(s)| >= 3 * |s|
  {}

  // A cut excerpt ends with its last sentence.
  lemma ExcerptEndsASentence(s: string)
    ensures Excerpt(s) <= s && 10 * |Excerpt(s)| >= 3 * |s|
    ensures Excerpt(s) != s ==> Excerpt(s) != "" && EndsSentence(Excerpt(s)[|Excerpt(s)| - 1])
    ensures Excerpt(s) != s ==> forall i | |Excerpt(s)| <= i < |s| :: !EndsSentence(s[i])
  {
    ExcerptIsPrefix(s);
    LastEndExactly(s);
  }

  // It is cut there exactly when the sentence ends after three tenths of the text.
  lemma ExcerptExactly(s: string, i: nat)
    requires i < |s| && EndsSentence(s[i]) && forall j | i < j < |s| :: !EndsSentence(s[j])
    ensures Excerpt(s) == if i > |s| * 3 / 10 then s[..i + 1] else s
  {
    LastEndExactly(s);
  }

  lemma NothingAfter(s: string, c: char, i: int)
    requires RFind(s, c) < i < |s|
    ensures s[i] != c
  {
    var r := RFind(s, c);
    if r >= 0 {
      assert s[i] == s[r + 1..][i - r - 1];
    }
  }

  // ---------- What the parts mean ----------

  lemma SpaceExactly(c: char)
    ensures IsSpace(c) <==>
      c in "\t\n\U{B}\U{C}\r\U{1C}\U{1D}\U{1E}\U{1F} \U{85}\U{A0}\U{1680}\U{2000}\U{2001}\U{2002}\U{2003}\U{2004}" +
           "\U{2005}\U{2006}\U{2007}\U{2008}\U{2009}\U{200A}\U{2028}\U{2029}\U{202F}\U{205F}\U{3000}"
  {}

  ghost predicate BackquotesAt(s: string, i: nat) {
    i + 2 < |s| && s[i] == '`' && s[i + 1] == '`' && s[i + 2] == '`'
  }

  ghost predicate BarAt(s: string, i: nat) {
    i + 1 < |s| && s[i] == '\n' && s[i + 1] == '|'
  }

  lemma OccursExactly(s: string, i: nat)
    ensures Occurs("```", s, i) <==> BackquotesAt(s, i)
    ensures Occurs("\n|", s, i) <==> BarAt(s, i)
    ensures BarAt(s, i) ==> Occurs("|", s, i + 1)
  {
    assert i + 3 <= |s| ==> s[i..i + 3] == [s[i], s[i + 1], s[i + 2]];
    assert i + 2 <= |s| ==> s[i..i + 2] == [s[i], s[i + 1]] && s[i + 1..i + 2] == [s[i + 1]];
  }

  // Structured answers hold three backquotes or a line that starts with a bar.
  lemma StructuredExactly(s: string)
    ensures Structured(s) <==> (exists i: nat :: BackquotesAt(s, i)) || (exists i: nat :: BarAt(s, i))
  {
    forall i: nat
      ensures Occurs("```", s, i) <==> BackquotesAt(s, i)
      ensures Occurs("\n|", s, i) <==> BarAt(s, i)
      ensures BarAt(s, i) ==> Occurs("|", s, i + 1)
    {
      OccursExactly(s, i);
    }
  }

  // A bracketed line: nothing but spaces before the bracket.
  lemma {:induction false} HudExactly(s: string)
    ensures IsHud(s) <==> exists i :: 0 <= i < |s| && s[i] == '[' && forall j | 0 <= j < i :: IsSpace(s[j])
  {
    if s != "" && IsSpace(s[0]) {
      HudExactly(s[1..]);
      if IsHud(s[1..]) {
        var i :| 0 <= i < |s[1..]| && s[1..][i] == '[' && forall j | 0 <= j < i :: IsSpace(s[1..][j]);
        assert s[i + 1] == '[' && forall j | 0 <= j < i + 1 :: IsSpace(s[j]);
      }
      if exists i :: 0 <= i < |s| && s[i] == '[' && forall j | 0 <= j < i :: IsSpace(s[j]) {
        var i :| 0 <= i < |s| && s[i] == '[' && forall j | 0 <= j < i :: IsSpace(s[j]);
        assert i > 0 && s[1..][i - 1] == '[' && forall j | 0 <= j < i - 1 :: IsSpace(s[1..][j]);
      }
    }
  }

  // Lines with line breaks between them.
  function Together(lines: seq<string>): string
    requires lines != []
  {
    if |lines| == 1 then lines[0] else lines[0] + "\n" + Together(lines[1..])
  }

  lemma JoinedAt(s: string, i: nat)
    requires i < |s| && s[i] == '\n'
    ensures s == s[..i] + "\n" + s[i + 1..]
  {}

  lemma TogetherCons(line: string, rest: seq<string>)
    requires rest != []
    ensures Together([line] + rest) == line + "\n" + Together(rest)
  {
    assert ([line] + rest)[1..] == rest;
  }

  // Splitting loses nothing, and the lines hold no line break.
  lemma {:induction false} LinesTogether(s: string)
    ensures Together(Lines(s)) == s && forall i | 0 <= i < |Lines(s)| :: '\n' !in Lines(s)[i]
    decreases |s|
  {
    var i := Find(s, '\n');
    if i < |s| {
      LinesTogether(s[i + 1..]);
      TogetherCons(s[..i], Lines(s[i + 1..]));
      JoinedAt(s, i);
    }
  }

  // What is kept of the lines: each that is not blank, in order.
  lemma NonBlankOne(line: string)
    ensures NonBlank([line]) == if forall i | 0 <= i < |line| :: IsSpace(line[i]) then [] else [line]
  {
    BlankIffSpaces(line);
  }

  lemma {:induction false} NonBlankAppend(a: seq<string>, b: seq<string>)
    ensures NonBlank(a + b) == NonBlank(a) + NonBlank(b)
  {
    if a == [] {
      assert a + b == b;
    } else {
      assert (a + b)[1..] == a[1..] + b;
      NonBlankAppend(a[1..], b);
    }
  }
}
