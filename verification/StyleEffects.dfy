/** What the style fixes do to a text, said in characters: which lines are protected by guards, what a
    line keeps, where tabs end, and how a file is cut into lines. */
module StyleEffects {
  import opened StyleFixer
  import opened StyleLaws

  // ---------------------------------------------------------------------------------------------
  // Whitespace

  /** The whitespace of Python's str. */
  const WHITESPACE: string :=
    [ '\t', '\n', '\U{000B}', '\U{000C}', '\r', '\U{001C}', '\U{001D}', '\U{001E}', '\U{001F}', ' ', '\U{0085}',
      '\U{00A0}', '\U{1680}', '\U{2000}', '\U{2001}', '\U{2002}', '\U{2003}', '\U{2004}', '\U{2005}', '\U{2006}',
      '\U{2007}', '\U{2008}', '\U{2009}', '\U{200A}', '\U{2028}', '\U{2029}', '\U{202F}', '\U{205F}', '\U{3000}' ]

  lemma SpaceIff(ch: char)
    ensures IsSpace(ch) <==> ch in WHITESPACE
  {
  }

  predicate White(s: string) {
    forall i :: 0 <= i < |s| ==> s[i] in WHITESPACE
  }

  predicate EndsClean(s: string) {
    s == "" || s[|s| - 1] !in WHITESPACE
  }

  lemma WhiteIff(s: string)
    ensures White(s) <==> AllSpace(s)
  {
    forall i | 0 <= i < |s| ensures s[i] in WHITESPACE <==> IsSpace(s[i]) {
      SpaceIff(s[i]);
    }
  }

  /** The whitespace check: a line keeps everything up to its trailing whitespace, gets one newline, and
      complies exactly when that changes nothing. */
  lemma WhitespaceLine(line: string) returns (body: string, tail: string)
    ensures line == body + tail && White(tail) && EndsClean(body)
    ensures CheckWhitespaceLine(line) == LineCheck(line == body + "\n", body + "\n")
  {
    body := RStrip(line);
    tail := RStripParts(line);
    WhiteIff(tail);
    if body != "" {
      SpaceIff(body[|body| - 1]);
    }
  }

  // ---------------------------------------------------------------------------------------------
  // Tabs

  /** Only the column modulo four matters. */
  lemma {:induction false} ExpandShift(s: string, col: nat, col': nat)
    requires col % 4 == col' % 4
    ensures Expand(s, col) == Expand(s, col')
    decreases |s|
  {
    if s == [] {
    } else {
      NextColumnShift(s[0], col, col');
      ExpandShift(s[1..], NextColumn(s[0], col), NextColumn(s[0], col'));
    }
  }

  lemma NextColumnShift(ch: char, col: nat, col': nat)
    requires col % 4 == col' % 4
    ensures NextColumn(ch, col) % 4 == NextColumn(ch, col') % 4
  {
  }

  lemma ExpandFromColumn(rest: string, col: nat)
    ensures Expand("\t" + rest, col) == seq(4 - col % 4, _ => ' ') + Expand(rest, 0)
  {
    assert ("\t" + rest)[1..] == rest;
    var next := col + 4 - col % 4;
    assert next % 4 == 0;
    ExpandShift(rest, next, 0);
    assert Spaces(4 - col % 4) == seq(4 - col % 4, _ => ' ');
  }

  /** The first tab becomes blanks up to the next column that is a multiple of four, and the rest of the
      line is expanded as a line of its own; without tabs nothing changes. */
  lemma ExpandFirstTab(before: string, rest: string)
    requires forall i :: 0 <= i < |before| ==> before[i] != '\t' && before[i] != '\n' && before[i] != '\r'
    ensures Expand(before + "\t" + rest, 0) == before + seq(4 - |before| % 4, _ => ' ') + Expand(rest, 0)
    ensures Expand(before, 0) == before
  {
    assert before + "\t" + rest == before + ("\t" + rest);
    ExpandConcat(before, "\t" + rest, 0);
    ExpandKeepsTabFree(before, 0);
    ColumnIsLength(before, 0);
    ExpandFromColumn(rest, |before|);
    assert before + (seq(4 - |before| % 4, _ => ' ') + Expand(rest, 0))
        == before + seq(4 - |before| % 4, _ => ' ') + Expand(rest, 0);
  }

  /** The tab check: a line complies exactly when it has no tab, and the fix expands its tabs. */
  lemma TabsLine(line: string)
    ensures CheckTabsLine(line) == LineCheck('\t' !in line, Expand(line, 0))
  {
    if '\t' !in line {
      ExpandKeepsTabFree(line, 0);
    }
  }

  // ---------------------------------------------------------------------------------------------
  // Guards

  /** A guard alone on its line, between whitespace. */
  ghost predicate GuardLine(line: string, guard: string) {
    exists head, tail :: White(head) && White(tail) && line == head + guard + tail
  }

  lemma GuardIff(line: string, guard: string)
    requires guard != "" && guard[0] !in WHITESPACE && EndsClean(guard)
    ensures Strip(line) == guard <==> GuardLine(line, guard)
  {
    if Strip(line) == guard {
      var head, tail := StripParts(line);
      WhiteIff(head);
      WhiteIff(tail);
    }
    if head, tail :| White(head) && White(tail) && line == head + guard + tail {
      WhiteIff(head);
      WhiteIff(tail);
      SpaceIff(guard[0]);
      SpaceIff(guard[|guard| - 1]);
      StripOf(head, guard, tail);
    }
  }

  ghost predicate TurnsOn(line: string) { GuardLine(line, "// clang-format on") }
  ghost predicate TurnsOff(line: string) { GuardLine(line, "// clang-format off") }

  lemma GuardsIff(line: string)
    ensures Strip(line) == GUARD_ON <==> TurnsOn(line)
    ensures Strip(line) == GUARD_OFF <==> TurnsOff(line)
  {
    SpaceIff('/');
    SpaceIff('n');
    SpaceIff('f');
    GuardIff(line, "// clang-format on");
    GuardIff(line, "// clang-format off");
  }

  ghost function Ons(lines: seq<string>): seq<bool> {
    seq(|lines|, i requires 0 <= i < |lines| => TurnsOn(lines[i]))
  }

  ghost function Offs(lines: seq<string>): seq<bool> {
    seq(|lines|, i requires 0 <= i < |lines| => TurnsOff(lines[i]))
  }

  /** Some line before number `i` is marked off and none after it is marked on. */
  predicate LastIsOff(ons: seq<bool>, offs: seq<bool>, i: nat)
    requires i <= |ons| == |offs|
  {
    exists k :: 0 <= k < i && offs[k] && forall j :: k < j < i ==> !ons[j]
  }

  lemma LastIsOffNext(ons: seq<bool>, offs: seq<bool>, i: nat, n: nat)
    requires i < |ons| == |offs| && n == i + 1
    ensures LastIsOff(ons, offs, n) <==> offs[i] || (!ons[i] && LastIsOff(ons, offs, i))
  {
    if k :| 0 <= k < n && offs[k] && forall j :: k < j < n ==> !ons[j] {
      assert k < i ==> !ons[i] && LastIsOff(ons, offs, i);
    }
    if !ons[i] && LastIsOff(ons, offs, i) {
      var k :| 0 <= k < i && offs[k] && forall j :: k < j < i ==> !ons[j];
      assert forall j :: k < j < n ==> !ons[j];
    }
  }

  /** Some line before number `i` turns formatting off and none after it turns it on again. */
  ghost predicate OffBefore(lines: seq<string>, i: nat)
    requires i <= |lines|
  {
    LastIsOff(Ons(lines), Offs(lines), i)
  }

  lemma {:induction false} EnabledIff(lines: seq<string>, i: nat)
    requires i < |lines|
    ensures EnabledAt(lines, i) <==> !OffBefore(lines, i + 1)
  {
    GuardsIff(lines[i]);
    LastIsOffNext(Ons(lines), Offs(lines), i, i + 1);
    if i > 0 {
      EnabledIff(lines, i - 1);
    }
  }

  /** In a region that is turned off, and no guard itself. */
  ghost predicate Protected(lines: seq<string>, i: nat)
    requires i < |lines|
  {
    OffBefore(lines, i) && !TurnsOn(lines[i]) && !TurnsOff(lines[i])
  }

  /** Under guards exactly the lines that are not protected are checked. */
  lemma CheckedIff(lines: seq<string>, i: nat)
    requires i < |lines|
    ensures CheckedAt(lines, i, true) <==> !Protected(lines, i)
    ensures CheckedAt(lines, i, false)
  {
    GuardsIff(lines[i]);
    EnabledIff(lines, i);
    LastIsOffNext(Ons(lines), Offs(lines), i, i + 1);
  }

  // ---------------------------------------------------------------------------------------------
  // Reports

  /** The reports of a full scan are the offending lines, each once, from the first to the last. */
  lemma {:induction false} OffencesAre(lines: seq<string>, n: nat, guards: bool, check: string -> LineCheck)
    requires n <= |lines|
    ensures forall k :: k in Offences(lines, n, guards, check) <==>
      0 <= k < n && CheckedAt(lines, k, guards) && !check(lines[k]).compliant
    ensures forall i, j :: 0 <= i < j < |Offences(lines, n, guards, check)| ==>
      Offences(lines, n, guards, check)[i] < Offences(lines, n, guards, check)[j]
  {
    if n == 0 {
    } else {
      OffencesAre(lines, n - 1, guards, check);
      var before := Offences(lines, n - 1, guards, check);
      assert forall i :: 0 <= i < |before| ==> before[i] in before;
    }
  }

  // ---------------------------------------------------------------------------------------------
  // Lines

  lemma {:induction false} UniversalConcat(a: string, b: string)
    requires '\r' !in a
    ensures Universal(a + b) == a + Universal(b)
  {
    if a == [] {
      assert a + b == b;
    } else {
      assert (a + b)[1..] == a[1..] + b;
      UniversalConcat(a[1..], b);
    }
  }

  /** A line ends at a newline, at a carriage return, or at both together, and gets one newline. */
  lemma ReadFirstLine(body: string, end: string, rest: string)
    requires '\n' !in body && '\r' !in body
    requires end == "\n" || end == "\r\n" || (end == "\r" && (rest == "" || rest[0] != '\n'))
    ensures ReadLines(body + end + rest) == [body + "\n"] + ReadLines(rest)
  {
    assert body + end + rest == body + (end + rest);
    UniversalConcat(body, end + rest);
    EndIsNewline(end, rest);
    assert body + ("\n" + Universal(rest)) == body + "\n" + Universal(rest);
    LinesOfFirst(body + "\n", Universal(rest));
  }

  lemma EndIsNewline(end: string, rest: string)
    requires end == "\n" || end == "\r\n" || (end == "\r" && (rest == "" || rest[0] != '\n'))
    ensures Universal(end + rest) == "\n" + Universal(rest)
  {
    var text := end + rest;
    if end == "\r\n" {
      assert text[0] == '\r' && text[1] == '\n' && text[2..] == rest;
    } else {
      assert text[0] == end[0] && text[1..] == rest;
    }
  }

  /** What follows the last newline is a line without one, unless it is empty. */
  lemma ReadLastLine(body: string)
    requires '\n' !in body && '\r' !in body
    ensures ReadLines(body) == if body == "" then [] else [body]
  {
    UniversalKeeps(body);
    if body != "" {
      LinesOfFirst(body, "");
      assert body + "" == body;
    }
  }

  // ---------------------------------------------------------------------------------------------
  // The whole fix run

  /** Line `i` becomes its text up to trailing whitespace, with tabs expanded unless it is protected, and
      one newline. */
  ghost predicate LineFixed(lines: seq<string>, i: nat, fixed: string)
    requires i < |lines|
  {
    exists body, tail :: lines[i] == body + tail && White(tail) && EndsClean(body)
      && fixed == (if Protected(lines, i) then body else Expand(body, 0)) + "\n"
  }

  lemma CheckedAfterTrimming(raw: string, i: nat)
    requires i < |ReadLines(raw)|
    ensures i < |ReadLines(FixedFile(raw, false, CheckWhitespaceLine))|
    ensures CheckedAt(ReadLines(FixedFile(raw, false, CheckWhitespaceLine)), i, true)
       <==> CheckedAt(ReadLines(raw), i, true)
  {
    FixedFileLines(raw, false, CheckWhitespaceLine);
    WhitespacePassKeepsGuards(raw, i);
  }

  lemma TrimmedLine(raw: string, i: nat) returns (body: string, tail: string)
    requires i < |ReadLines(raw)|
    ensures i < |ReadLines(FixedFile(raw, false, CheckWhitespaceLine))|
    ensures ReadLines(raw)[i] == body + tail && White(tail) && EndsClean(body)
    ensures ReadLines(FixedFile(raw, false, CheckWhitespaceLine))[i] == body + "\n"
  {
    FixedFileLines(raw, false, CheckWhitespaceLine);
    body, tail := WhitespaceLine(ReadLines(raw)[i]);
  }

  lemma FixRunLine(raw: string, i: nat)
    requires i < |ReadLines(raw)|
    ensures |ReadLines(BothFixed(raw))| == |ReadLines(raw)|
    ensures LineFixed(ReadLines(raw), i, ReadLines(BothFixed(raw))[i])
  {
    var trimmed := FixedFile(raw, false, CheckWhitespaceLine);
    FixedFileLines(raw, false, CheckWhitespaceLine);
    FixedFileLines(trimmed, true, CheckTabsLine);
    var body, tail := TrimmedLine(raw, i);
    CheckedAfterTrimming(raw, i);
    CheckedIff(ReadLines(raw), i);
    TabsLine(body + "\n");
    ExpandBeforeNewline(body);
    assert ReadLines(BothFixed(raw))[i] == FixedAt(ReadLines(trimmed), i, true, CheckTabsLine);
  }

  /** A file without tabs keeps every line up to its trailing whitespace. */
  lemma FixRunWithoutTabs(raw: string, i: nat) returns (body: string, tail: string)
    requires i < |ReadLines(raw)| && '\t' !in ReadLines(raw)[i]
    ensures |ReadLines(BothFixed(raw))| == |ReadLines(raw)|
    ensures ReadLines(raw)[i] == body + tail && White(tail) && EndsClean(body)
    ensures ReadLines(BothFixed(raw))[i] == body + "\n"
  {
    FixRunLine(raw, i);
    body, tail :| ReadLines(raw)[i] == body + tail && White(tail) && EndsClean(body)
      && ReadLines(BothFixed(raw))[i] == (if Protected(ReadLines(raw), i) then body else Expand(body, 0)) + "\n";
    ExpandKeepsTabFree(body, 0);
  }

  /** The fix run of the tool on one file: whitespace first, then tabs under guards.  Each line is fixed
      as `LineFixed` says, and running the two checks afterwards reports nothing. */
  method FixStyle(file: TextFile)
    modifies file
    ensures |ReadLines(file.content)| == |ReadLines(old(file.content))|
    ensures forall i :: 0 <= i < |ReadLines(file.content)| ==>
      LineFixed(ReadLines(old(file.content)), i, ReadLines(file.content)[i])
    ensures file.content == BothFixed(old(file.content))
    ensures Compliant(ReadLines(file.content), false, CheckWhitespaceLine)
    ensures Compliant(ReadLines(file.content), true, CheckTabsLine)
  {
    ghost var raw := file.content;
    BothPassesComply(raw);
    forall i | 0 <= i < |ReadLines(raw)| ensures LineFixed(ReadLines(raw), i, ReadLines(BothFixed(raw))[i]) {
      FixRunLine(raw, i);
    }
    var _, _ := CheckManuallyFile(file, true, false, false, CheckWhitespaceLine);
    var _, _ := CheckManuallyFile(file, true, false, true, CheckTabsLine);
  }
}
