/** What the fix mode of check-style-clang-format.py achieves: a second run finds nothing to do, the
    two passes in the tool's order leave a file that passes both checks, and checking agrees with
    fixing. */
module StyleLaws {
  import opened StyleFixer

  predicate AllSpace(s: string) {
    forall i :: 0 <= i < |s| ==> IsSpace(s[i])
  }

  predicate InLine(ch: char) {
    ch != '\n' && ch != '\r'
  }

  // ---------------------------------------------------------------------------------------------
  // strip

  lemma {:induction false} RStripParts(s: string) returns (tail: string)
    ensures s == RStrip(s) + tail && AllSpace(tail)
    ensures RStrip(s) != [] ==> !IsSpace(RStrip(s)[|RStrip(s)| - 1])
  {
    tail := [];
    if s != [] && IsSpace(s[|s| - 1]) {
      tail := RStripParts(s[..|s| - 1]);
      tail := tail + [s[|s| - 1]];
    }
  }

  lemma {:induction false} LStripParts(s: string) returns (head: string)
    ensures s == head + LStrip(s) && AllSpace(head)
    ensures LStrip(s) != [] ==> !IsSpace(LStrip(s)[0])
  {
    head := [];
    if s != [] && IsSpace(s[0]) {
      head := LStripParts(s[1..]);
      head := [s[0]] + head;
    }
  }

  lemma {:induction false} RStripOf(s: string, tail: string)
    requires AllSpace(tail) && (s == [] || !IsSpace(s[|s| - 1]))
    ensures RStrip(s + tail) == s
  {
    if tail == [] {
      assert s + tail == s;
    } else {
      assert (s + tail)[..|s + tail| - 1] == s + tail[..|tail| - 1];
      RStripOf(s, tail[..|tail| - 1]);
    }
  }

  lemma {:induction false} LStripOf(head: string, s: string)
    requires AllSpace(head) && (s == [] || !IsSpace(s[0]))
    ensures LStrip(head + s) == s
  {
    if head == [] {
      assert head + s == s;
    } else {
      assert (head + s)[1..] == head[1..] + s;
      LStripOf(head[1..], s);
    }
  }

  /** Whitespace around a core that has none at its ends is exactly what strip removes. */
  lemma StripOf(head: string, core: string, tail: string)
    requires AllSpace(head) && AllSpace(tail)
    requires core != [] && !IsSpace(core[0]) && !IsSpace(core[|core| - 1])
    ensures Strip(head + core + tail) == core
  {
    RStripOf(head + core, tail);
    LStripOf(head, core);
  }

  lemma StripParts(s: string) returns (head: string, tail: string)
    ensures s == head + Strip(s) + tail && AllSpace(head) && AllSpace(tail)
  {
    tail := RStripParts(s);
    head := LStripParts(RStrip(s));
  }

  // ---------------------------------------------------------------------------------------------
  // expandtabs

  lemma {:induction false} ExpandHasNoTabs(s: string, col: nat)
    ensures '\t' !in Expand(s, col)
    decreases |s|
  {
    if s == [] {
    } else {
      ExpandHasNoTabs(s[1..], NextColumn(s[0], col));
    }
  }

  lemma {:induction false} ExpandKeepsTabFree(s: string, col: nat)
    requires '\t' !in s
    ensures Expand(s, col) == s
    decreases |s|
  {
    if s == [] {
    } else {
      ExpandKeepsTabFree(s[1..], NextColumn(s[0], col));
    }
  }

  /** The column after `s` when it starts in column `col`. */
  function ColumnAfter(s: string, col: nat): nat {
    if s == [] then col
    else ColumnAfter(s[1..], NextColumn(s[0], col))
  }

  lemma {:induction false} ExpandConcat(a: string, b: string, col: nat)
    ensures Expand(a + b, col) == Expand(a, col) + Expand(b, ColumnAfter(a, col))
    decreases |a|
  {
    if a == [] {
      assert a + b == b;
    } else {
      assert (a + b)[1..] == a[1..] + b;
      ExpandConcat(a[1..], b, NextColumn(a[0], col));
    }
  }

  /** Tabs become blanks, so whatever tabs may become is kept by blanks too. */
  lemma {:induction false} ExpandKeeps(s: string, col: nat, allowed: char -> bool)
    requires forall i :: 0 <= i < |s| ==> allowed(s[i]) || s[i] == '\t'
    requires allowed(' ')
    ensures forall i :: 0 <= i < |Expand(s, col)| ==> allowed(Expand(s, col)[i])
    decreases |s|
  {
    if s == [] {
    } else {
      ExpandKeeps(s[1..], NextColumn(s[0], col), allowed);
    }
  }

  lemma {:induction false} ColumnIsLength(s: string, col: nat)
    requires forall i :: 0 <= i < |s| ==> InLine(s[i])
    ensures ColumnAfter(s, col) == col + |Expand(s, col)|
    decreases |s|
  {
    if s == [] {
    } else {
      ColumnIsLength(s[1..], NextColumn(s[0], col));
    }
  }

  /** A tab fills the line up to the next multiple of the tab size, with at least one blank. */
  lemma TabReachesTabStop(before: string)
    requires forall i :: 0 <= i < |before| ==> InLine(before[i])
    ensures |Expand(before + "\t", 0)| % TAB_SIZE == 0
    ensures Expand(before, 0) <= Expand(before + "\t", 0)
    ensures 0 < |Expand(before + "\t", 0)| - |Expand(before, 0)| <= TAB_SIZE
  {
    ColumnIsLength(before, 0);
    ExpandConcat(before, "\t", 0);
    assert "\t"[1..] == [];
  }

  /** Tabs before and after a tab-free core expand around it. */
  lemma ExpandThree(head: string, core: string, tail: string) returns (col: nat)
    requires '\t' !in core
    ensures Expand(head + core + tail, 0) == Expand(head, 0) + core + Expand(tail, col)
  {
    ExpandConcat(head + core, tail, 0);
    ExpandConcat(head, core, 0);
    ExpandKeepsTabFree(core, ColumnAfter(head, 0));
    col := ColumnAfter(head + core, 0);
  }

  lemma ExpandAround(head: string, core: string, tail: string)
    requires AllSpace(head) && AllSpace(tail)
    requires core != [] && !IsSpace(core[0]) && !IsSpace(core[|core| - 1]) && '\t' !in core
    ensures Strip(Expand(head + core + tail, 0)) == core
  {
    var col := ExpandThree(head, core, tail);
    ExpandKeeps(head, 0, IsSpace);
    ExpandKeeps(tail, col, IsSpace);
    StripOf(Expand(head, 0), core, Expand(tail, col));
  }

  /** A guard line stays the same guard when its tabs are expanded: they all stand around it. */
  lemma ExpandKeepsGuard(line: string)
    requires IsGuard(line)
    ensures Strip(Expand(line, 0)) == Strip(line)
  {
    var head, tail := StripParts(line);
    ExpandAround(head, Strip(line), tail);
  }

  // ---------------------------------------------------------------------------------------------
  // Line boundaries

  lemma ExpandKeepsLine(line: string)
    requires IsLine(line)
    ensures IsLine(Expand(line, 0)) && (Ended(Expand(line, 0)) <==> Ended(line))
  {
    var n := |line| - 1;
    assert line == line[..n] + [line[n]];
    ExpandConcat(line[..n], [line[n]], 0);
    ExpandKeeps(line[..n], 0, InLine);
    var body, last := Expand(line[..n], 0), Expand([line[n]], ColumnAfter(line[..n], 0));
    assert Expand(line, 0) == body + last;
    if Ended(line) {
      assert last == "\n";
    } else {
      ExpandKeeps([line[n]], ColumnAfter(line[..n], 0), InLine);
      assert last != [];
    }
  }

  lemma WhitespaceFixIsLine(line: string)
    requires IsLine(line)
    ensures IsLine(RStrip(line) + "\n") && Ended(RStrip(line) + "\n")
  {
    var tail := RStripParts(line);
    if RStrip(line) == line {
      assert !Ended(line);
    }
  }

  /** The two line checks of the tool. */
  ghost predicate LineFunction(check: string -> LineCheck) {
    check == CheckTabsLine || check == CheckWhitespaceLine
  }

  /** Either fix turns a line into a line and changes it whenever the line offends. */
  lemma FixedLine(line: string, check: string -> LineCheck)
    requires IsLine(line) && LineFunction(check) && !check(line).compliant
    ensures IsLine(check(line).fixed) && (Ended(line) ==> Ended(check(line).fixed)) && check(line).fixed != line
  {
    if check == CheckTabsLine {
      ExpandKeepsLine(line);
      ExpandHasNoTabs(line, 0);
    } else {
      WhitespaceFixIsLine(line);
    }
  }

  lemma FixedLinesAreText(lines: seq<string>, guards: bool, check: string -> LineCheck)
    requires IsText(lines) && LineFunction(check)
    ensures IsText(FixedLines(lines, guards, check))
  {
    forall i | 0 <= i < |lines|
      ensures IsLine(FixedAt(lines, i, guards, check)) && (Ended(lines[i]) ==> Ended(FixedAt(lines, i, guards, check)))
    {
      if OffendsAt(lines, i, guards, check) {
        FixedLine(lines[i], check);
      }
    }
  }

  /** Reading the file after a fix gives the fixed lines: one for one, with their boundaries kept. */
  lemma FixedFileLines(raw: string, guards: bool, check: string -> LineCheck)
    requires LineFunction(check)
    ensures ReadLines(FixedFile(raw, guards, check)) == FixedLines(ReadLines(raw), guards, check)
    ensures |ReadLines(FixedFile(raw, guards, check))| == |ReadLines(raw)|
  {
    var lines := ReadLines(raw);
    ReadIsText(raw);
    FixedLinesAreText(lines, guards, check);
    if Compliant(lines, guards, check) {
      assert FixedLines(lines, guards, check) == lines;
    } else {
      ReadAfterWrite(FixedLines(lines, guards, check));
    }
  }

  // ---------------------------------------------------------------------------------------------
  // Checking agrees with fixing

  /** The fix run changes the file exactly when the check finds an offence. */
  lemma FixRewritesExactlyOffenders(raw: string, guards: bool, check: string -> LineCheck)
    requires LineFunction(check)
    ensures FixedFile(raw, guards, check) != raw <==> !Compliant(ReadLines(raw), guards, check)
  {
    var lines := ReadLines(raw);
    if !Compliant(lines, guards, check) {
      var i :| 0 <= i < |lines| && OffendsAt(lines, i, guards, check);
      ReadIsText(raw);
      FixedLine(lines[i], check);
      FixedFileLines(raw, guards, check);
      assert FixedLines(lines, guards, check)[i] != lines[i];
    }
  }

  /** Only checked lines change: a line in a guarded-off region that is no guard stays as it was. */
  lemma GuardedLinesUntouched(raw: string, check: string -> LineCheck, i: nat)
    requires LineFunction(check) && i < |ReadLines(raw)|
    requires !EnabledAt(ReadLines(raw), i) && !IsGuard(ReadLines(raw)[i])
    ensures |ReadLines(FixedFile(raw, true, check))| == |ReadLines(raw)|
    ensures ReadLines(FixedFile(raw, true, check))[i] == ReadLines(raw)[i]
  {
    FixedFileLines(raw, true, check);
  }

  // ---------------------------------------------------------------------------------------------
  // Tabs under guards

  /** Formatting enabled in the second run was enabled in the first, although expansion may have
      turned lines into guards. */
  lemma {:induction false} EnabledBackwards(lines: seq<string>, i: nat)
    requires i < |lines| && EnabledAt(FixedLines(lines, true, CheckTabsLine), i)
    ensures EnabledAt(lines, i)
  {
    if IsGuard(lines[i]) {
      ExpandKeepsGuard(lines[i]);
    } else if !OffendsAt(lines, i, true, CheckTabsLine) && i > 0 {
      EnabledBackwards(lines, i - 1);
    }
  }

  lemma FixedTabsComply(lines: seq<string>)
    ensures Compliant(FixedLines(lines, true, CheckTabsLine), true, CheckTabsLine)
  {
    var fixed := FixedLines(lines, true, CheckTabsLine);
    forall i | 0 <= i < |fixed| ensures !OffendsAt(fixed, i, true, CheckTabsLine) {
      if OffendsAt(lines, i, true, CheckTabsLine) {
        ExpandHasNoTabs(lines[i], 0);
      } else if EnabledAt(fixed, i) {
        EnabledBackwards(lines, i);
      }
    }
  }

  /** Fixing tabs is idempotent: the second run reports compliance and leaves the file alone. */
  lemma {:induction false} TabFixIsIdempotent(raw: string)
    ensures Compliant(ReadLines(FixedFile(raw, true, CheckTabsLine)), true, CheckTabsLine)
    ensures FixedFile(FixedFile(raw, true, CheckTabsLine), true, CheckTabsLine) == FixedFile(raw, true, CheckTabsLine)
  {
    FixedFileLines(raw, true, CheckTabsLine);
    FixedTabsComply(ReadLines(raw));
  }

  lemma {:induction false} PlainColumns(s: string, col: nat)
    requires forall i :: 0 <= i < |s| ==> s[i] != '\t' && s[i] != '\n' && s[i] != '\r'
    ensures ColumnAfter(s, col) == col + |s|
  {
    if s == [] {
    } else {
      PlainColumns(s[1..], col + 1);
    }
  }

  lemma ExpandLeadingTab(b: string, col: nat)
    requires col % TAB_SIZE == TAB_SIZE - 1 && '\t' !in b
    ensures Expand("\t" + b, col) == " " + b
  {
    assert ("\t" + b)[1..] == b;
    ExpandKeepsTabFree(b, NextColumn('\t', col));
    assert Spaces(1) == " ";
  }

  lemma ExpandOneTab(a: string, b: string)
    requires forall i :: 0 <= i < |a| ==> a[i] != '\t' && a[i] != '\n' && a[i] != '\r'
    requires |a| % TAB_SIZE == TAB_SIZE - 1 && '\t' !in b
    ensures Expand(a + ("\t" + b), 0) == a + (" " + b)
  {
    ExpandConcat(a, "\t" + b, 0);
    PlainColumns(a, 0);
    ExpandKeepsTabFree(a, 0);
    ExpandLeadingTab(b, |a|);
  }

  /** The line `text`, with a tab in the place of its blank at column `k`. */
  function WithTab(text: string, k: nat): string
    requires k < |text|
  {
    text[..k] + ("\t" + (text[k + 1..] + "\n"))
  }

  lemma TabForBlank(text: string, k: nat)
    requires forall i :: 0 <= i < |text| ==> text[i] != '\t' && text[i] != '\n' && text[i] != '\r'
    requires 0 < k < |text| - 1 && k % TAB_SIZE == TAB_SIZE - 1 && text[k] == ' '
    requires !IsSpace(text[0]) && !IsSpace(text[|text| - 1])
    ensures Strip(WithTab(text, k)) == text[k := '\t'] && Strip(Expand(WithTab(text, k), 0)) == text
  {
    ExpandOneTab(text[..k], text[k + 1..] + "\n");
    assert WithTab(text, k) == [] + text[k := '\t'] + "\n";
    StripOf([], text[k := '\t'], "\n");
    assert Expand(WithTab(text, k), 0) == [] + text + "\n";
    StripOf([], text, "\n");
  }

  /** Expansion can create a guard: a tab in column 15 becomes the one blank of the guard text. */
  lemma ExpansionCreatesGuard()
    ensures !IsGuard(WithTab(GUARD_OFF, 15)) && IsGuard(Expand(WithTab(GUARD_OFF, 15), 0))
  {
    TabForBlank(GUARD_OFF, 15);
    assert GUARD_OFF[15 := '\t'][15] != GUARD_ON[15] && GUARD_OFF[15 := '\t'][15] != GUARD_OFF[15];
  }

  // ---------------------------------------------------------------------------------------------
  // Whitespace, then tabs

  lemma WhitespaceFixKeepsStrip(line: string)
    ensures Strip(RStrip(line) + "\n") == Strip(line)
  {
    var tail := RStripParts(line);
    RStripOf(RStrip(line), "\n");
  }

  /** The whitespace pass changes no line's guard status. */
  lemma WhitespacePassKeepsGuards(raw: string, i: nat)
    requires i < |ReadLines(raw)|
    ensures |ReadLines(FixedFile(raw, false, CheckWhitespaceLine))| == |ReadLines(raw)|
    ensures Strip(ReadLines(FixedFile(raw, false, CheckWhitespaceLine))[i]) == Strip(ReadLines(raw)[i])
    ensures EnabledAt(ReadLines(FixedFile(raw, false, CheckWhitespaceLine)), i) == EnabledAt(ReadLines(raw), i)
  {
    FixedFileLines(raw, false, CheckWhitespaceLine);
    WhitespaceFixKeepsStrip(ReadLines(raw)[i]);
    if i == 0 {
    } else {
      WhitespacePassKeepsGuards(raw, i - 1);
    }
  }

  lemma WhitespaceFixComplies(line: string)
    ensures CheckWhitespaceLine(CheckWhitespaceLine(line).fixed).compliant
  {
    var tail := RStripParts(line);
    RStripOf(RStrip(line), "\n");
  }

  /** The last character of a trimmed text is no tab, so expansion leaves it at the end. */
  lemma ExpandKeepsLast(body: string, col: nat)
    requires body == [] || !IsSpace(body[|body| - 1])
    ensures Expand(body, col) == [] || !IsSpace(Expand(body, col)[|Expand(body, col)| - 1])
  {
    if body == [] {
    } else {
      var init, last := body[..|body| - 1], [body[|body| - 1]];
      assert body == init + last;
      ExpandConcat(init, last, col);
      ExpandKeepsTabFree(last, ColumnAfter(init, col));
      EndsWith(Expand(init, col), last[0]);
    }
  }

  lemma EndsWith(s: string, ch: char)
    ensures (s + [ch])[|s + [ch]| - 1] == ch
  {
  }

  lemma ExpandBeforeNewline(body: string)
    ensures Expand(body + "\n", 0) == Expand(body, 0) + "\n"
  {
    ExpandConcat(body, "\n", 0);
    ExpandKeepsTabFree("\n", ColumnAfter(body, 0));
  }

  /** Expanding tabs never brings trailing whitespace back. */
  lemma ExpandKeepsTrimmed(line: string)
    requires CheckWhitespaceLine(line).compliant
    ensures CheckWhitespaceLine(Expand(line, 0)).compliant
  {
    var body := RStrip(line);
    var tail := RStripParts(line);
    ExpandBeforeNewline(body);
    ExpandKeepsLast(body, 0);
    RStripOf(Expand(body, 0), "\n");
  }

  lemma TabFixKeepsTrimmed(line: string)
    requires CheckWhitespaceLine(line).compliant
    ensures CheckWhitespaceLine(CheckTabsLine(line).fixed).compliant
  {
    if '\t' in line {
      ExpandKeepsTrimmed(line);
    }
  }

  /** A line fixed by the first check complies with it, and still does when the second fixes it. */
  ghost predicate SecondKeepsFirst(line: string, first: string -> LineCheck, second: string -> LineCheck) {
    var fixed := first(line).fixed;
    && (first(line).compliant ==> fixed == line)
    && first(fixed).compliant
    && first(second(fixed).fixed).compliant
  }

  lemma TabsKeepWhitespace(line: string)
    ensures SecondKeepsFirst(line, CheckWhitespaceLine, CheckTabsLine)
  {
    WhitespaceFixComplies(line);
    TabFixKeepsTrimmed(CheckWhitespaceLine(line).fixed);
  }

  /** What one line keeps, a pass of the second check under guards keeps for the file. */
  lemma SecondPassKeepsFirst(lines: seq<string>, first: string -> LineCheck, second: string -> LineCheck)
    requires forall i :: 0 <= i < |lines| ==> SecondKeepsFirst(lines[i], first, second)
    ensures Compliant(FixedLines(FixedLines(lines, false, first), true, second), false, first)
  {
    var once := FixedLines(lines, false, first);
    var twice := FixedLines(once, true, second);
    forall i | 0 <= i < |twice| ensures !OffendsAt(twice, i, false, first) {
      assert SecondKeepsFirst(lines[i], first, second);
      assert once[i] == first(lines[i]).fixed;
    }
  }

  /** A file after the whitespace fix and then the tab fix under guards, in the tool's order. */
  ghost function BothFixed(raw: string): string {
    FixedFile(FixedFile(raw, false, CheckWhitespaceLine), true, CheckTabsLine)
  }

  /** Both passes in the tool's order leave a file that passes both checks, with as many lines as
      before. */
  lemma {:induction false} BothPassesComply(raw: string)
    ensures Compliant(ReadLines(BothFixed(raw)), false, CheckWhitespaceLine)
    ensures Compliant(ReadLines(BothFixed(raw)), true, CheckTabsLine)
    ensures |ReadLines(BothFixed(raw))| == |ReadLines(raw)|
  {
    var trimmed := FixedFile(raw, false, CheckWhitespaceLine);
    FixedFileLines(raw, false, CheckWhitespaceLine);
    FixedFileLines(trimmed, true, CheckTabsLine);
    forall i | 0 <= i < |ReadLines(raw)|
      ensures SecondKeepsFirst(ReadLines(raw)[i], CheckWhitespaceLine, CheckTabsLine)
    {
      TabsKeepWhitespace(ReadLines(raw)[i]);
    }
    SecondPassKeepsFirst(ReadLines(raw), CheckWhitespaceLine, CheckTabsLine);
    TabFixIsIdempotent(trimmed);
  }

  /** The fix run is idempotent: a second one finds nothing to do. */
  lemma BothFixedIsIdempotent(raw: string)
    ensures BothFixed(BothFixed(raw)) == BothFixed(raw)
  {
    BothPassesComply(raw);
  }
}
