/** The line-based checks of check-style-clang-format.py: trailing whitespace and tabs, the
    clang-format guards, and the file that is read, fixed and written back. */
module StyleFixer {

  const GUARD_ON := "// clang-format on"
  const GUARD_OFF := "// clang-format off"
  const TAB_SIZE := 4

  // ---------------------------------------------------------------------------------------------
  // Text: universal newlines on reading, one line per newline

  /** Carriage returns, alone or before a newline, are read as newlines. */
  function Universal(raw: string): string {
    if raw == [] then []
    else if raw[0] == '\r' then
      ['\n'] + Universal(if |raw| > 1 && raw[1] == '\n' then raw[2..] else raw[1..])
    else [raw[0]] + Universal(raw[1..])
  }

  /** The lines of a text, each with its newline; the last one may have none. */
  function Lines(text: string): seq<string> {
    if text == [] then []
    else if text[0] == '\n' then ["\n"] + Lines(text[1..])
    else
      var rest := Lines(text[1..]);
      if rest == [] then [[text[0]]] else [[text[0]] + rest[0]] + rest[1..]
  }

  function ReadLines(raw: string): seq<string> {
    Lines(Universal(raw))
  }

  function WriteLines(lines: seq<string>): string {
    if lines == [] then [] else lines[0] + WriteLines(lines[1..])
  }

  /** A line ends with its only newline, or has none. */
  predicate IsLine(line: string) {
    line != [] && '\r' !in line && forall i :: 0 <= i < |line| - 1 ==> line[i] != '\n'
  }

  predicate Ended(line: string) {
    line != [] && line[|line| - 1] == '\n'
  }

  /** What reading a file gives: lines of which only the last may lack a newline. */
  predicate IsText(lines: seq<string>) {
    && (forall i :: 0 <= i < |lines| ==> IsLine(lines[i]))
    && (forall i :: 0 <= i < |lines| - 1 ==> Ended(lines[i]))
  }

  lemma {:induction false} UniversalHasNoReturns(raw: string)
    ensures '\r' !in Universal(raw)
    decreases |raw|
  {
    if raw == [] {
    } else if raw[0] == '\r' {
      UniversalHasNoReturns(if |raw| > 1 && raw[1] == '\n' then raw[2..] else raw[1..]);
    } else {
      UniversalHasNoReturns(raw[1..]);
    }
  }

  lemma {:induction false} UniversalKeeps(text: string)
    requires '\r' !in text
    ensures Universal(text) == text
  {
    if text == [] {
    } else {
      UniversalKeeps(text[1..]);
    }
  }

  lemma {:induction false} LinesAreText(text: string)
    requires '\r' !in text
    ensures IsText(Lines(text)) && WriteLines(Lines(text)) == text
    ensures text != [] ==> Lines(text) != []
  {
    if text == [] {
    } else {
      LinesAreText(text[1..]);
      var rest := Lines(text[1..]);
      if text[0] == '\n' {
        assert Lines(text)[1..] == rest;
        assert forall i :: 1 <= i < |Lines(text)| ==> Lines(text)[i] == rest[i - 1];
      } else if rest == [] {
      } else {
        var first := [text[0]] + rest[0];
        assert Lines(text) == [first] + rest[1..];
        assert IsLine(first);
        assert Ended(rest[0]) ==> Ended(first);
        assert WriteLines(Lines(text)) == first + WriteLines(rest[1..]);
      }
    }
  }

  lemma {:induction false} LinesOfFirst(line: string, rest: string)
    requires IsLine(line) && (Ended(line) || rest == [])
    ensures Lines(line + rest) == [line] + Lines(rest)
  {
    var text := line + rest;
    assert text[1..] == line[1..] + rest;
    if |line| == 1 {
      assert line == [line[0]];
      assert line[1..] + rest == rest;
    } else {
      LinesOfFirst(line[1..], rest);
      assert Lines(text[1..])[0] == line[1..] && Lines(text[1..])[1..] == Lines(rest);
      assert [line[0]] + line[1..] == line;
    }
  }

  /** Writing lines and reading them back gives the same lines. */
  lemma {:induction false} ReadAfterWrite(lines: seq<string>)
    requires IsText(lines)
    ensures ReadLines(WriteLines(lines)) == lines
  {
    LinesAfterWrite(lines);
    UniversalKeeps(WriteLines(lines));
  }

  lemma {:induction false} LinesAfterWrite(lines: seq<string>)
    requires IsText(lines)
    ensures Lines(WriteLines(lines)) == lines && '\r' !in WriteLines(lines)
  {
    if lines == [] {
    } else {
      LinesAfterWrite(lines[1..]);
      LinesOfFirst(lines[0], WriteLines(lines[1..]));
      assert lines == [lines[0]] + lines[1..];
    }
  }

  lemma ReadIsText(raw: string)
    ensures IsText(ReadLines(raw))
  {
    UniversalHasNoReturns(raw);
    LinesAreText(Universal(raw));
  }

  // ---------------------------------------------------------------------------------------------
  // strip, rstrip, expandtabs

  /** The characters Python's str methods treat as whitespace. */
  predicate IsSpace(ch: char) {
    var n := ch as int;
    9 <= n <= 13 || 28 <= n <= 32 || n == 0x85 || n == 0xA0 || n == 0x1680 || 0x2000 <= n <= 0x200A
    || n == 0x2028 || n == 0x2029 || n == 0x202F || n == 0x205F || n == 0x3000
  }

  function RStrip(s: string): string {
    if s != [] && IsSpace(s[|s| - 1]) then RStrip(s[..|s| - 1]) else s
  }

  function LStrip(s: string): string {
    if s != [] && IsSpace(s[0]) then LStrip(s[1..]) else s
  }

  function Strip(s: string): string {
    LStrip(RStrip(s))
  }

  function Spaces(n: nat): string {
    seq(n, _ => ' ')
  }

  function NextColumn(ch: char, col: nat): nat {
    if ch == '\t' then col + TAB_SIZE - col % TAB_SIZE
    else if ch == '\n' || ch == '\r' then 0
    else col + 1
  }

  /** expandtabs from column `col`: a tab becomes blanks up to the next tab stop, and newlines
      restart the columns. */
  function Expand(s: string, col: nat): string
    decreases |s|
  {
    if s == [] then []
    else (if s[0] == '\t' then Spaces(TAB_SIZE - col % TAB_SIZE) else [s[0]]) + Expand(s[1..], NextColumn(s[0], col))
  }

  // ---------------------------------------------------------------------------------------------
  // The two line checks

  datatype LineCheck = LineCheck(compliant: bool, fixed: string)

  function CheckWhitespaceLine(line: string): LineCheck {
    var fixed := RStrip(line) + "\n";
    LineCheck(fixed == line, fixed)
  }

  function CheckTabsLine(line: string): LineCheck {
    if '\t' in line then LineCheck(false, Expand(line, 0)) else LineCheck(true, line)
  }

  // ---------------------------------------------------------------------------------------------
  // One pass over the lines

  predicate IsGuard(line: string) {
    Strip(line) == GUARD_ON || Strip(line) == GUARD_OFF
  }

  /** Whether formatting is enabled at line `i`, that is, after the guards up to and including it. */
  predicate EnabledAt(lines: seq<string>, i: nat)
    requires i < |lines|
  {
    if Strip(lines[i]) == GUARD_ON then true
    else if Strip(lines[i]) == GUARD_OFF then false
    else i == 0 || EnabledAt(lines, i - 1)
  }

  predicate CheckedAt(lines: seq<string>, i: nat, guards: bool)
    requires i < |lines|
  {
    !guards || EnabledAt(lines, i) || IsGuard(lines[i])
  }

  predicate OffendsAt(lines: seq<string>, i: nat, guards: bool, check: string -> LineCheck)
    requires i < |lines|
  {
    CheckedAt(lines, i, guards) && !check(lines[i]).compliant
  }

  function FixedAt(lines: seq<string>, i: nat, guards: bool, check: string -> LineCheck): string
    requires i < |lines|
  {
    if OffendsAt(lines, i, guards, check) then check(lines[i]).fixed else lines[i]
  }

  function FixedLines(lines: seq<string>, guards: bool, check: string -> LineCheck): seq<string> {
    seq(|lines|, i requires 0 <= i < |lines| => FixedAt(lines, i, guards, check))
  }

  /** The numbers of the offending lines among the first `n`. */
  function Offences(lines: seq<string>, n: nat, guards: bool, check: string -> LineCheck): seq<nat>
    requires n <= |lines|
  {
    if n == 0 then []
    else Offences(lines, n - 1, guards, check) + if OffendsAt(lines, n - 1, guards, check) then [n - 1] else []
  }

  /** No checked line offends. */
  ghost predicate Compliant(lines: seq<string>, guards: bool, check: string -> LineCheck) {
    forall i :: 0 <= i < |lines| ==> !OffendsAt(lines, i, guards, check)
  }

  lemma {:induction false} NoOffences(lines: seq<string>, n: nat, guards: bool, check: string -> LineCheck)
    requires n <= |lines|
    ensures Offences(lines, n, guards, check) == [] <==> forall i :: 0 <= i < n ==> !OffendsAt(lines, i, guards, check)
  {
    if n == 0 {
    } else {
      NoOffences(lines, n - 1, guards, check);
    }
  }

  lemma {:induction false} OffencesPrefix(lines: seq<string>, n: nat, m: nat, guards: bool, check: string -> LineCheck)
    requires n <= m <= |lines|
    ensures Offences(lines, n, guards, check) <= Offences(lines, m, guards, check)
  {
    if n == m {
    } else {
      OffencesPrefix(lines, n, m - 1, guards, check);
    }
  }

  lemma FirstOffence(lines: seq<string>, i: nat, guards: bool, check: string -> LineCheck)
    requires i < |lines| && Offences(lines, i, guards, check) == [] && OffendsAt(lines, i, guards, check)
    ensures Offences(lines, |lines|, guards, check) != [] && Offences(lines, |lines|, guards, check)[..1] == [i]
  {
    OffencesPrefix(lines, i + 1, |lines|, guards, check);
  }

  /** The file after a fix run: written back only when some line offends. */
  ghost function FixedFile(raw: string, guards: bool, check: string -> LineCheck): string {
    if Compliant(ReadLines(raw), guards, check) then raw
    else WriteLines(FixedLines(ReadLines(raw), guards, check))
  }

  lemma WrittenIsFixedFile(raw: string, fileLines: seq<string>, guards: bool, check: string -> LineCheck)
    requires !Compliant(ReadLines(raw), guards, check) && |fileLines| == |ReadLines(raw)|
    requires forall k :: 0 <= k < |fileLines| ==> fileLines[k] == FixedAt(ReadLines(raw), k, guards, check)
    ensures WriteLines(fileLines) == FixedFile(raw, guards, check)
  {
    assert fileLines == FixedLines(ReadLines(raw), guards, check);
  }

  class TextFile {
    var content: string

    constructor (content: string)
      ensures this.content == content
    {
      this.content := content;
    }
  }

  /** The guards part of the loop: whether formatting is enabled from line `i` on, and whether to skip
      the line. */
  method FollowGuards(lines: seq<string>, i: nat, enabled0: bool, guards: bool) returns (enabled: bool, skip: bool)
    requires i < |lines| && enabled0 == (!guards || i == 0 || EnabledAt(lines, i - 1))
    ensures enabled == (!guards || EnabledAt(lines, i)) && skip == !CheckedAt(lines, i, guards)
  {
    enabled, skip := enabled0, false;
    if guards {
      var stripped := Strip(lines[i]);
      if stripped == GUARD_ON {
        enabled := true;
      } else if stripped == GUARD_OFF {
        enabled := false;
      }
      if !enabled && stripped != GUARD_ON && stripped != GUARD_OFF {
        skip := true;
      }
    }
  }

  /** Checks or fixes one file.  `reports` are the line numbers for which messages are produced. */
  method CheckManuallyFile(file: TextFile, fix: bool, verbose: bool, guards: bool, check: string -> LineCheck)
    returns (compliant: bool, reports: seq<nat>)
    modifies file
    ensures compliant <==> Compliant(ReadLines(old(file.content)), guards, check)
    ensures file.content == if fix then FixedFile(old(file.content), guards, check) else old(file.content)
    ensures var lines := ReadLines(old(file.content));
      var all := Offences(lines, |lines|, guards, check);
      reports == if fix || verbose || all == [] then all else all[..1]
  {
    compliant, reports := true, [];
    var enabled := true;
    var lines := ReadLines(file.content);
    var fileLines := lines;
    for i := 0 to |lines|
      invariant enabled == (!guards || i == 0 || EnabledAt(lines, i - 1))
      invariant file.content == old(file.content) && |fileLines| == |lines|
      invariant forall k :: 0 <= k < i ==> fileLines[k] == FixedAt(lines, k, guards, check)
      invariant forall k :: i <= k < |lines| ==> fileLines[k] == lines[k]
      invariant reports == Offences(lines, i, guards, check)
      invariant compliant <==> reports == []
      invariant !fix && !verbose ==> compliant
    {
      var line := lines[i];
      var skip;
      enabled, skip := FollowGuards(lines, i, enabled, guards);
      if skip {
        continue;
      }
      var result := check(line);
      if !result.compliant {
        compliant := false;
        fileLines := fileLines[i := result.fixed];
        reports := reports + [i];
        if !fix && !verbose {
          FirstOffence(lines, i, guards, check);
          break;
        }
      }
    }
    NoOffences(lines, |lines|, guards, check);
    if fix && !compliant {
      WrittenIsFixedFile(file.content, fileLines, guards, check);
      file.content := WriteLines(fileLines);
    }
  }
}
