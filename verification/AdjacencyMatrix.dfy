/** The adjacency-matrix reader and printer of examples/matrix-topology/matrix-topology.cc, over the text
    of the file. */
module AdjacencyMatrix {
  import opened Common

  type BoolMatrix = seq<seq<bool>>

  // ---------------------------------------------------------------------------------------------
  // Extracting booleans from a line, as the stream operator does without boolalpha

  predicate IsSpace(ch: char) {
    ch == ' ' || '\t' <= ch <= '\r'
  }

  predicate IsDigit(ch: char) {
    '0' <= ch <= '9'
  }

  function SkipSpace(s: string): (r: string)
    ensures |r| <= |s|
  {
    if s != [] && IsSpace(s[0]) then SkipSpace(s[1..]) else s
  }

  /** The number of leading digits. */
  function DigitCount(s: string): (n: nat)
    ensures n <= |s|
  {
    if s != [] && IsDigit(s[0]) then 1 + DigitCount(s[1..]) else 0
  }

  function NumberOf(digits: string): int {
    if digits == [] then 0
    else 10 * NumberOf(digits[..|digits| - 1]) + (digits[|digits| - 1] as int - '0' as int)
  }

  /** All leading digits are read; only the numbers 0 and 1 are booleans. */
  function ExtractDigits(s: string, negative: bool): (r: Option<(bool, string)>)
    ensures r.Some? ==> |r.value.1| < |s|
  {
    var n := DigitCount(s);
    var number := if negative then -NumberOf(s[..n]) else NumberOf(s[..n]);
    if n > 0 && (number == 0 || number == 1) then Some((number == 1, s[n..])) else None
  }

  predicate HasSign(s: string) {
    s != [] && (s[0] == '+' || s[0] == '-')
  }

  function ExtractSigned(s: string): (r: Option<(bool, string)>)
    ensures r.Some? ==> |r.value.1| < |s|
  {
    if HasSign(s) then ExtractDigits(s[1..], s[0] == '-') else ExtractDigits(s, false)
  }

  /** Blanks, an optional sign and digits.  The result is the value and the rest. */
  function Extract(s: string): (r: Option<(bool, string)>)
    ensures r.Some? ==> |r.value.1| < |s|
  {
    ExtractSigned(SkipSpace(s))
  }

  /** The text of one boolean: a number that is 0 or 1, not continued by `rest`. */
  predicate Numeral(digits: string, rest: string, b: bool) {
    && digits != [] && (forall i :: 0 <= i < |digits| ==> IsDigit(digits[i]))
    && (rest == [] || !IsDigit(rest[0]))
    && NumberOf(digits) == if b then 1 else 0
  }

  lemma DigitsConsumed(s: string, negative: bool) returns (digits: string)
    requires ExtractDigits(s, negative).Some?
    ensures var (b, rest) := ExtractDigits(s, negative).value;
      s == digits + rest && Numeral(digits, rest, b) && (negative ==> !b)
  {
    digits := s[..DigitCount(s)];
    LeadingDigits(s);
    NumberSign(digits);
  }

  lemma SignedConsumed(s: string) returns (sign: string, digits: string)
    requires ExtractSigned(s).Some?
    ensures var (b, rest) := ExtractSigned(s).value;
      && s == sign + (digits + rest) && (sign == "" || sign == "+" || sign == "-")
      && Numeral(digits, rest, b) && (sign == "-" ==> !b)
  {
    if HasSign(s) {
      sign := [s[0]];
      digits := DigitsConsumed(s[1..], s[0] == '-');
      assert s == sign + s[1..];
    } else {
      sign := "";
      digits := DigitsConsumed(s, false);
      assert s == sign + s;
    }
  }

  /** What a successful extraction consumed: blanks, an optional sign, and all digits of a number that
      is 0 or 1; minus one is no boolean. */
  lemma ExtractConsumes(s: string) returns (space: string, sign: string, digits: string)
    requires Extract(s).Some?
    ensures var (b, rest) := Extract(s).value;
      && s == space + (sign + (digits + rest))
      && (forall i :: 0 <= i < |space| ==> IsSpace(space[i]))
      && (sign == "" || sign == "+" || sign == "-")
      && Numeral(digits, rest, b) && (sign == "-" ==> !b)
  {
    space := SkippedSpace(s);
    sign, digits := SignedConsumed(SkipSpace(s));
  }

  lemma {:induction false} SkippedSpace(s: string) returns (space: string)
    ensures s == space + SkipSpace(s) && forall i :: 0 <= i < |space| ==> IsSpace(space[i])
  {
    space := "";
    if s != [] && IsSpace(s[0]) {
      space := SkippedSpace(s[1..]);
      space := [s[0]] + space;
    }
  }

  lemma {:induction false} LeadingDigits(s: string)
    ensures forall i :: 0 <= i < DigitCount(s) ==> IsDigit(s[i])
    ensures DigitCount(s) < |s| ==> !IsDigit(s[DigitCount(s)])
  {
    if s != [] && IsDigit(s[0]) {
      LeadingDigits(s[1..]);
      assert forall i :: 0 < i < |s| ==> s[i] == s[1..][i - 1];
    }
  }

  lemma {:induction false} NumberSign(digits: string)
    requires forall i :: 0 <= i < |digits| ==> IsDigit(digits[i])
    ensures NumberOf(digits) >= 0
  {
    if digits == [] {
    } else {
      NumberSign(digits[..|digits| - 1]);
    }
  }

  function ParseRow(line: string): seq<bool>
    decreases |line|
  {
    match Extract(line)
    case None => []
    case Some((element, rest)) => [element] + ParseRow(rest)
  }

  // ---------------------------------------------------------------------------------------------
  // Lines

  /** The lines getline yields until the end of the file; a final newline leaves an empty one. */
  function Split(text: string): (lines: seq<string>)
    ensures lines != []
  {
    if text == [] then [[]]
    else
      var rest := Split(text[1..]);
      if text[0] == '\n' then [[]] + rest else [[text[0]] + rest[0]] + rest[1..]
  }

  /** The parsed rows up to the first empty line. */
  function Rows(lines: seq<string>): BoolMatrix {
    if lines == [] || lines[0] == [] then [] else [ParseRow(lines[0])] + Rows(lines[1..])
  }

  // ---------------------------------------------------------------------------------------------
  // What is accepted

  datatype Outcome =
    | Matrix(contents: BoolMatrix)
    | FileNotFound
    | BadRow(row: nat, elements: nat, expected: nat)
    | NotSquare(rows: nat, columns: nat)

  predicate Square(m: BoolMatrix) {
    forall i :: 0 <= i < |m| ==> |m[i]| == |m|
  }

  function Columns(rows: BoolMatrix): nat {
    if rows == [] then 0 else |rows[0]|
  }

  /** The verdict on the rows from number `i` on. */
  function Judge(rows: BoolMatrix, i: nat): Outcome
    requires i <= |rows|
    decreases |rows| - i
  {
    if i == |rows| then
      if i == Columns(rows) then Matrix(rows) else NotSquare(i, Columns(rows))
    else if |rows[i]| != Columns(rows) then BadRow(i, |rows[i]|, Columns(rows))
    else Judge(rows, i + 1)
  }

  function Read(text: string): Outcome {
    Judge(Rows(Split(text)), 0)
  }

  lemma {:induction false} JudgeExact(rows: BoolMatrix, i: nat)
    requires i <= |rows| && forall k :: 0 <= k < i ==> |rows[k]| == Columns(rows)
    ensures Judge(rows, i) == Matrix(rows) <==> Square(rows)
    ensures Judge(rows, i).Matrix? ==> Judge(rows, i) == Matrix(rows)
    decreases |rows| - i
  {
    if i == |rows| {
      if Square(rows) && rows != [] {
        assert |rows[0]| == |rows|;
      }
    } else if |rows[i]| != Columns(rows) {
      assert rows != [];
    } else {
      JudgeExact(rows, i + 1);
    }
  }

  /** A file is accepted exactly when its rows up to the first blank line form a square matrix, and then
      that matrix is returned. */
  lemma ReadExact(text: string)
    ensures Read(text).Matrix? <==> Square(Rows(Split(text)))
    ensures Read(text).Matrix? ==> Read(text).contents == Rows(Split(text)) && Square(Read(text).contents)
  {
    JudgeExact(Rows(Split(text)), 0);
  }

  // ---------------------------------------------------------------------------------------------
  // Printing

  function Bit(b: bool): char {
    if b then '1' else '0'
  }

  function PrintRow(row: seq<bool>): string {
    if row == [] then [] else PrintRow(row[..|row| - 1]) + [Bit(row[|row| - 1]), ' ']
  }

  function PrintRows(m: BoolMatrix): string {
    if m == [] then [] else PrintRows(m[..|m| - 1]) + PrintLine(m[|m| - 1])
  }

  function PrintLine(row: seq<bool>): string {
    PrintRow(row) + "\n"
  }

  lemma {:induction false} PrintRowHead(row: seq<bool>)
    requires row != []
    ensures PrintRow(row) == [Bit(row[0]), ' '] + PrintRow(row[1..])
  {
    var n := |row| - 1;
    if n > 0 {
      PrintRowHead(row[..n]);
      assert row[1..][..n - 1] == row[..n][1..];
    } else {
      assert PrintRow(row[..0]) == [];
    }
  }

  lemma {:induction false} PrintRowHasNoNewline(row: seq<bool>)
    ensures '\n' !in PrintRow(row)
  {
    if row == [] {
    } else {
      PrintRowHasNoNewline(row[..|row| - 1]);
    }
  }

  lemma {:induction false} PrintRowsHead(m: BoolMatrix)
    requires m != []
    ensures PrintRows(m) == PrintLine(m[0]) + PrintRows(m[1..])
  {
    var n, rest := |m| - 1, m[1..];
    if n > 0 {
      PrintRowsHead(m[..n]);
      assert rest[..n - 1] == m[..n][1..] && rest[n - 1] == m[n];
      assert PrintRows(rest) == PrintRows(rest[..n - 1]) + PrintLine(m[n]);
      ConcatAssociative(PrintLine(m[0]), PrintRows(rest[..n - 1]), PrintLine(m[n]));
    } else {
      assert PrintRows(m[..0]) == [] && rest == [];
    }
  }

  lemma ExtractPrinted(space: string, b: bool, rest: string)
    requires space == "" || space == " "
    ensures Extract(space + ([Bit(b), ' '] + rest)) == Some((b, [' '] + rest))
  {
    var body := [Bit(b), ' '] + rest;
    assert (space + body)[|space|..] == body;
    assert SkipSpace(space + body) == body && !HasSign(body);
    assert body[1..] == [' '] + rest;
    assert DigitCount(body[1..]) == 0;
    assert DigitCount(body) == 1;
    assert body[..1] == [Bit(b)];
    assert [Bit(b)][..0] == [];
    assert NumberOf([Bit(b)]) == if b then 1 else 0;
  }

  /** Parsing a printed row gives the row back, with or without the blank left by the element before. */
  lemma {:induction false} ParsePrintedRow(row: seq<bool>, space: string)
    requires space == "" || space == " "
    ensures ParseRow(space + PrintRow(row)) == row
    decreases |row|
  {
    if row == [] {
      assert Extract(space + PrintRow(row)) == None;
    } else {
      PrintRowHead(row);
      ExtractPrinted(space, row[0], PrintRow(row[1..]));
      ParsePrintedRow(row[1..], " ");
      assert row == [row[0]] + row[1..];
    }
  }

  lemma {:induction false} SplitFirst(line: string, rest: string)
    requires '\n' !in line
    ensures Split(line + "\n" + rest) == [line] + Split(rest)
  {
    var text := line + "\n" + rest;
    if line == [] {
      assert text == "\n" + rest && text[1..] == rest;
    } else {
      assert text[1..] == line[1..] + "\n" + rest;
      SplitFirst(line[1..], rest);
      assert [line[0]] + line[1..] == line;
    }
  }

  lemma RowsOfLine(row: seq<bool>, rest: string)
    requires row != []
    ensures Rows(Split(PrintLine(row) + rest)) == [row] + Rows(Split(rest))
  {
    PrintRowHasNoNewline(row);
    SplitFirst(PrintRow(row), rest);
    ParsePrintedRow(row, "");
    assert "" + PrintRow(row) == PrintRow(row);
  }

  lemma {:induction false} RowsOfPrinted(m: BoolMatrix)
    requires forall i :: 0 <= i < |m| ==> m[i] != []
    ensures Rows(Split(PrintRows(m))) == m
  {
    if m == [] {
    } else {
      PrintRowsHead(m);
      RowsOfLine(m[0], PrintRows(m[1..]));
      RowsOfPrinted(m[1..]);
      assert m == [m[0]] + m[1..];
    }
  }

  /** Reading the printed rows returns the matrix exactly when it is square, the empty one included. */
  lemma PrintThenRead(m: BoolMatrix)
    ensures Read(PrintRows(m)) == Matrix(m) <==> Square(m)
  {
    if Square(m) {
      RowsOfPrinted(m);
    }
    ReadExact(PrintRows(m));
  }

  // ---------------------------------------------------------------------------------------------
  // The code

  method ReadRow(line: string) returns (row: seq<bool>)
    ensures row == ParseRow(line)
  {
    row := [];
    var rest := line;
    var next := Extract(rest);
    while next.Some?
      invariant next == Extract(rest)
      invariant row + ParseRow(rest) == ParseRow(line)
      decreases |rest|
    {
      row := row + [next.value.0];
      rest := next.value.1;
      next := Extract(rest);
    }
  }

  /** getline from position `pos`; `eof` is set when no newline ended the line. */
  method GetLine(text: string, pos: nat) returns (line: string, pos': nat, eof: bool)
    requires pos <= |text|
    ensures pos <= pos' <= |text|
    ensures eof ==> Split(text[pos..]) == [line]
    ensures !eof ==> pos < pos' && Split(text[pos..]) == [line] + Split(text[pos'..])
  {
    var i := pos;
    while i < |text| && text[i] != '\n'
      invariant pos <= i <= |text|
      invariant forall k :: pos <= k < i ==> text[k] != '\n'
    {
      i := i + 1;
    }
    line := text[pos..i];
    if i == |text| {
      assert text[pos..] == line;
      SplitWhole(line);
      return line, i, true;
    }
    assert text[pos..] == line + "\n" + text[i + 1..];
    SplitFirst(line, text[i + 1..]);
    return line, i + 1, false;
  }

  lemma {:induction false} SplitWhole(line: string)
    requires '\n' !in line
    ensures Split(line) == [line]
  {
    if line == [] {
    } else {
      SplitWhole(line[1..]);
      assert [line[0]] + line[1..] == line;
    }
  }

  method ReadNxNMatrix(file: Option<string>) returns (o: Outcome)
    ensures o == if file.None? then FileNotFound else Read(file.value)
  {
    if file.None? {
      return FileNotFound;
    }
    var text := file.value;
    ghost var all, lines := Rows(Split(text)), Split(text);
    var pos, eof := 0, false;
    var matrix: BoolMatrix := [];
    var i: nat, nNodes: nat := 0, 0;
    assert text[0..] == text;
    while !eof
      invariant pos <= |text|
      invariant i == |matrix| && ReadSoFar(all, matrix, lines, nNodes)
      invariant lines == if eof then [] else Split(text[pos..])
      decreases !eof, |text| - pos
    {
      var line;
      line, pos, eof := GetLine(text, pos);
      if line == [] {
        break;
      }
      var row := ReadRow(line);
      var j := |row|;
      if i == 0 {
        nNodes := j;
      }
      NextRow(all, matrix, lines, row, nNodes);
      if j != nNodes {
        JudgeFrom(all, i);
        return BadRow(i, j, nNodes);
      }
      matrix := matrix + [row];
      lines := lines[1..];
      i := i + 1;
    }
    assert Rows(lines) == [] && all == matrix;
    JudgeFrom(all, i);
    if i != nNodes {
      return NotSquare(i, nNodes);
    }
    return Matrix(matrix);
  }

  /** `matrix` holds the rows read so far, all of `nNodes` elements, and `lines` are still to come. */
  ghost predicate ReadSoFar(all: BoolMatrix, matrix: BoolMatrix, lines: seq<string>, nNodes: nat) {
    && all == matrix + Rows(lines)
    && nNodes == Columns(matrix)
    && |matrix| <= |all|
    && forall k :: 0 <= k < |matrix| ==> |all[k]| == Columns(all)
  }

  lemma NextRow(all: BoolMatrix, matrix: BoolMatrix, lines: seq<string>, row: seq<bool>, n: nat)
    requires |matrix| <= |all| && all == matrix + Rows(lines)
    requires forall k :: 0 <= k < |matrix| ==> |all[k]| == Columns(all)
    requires lines != [] && lines[0] != [] && row == ParseRow(lines[0])
    requires n == if matrix == [] then |row| else Columns(matrix)
    ensures |matrix| < |all| && all[|matrix|] == row && n == Columns(all)
    ensures |row| == n ==> ReadSoFar(all, matrix + [row], lines[1..], n)
  {
    ConcatAssociative(matrix, [row], Rows(lines[1..]));
    ColumnsOfPrefix(all, matrix, row, Rows(lines[1..]));
  }

  lemma ColumnsOfPrefix(all: BoolMatrix, matrix: BoolMatrix, row: seq<bool>, rest: BoolMatrix)
    requires all == matrix + [row] + rest
    ensures |matrix| < |all| && all[|matrix|] == row
    ensures Columns(all) == (if matrix == [] then |row| else Columns(matrix)) == Columns(matrix + [row])
  {
  }

  lemma {:induction false} JudgeFrom(rows: BoolMatrix, i: nat)
    requires i <= |rows| && forall k :: 0 <= k < i ==> |rows[k]| == Columns(rows)
    ensures Judge(rows, 0) == Judge(rows, i)
  {
    if i == 0 {
    } else {
      JudgeFrom(rows, i - 1);
    }
  }

  method PrintMatrix(description: string, matrix: BoolMatrix) returns (out: string)
    ensures out == "**** Start " + description + "********\n" + PrintRows(matrix)
                + "**** End " + description + "********\n"
  {
    var start := "**** Start " + description + "********\n";
    out := start;
    for m := 0 to |matrix|
      invariant out == start + PrintRows(matrix[..m])
    {
      ghost var before := out;
      for n := 0 to |matrix[m]|
        invariant out == before + PrintRow(matrix[m][..n])
      {
        out := out + [Bit(matrix[m][n]), ' '];
        assert matrix[m][..n + 1][..n] == matrix[m][..n];
      }
      assert matrix[m][..|matrix[m]|] == matrix[m];
      out := out + "\n";
      assert matrix[..m + 1][..m] == matrix[..m];
      ConcatAssociative(before, PrintRow(matrix[m]), "\n");
      ConcatAssociative(start, PrintRows(matrix[..m]), PrintLine(matrix[m]));
    }
    assert matrix[..|matrix|] == matrix;
    out := out + "**** End " + description + "********\n";
  }
}
