/** Which texts the adjacency-matrix reader accepts, and what the printer writes, said in characters. */
module MatrixText {
  import opened Common
  import opened AdjacencyMatrix

  // ---------------------------------------------------------------------------------------------
  // One element

  /** The whitespace of the stream operators in the C locale. */
  const BLANKS: string := [' ', '\t', '\n', '\U{000B}', '\U{000C}', '\r']
  const DIGITS := "0123456789"

  predicate BlankRun(s: string) {
    forall i :: 0 <= i < |s| ==> s[i] in BLANKS
  }

  /** Zeros, the last of them a one for `true`. */
  predicate ElementText(digits: string, b: bool) {
    && digits != "" && digits[|digits| - 1] == (if b then '1' else '0')
    && forall i :: 0 <= i < |digits| - 1 ==> digits[i] == '0'
  }

  predicate NoDigitFirst(s: string) {
    s == "" || s[0] !in DIGITS
  }

  /** Blanks, an optional sign, and an element that `rest` does not continue; minus one is none. */
  predicate Spelled(s: string, space: string, sign: string, digits: string, b: bool, rest: string) {
    && s == space + (sign + (digits + rest)) && BlankRun(space)
    && (sign == "" || sign == "+" || (sign == "-" && !b))
    && ElementText(digits, b) && NoDigitFirst(rest)
  }

  lemma BlankIff(ch: char)
    ensures IsSpace(ch) <==> ch in BLANKS
  {
  }

  lemma DigitIff(ch: char)
    ensures IsDigit(ch) <==> ch in DIGITS
  {
    if IsDigit(ch) {
      assert DIGITS[ch as int - '0' as int] == ch;
    }
  }

  lemma {:induction false} ZeroIff(digits: string)
    requires forall i :: 0 <= i < |digits| ==> IsDigit(digits[i])
    ensures NumberOf(digits) == 0 <==> forall i :: 0 <= i < |digits| ==> digits[i] == '0'
  {
    if digits == [] {
    } else {
      var n := |digits| - 1;
      NumberSign(digits[..n]);
      ZeroIff(digits[..n]);
      assert forall i :: 0 <= i < n ==> digits[..n][i] == digits[i];
    }
  }

  lemma NumeralIff(digits: string, rest: string, b: bool)
    ensures Numeral(digits, rest, b) <==> ElementText(digits, b) && NoDigitFirst(rest)
  {
    if rest != "" {
      DigitIff(rest[0]);
    }
    if digits != "" {
      var n := |digits| - 1;
      assert digits == digits[..n] + [digits[n]];
      if forall i :: 0 <= i < |digits| ==> IsDigit(digits[i]) {
        NumberSign(digits[..n]);
        ZeroIff(digits[..n]);
        assert forall i :: 0 <= i < n ==> digits[..n][i] == digits[i];
      } else {
        assert !Numeral(digits, rest, b);
      }
    }
  }

  lemma {:induction false} SkipBlanks(space: string, s: string)
    requires BlankRun(space) && (s == "" || s[0] !in BLANKS)
    ensures SkipSpace(space + s) == s
  {
    if space == "" {
      assert space + s == s;
      if s != "" {
        BlankIff(s[0]);
      }
    } else {
      BlankIff(space[0]);
      assert (space + s)[1..] == space[1..] + s;
      SkipBlanks(space[1..], s);
    }
  }

  lemma {:induction false} CountDigits(digits: string, rest: string)
    requires forall i :: 0 <= i < |digits| ==> IsDigit(digits[i])
    requires rest == "" || !IsDigit(rest[0])
    ensures DigitCount(digits + rest) == |digits|
  {
    if digits == "" {
      assert digits + rest == rest;
    } else {
      assert (digits + rest)[1..] == digits[1..] + rest;
      CountDigits(digits[1..], rest);
    }
  }

  lemma DigitsExtracted(digits: string, rest: string, b: bool, negative: bool)
    requires Numeral(digits, rest, b) && (negative ==> !b)
    ensures ExtractDigits(digits + rest, negative) == Some((b, rest))
  {
    CountDigits(digits, rest);
    assert (digits + rest)[..|digits|] == digits && (digits + rest)[|digits|..] == rest;
  }

  /** Every spelling of an element is extracted, with its value and what follows it. */
  lemma ExtractSpelled(s: string, space: string, sign: string, digits: string, b: bool, rest: string)
    requires Spelled(s, space, sign, digits, b, rest)
    ensures Extract(s) == Some((b, rest))
  {
    var signed := sign + (digits + rest);
    NumeralIff(digits, rest, b);
    assert (digits + rest)[0] == digits[0] && IsDigit(digits[0]);
    if sign == "" {
      assert signed == digits + rest;
      DigitsExtracted(digits, rest, b, false);
    } else {
      assert signed[0] == sign[0] && signed[1..] == digits + rest;
      DigitsExtracted(digits, rest, b, sign == "-");
    }
    BlankIff(signed[0]);
    SkipBlanks(space, signed);
  }

  /** An element is extracted if and only if the text begins with a spelling of it. */
  lemma ExtractIff(s: string, b: bool, rest: string)
    ensures Extract(s) == Some((b, rest)) <==> exists space, sign, digits :: Spelled(s, space, sign, digits, b, rest)
  {
    if Extract(s) == Some((b, rest)) {
      var space, sign, digits := ExtractConsumes(s);
      NumeralIff(digits, rest, b);
      forall i | 0 <= i < |space| ensures space[i] in BLANKS {
        BlankIff(space[i]);
      }
      assert Spelled(s, space, sign, digits, b, rest);
    }
    if space, sign, digits :| Spelled(s, space, sign, digits, b, rest) {
      ExtractSpelled(s, space, sign, digits, b, rest);
    }
  }

  // ---------------------------------------------------------------------------------------------
  // One row

  function BitText(b: bool): string {
    if b then "1" else "0"
  }

  /** The elements, each behind its separator. */
  function Spell(row: seq<bool>, separators: seq<string>): string
    requires |separators| == |row|
  {
    if row == [] then "" else separators[0] + (BitText(row[0]) + Spell(row[1..], separators[1..]))
  }

  /** Any runs of blanks; only the one before the first element may be empty. */
  predicate Separating(separators: seq<string>) {
    forall i :: 0 <= i < |separators| ==> BlankRun(separators[i]) && (i > 0 ==> separators[i] != "")
  }

  lemma SpellConcat(row: seq<bool>, separators: seq<string>, rest: string)
    requires |separators| == |row| > 0
    ensures Spell(row, separators) + rest
         == separators[0] + ("" + (BitText(row[0]) + (Spell(row[1..], separators[1..]) + rest)))
  {
  }

  lemma BlankIsNoDigit(s: string)
    requires BlankRun(s) && s != ""
    ensures NoDigitFirst(s)
  {
  }

  /** A row is read up to the first text that is no element, whatever blanks separate its elements. */
  lemma {:induction false} ParseSpelled(row: seq<bool>, separators: seq<string>, rest: string)
    requires |separators| == |row| && Separating(separators)
    requires Extract(rest) == None && (row != [] ==> NoDigitFirst(rest))
    ensures ParseRow(Spell(row, separators) + rest) == row
    decreases |row|
  {
    if row == [] {
      assert Spell(row, separators) + rest == rest;
    } else {
      var more := Spell(row[1..], separators[1..]) + rest;
      SpellConcat(row, separators, rest);
      if row[1..] == [] {
        assert more == rest;
      } else {
        SpellConcat(row[1..], separators[1..], rest);
        assert separators[1..][0] == separators[1];
        BlankIsNoDigit(separators[1]);
      }
      ExtractSpelled(Spell(row, separators) + rest, separators[0], "", BitText(row[0]), row[0], more);
      ParseSpelled(row[1..], separators[1..], rest);
      assert row == [row[0]] + row[1..];
    }
  }

  lemma {:induction false} BlanksEnd(s: string)
    requires BlankRun(s)
    ensures Extract(s) == None && NoDigitFirst(s)
  {
    SkipBlanks(s, "");
    assert s + "" == s;
    if s != "" {
      BlankIsNoDigit(s);
    }
  }

  /** The row with any blanks around and between its elements. */
  ghost predicate SpellsRow(line: string, row: seq<bool>) {
    exists separators, rest :: |separators| == |row| && Separating(separators) && BlankRun(rest)
      && line == Spell(row, separators) + rest
  }

  lemma SpelledRowParses(line: string, row: seq<bool>)
    requires SpellsRow(line, row)
    ensures ParseRow(line) == row
  {
    var separators, rest :| |separators| == |row| && Separating(separators) && BlankRun(rest)
      && line == Spell(row, separators) + rest;
    BlanksEnd(rest);
    ParseSpelled(row, separators, rest);
  }

  // ---------------------------------------------------------------------------------------------
  // A file

  function Text(lines: seq<string>): string {
    if lines == [] then "" else lines[0] + "\n" + Text(lines[1..])
  }

  function ParseAll(lines: seq<string>): BoolMatrix {
    seq(|lines|, i requires 0 <= i < |lines| => ParseRow(lines[i]))
  }

  predicate ProperLines(lines: seq<string>) {
    forall i :: 0 <= i < |lines| ==> lines[i] != "" && '\n' !in lines[i]
  }

  /** The rows of a file are those of its lines up to the first empty one, or up to the end. */
  lemma {:induction false} RowsOfText(lines: seq<string>, rest: string)
    requires ProperLines(lines)
    ensures Rows(Split(Text(lines) + rest)) == ParseAll(lines) + Rows(Split(rest))
  {
    if lines == [] {
      assert Text(lines) + rest == rest && ParseAll(lines) == [];
    } else {
      assert Text(lines) + rest == lines[0] + "\n" + (Text(lines[1..]) + rest);
      SplitFirst(lines[0], Text(lines[1..]) + rest);
      RowsOfText(lines[1..], rest);
      assert ParseAll(lines) == [ParseRow(lines[0])] + ParseAll(lines[1..]);
      ConcatAssociative([ParseRow(lines[0])], ParseAll(lines[1..]), Rows(Split(rest)));
    }
  }

  lemma RowsOfRest(rest: string)
    ensures rest == "" || rest[0] == '\n' ==> Rows(Split(rest)) == []
    ensures rest != "" && '\n' !in rest ==> Rows(Split(rest)) == [ParseRow(rest)]
  {
    if rest != "" && '\n' !in rest {
      SplitWhole(rest);
    }
  }

  /** A file of spelled rows is accepted if and only if these form a square matrix, which is returned;
      after an empty line anything may follow. */
  lemma ReadSpelled(m: BoolMatrix, lines: seq<string>, rest: string)
    requires |lines| == |m| && ProperLines(lines) && forall i :: 0 <= i < |m| ==> SpellsRow(lines[i], m[i])
    requires rest == "" || rest[0] == '\n'
    ensures Read(Text(lines) + rest) == Matrix(m) <==> Square(m)
  {
    forall i | 0 <= i < |m| ensures ParseRow(lines[i]) == m[i] {
      SpelledRowParses(lines[i], m[i]);
    }
    RowsOfText(lines, rest);
    RowsOfRest(rest);
    assert ParseAll(lines) + [] == m;
    ReadExact(Text(lines) + rest);
  }

  /** The same when no newline ends the last row. */
  lemma ReadSpelledToEnd(m: BoolMatrix, lines: seq<string>)
    requires |lines| == |m| > 0 && ProperLines(lines) && forall i :: 0 <= i < |m| ==> SpellsRow(lines[i], m[i])
    ensures Read(Text(lines[..|m| - 1]) + lines[|m| - 1]) == Matrix(m) <==> Square(m)
  {
    var n := |m| - 1;
    forall i | 0 <= i < |m| ensures ParseRow(lines[i]) == m[i] {
      SpelledRowParses(lines[i], m[i]);
    }
    RowsOfText(lines[..n], lines[n]);
    RowsOfRest(lines[n]);
    assert ParseAll(lines[..n]) + [ParseRow(lines[n])] == m;
    ReadExact(Text(lines[..n]) + lines[n]);
  }

  // ---------------------------------------------------------------------------------------------
  // What is rejected, and with which numbers

  /** The length every row must have: that of the first. */
  function Width(rows: BoolMatrix): nat {
    if rows == [] then 0 else |rows[0]|
  }

  /** A file is rejected for its first row of another length than row 0, or else for having another number
      of rows than columns. */
  lemma {:induction false} RejectedFor(rows: BoolMatrix, i: nat)
    requires i <= |rows| && forall k :: 0 <= k < i ==> |rows[k]| == Width(rows)
    ensures Judge(rows, i).BadRow? ==>
      var BadRow(row, elements, expected) := Judge(rows, i);
      && row < |rows| && elements == |rows[row]| != expected == Width(rows)
      && forall k :: 0 <= k < row ==> |rows[k]| == Width(rows)
    ensures Judge(rows, i).NotSquare? ==>
      && Judge(rows, i) == NotSquare(|rows|, Width(rows)) && |rows| != Width(rows)
      && forall k :: 0 <= k < |rows| ==> |rows[k]| == Width(rows)
    ensures Judge(rows, i) != FileNotFound
    decreases |rows| - i
  {
    if i == |rows| {
    } else if |rows[i]| == Width(rows) {
      RejectedFor(rows, i + 1);
    }
  }

  // ---------------------------------------------------------------------------------------------
  // What is printed

  /** A printed row alternates its digits with single blanks. */
  lemma {:induction false} PrintRowText(row: seq<bool>)
    ensures |PrintRow(row)| == 2 * |row|
    ensures forall k :: 0 <= k < |row| ==>
      PrintRow(row)[2 * k] == (if row[k] then '1' else '0') && PrintRow(row)[2 * k + 1] == ' '
  {
    if row == [] {
    } else {
      var n := |row| - 1;
      PrintRowText(row[..n]);
      forall k | 0 <= k < n
        ensures PrintRow(row)[2 * k] == (if row[k] then '1' else '0') && PrintRow(row)[2 * k + 1] == ' '
      {
        assert row[..n][k] == row[k];
      }
    }
  }

  /** Rows are printed one per line, in order. */
  lemma PrintRowsText(m: BoolMatrix, row: seq<bool>)
    ensures PrintRows([]) == "" && PrintRows(m + [row]) == PrintRows(m) + PrintRow(row) + "\n"
  {
    DropLast(m, row);
    ConcatAssociative(PrintRows(m), PrintRow(row), "\n");
  }
}
