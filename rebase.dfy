/**
 * updateFormula: the text of a formula copied by (deltaRow, deltaCol). Every run of letters
 * is taken for a column and the digits after it (past an optional `$`) for a row; a column
 * not anchored by a `$` before it moves by deltaCol, a row not anchored by a `$` before it
 * moves by deltaRow, and both are written back in canonical form. Every other character is
 * copied. A formula holding a double quote is returned as it is.
 */
module Rebase {
  import opened Strings
  import opened Address
  import Cells

  /** The letters of a column index; an index of 0 or below has none. */
  function NewColumn(c: int): (s: string)
    ensures AllAlpha(s)
    ensures c <= 0 <==> s == []
  {
    if c > 0 then ColumnLetters(c) else ""
  }

  function Shift(anchored: bool, delta: int): int {
    if anchored then 0 else delta
  }

  /**
   * What one token becomes: the column letters moved by deltaCol unless anchored, a `$` if
   * the row is anchored, and the row (read with std::stoi) moved by deltaRow unless
   * anchored. The `$` anchoring the column stays where it is, outside the token. std::stoi
   * throws on a token without digits and on a row too large for an int.
   */
  function RebaseToken(letters: string, absCol: bool, absRow: bool, row: StoiResult, deltaRow: int, deltaCol: int): (r: Result<string>)
    requires AllAlpha(letters)
  {
    match row
    case NoConversion => Err(InvalidArgument)
    case OutOfIntRange => Err(OutOfRange)
    case Parsed(v, _) => Ok(NewColumn(MovedColumn(letters, absCol, deltaCol)) + Dollar(absRow) + IntToString(MovedRow(v, absRow, deltaRow)))
  }

  /** The column index of the letters, moved by deltaCol unless anchored. */
  function MovedColumn(letters: string, absCol: bool, deltaCol: int): int
    requires AllAlpha(letters)
  {
    ColumnValue(letters) + Shift(absCol, deltaCol)
  }

  /** The row v, moved by deltaRow unless anchored. */
  function MovedRow(v: int, absRow: bool, deltaRow: int): int {
    v + Shift(absRow, deltaRow)
  }

  /** s in front of a result, an exception passing through. */
  function Prepend(s: string, r: Result<string>): Result<string> {
    match r
    case Ok(t) => Ok(s + t)
    case Err(e) => Err(e)
  }

  /** Where the token starting at the letter f[i] ends: letters, an optional `$`, digits. */
  datatype Token = Token(lettersEnd: nat, rowStart: nat, rowEnd: nat)

  function TokenFrom(f: string, i: nat): (t: Token)
    requires i < |f|
    ensures i <= t.lettersEnd <= t.rowStart <= t.rowEnd <= |f|
    ensures IsAlpha(f[i]) ==> i < t.lettersEnd
  {
    var k := AlphaEnd(f, i);
    var k2 := if k < |f| && f[k] == '$' then k + 1 else k;
    Token(k, k2, DigitEnd(f, k2))
  }

  /** std::stoi on the digits of a token's row, which are nothing but decimal digits. */
  function RowNumber(digits: string): (r: StoiResult)
    requires AllDigits(digits)
  {
    if digits == [] then NoConversion
    else if DigitsValue(digits) > IntMax then OutOfIntRange
    else Parsed(DigitsValue(digits), |digits|)
  }

  /** The replacement of the token that starts at the letter f[i]. */
  function TokenText(f: string, i: nat, deltaRow: int, deltaCol: int): Result<string>
    requires i < |f| && IsAlpha(f[i])
  {
    var t := TokenFrom(f, i);
    AlphaEndRun(f, i);
    DigitEndRun(f, t.rowStart);
    RebaseToken(f[i..t.lettersEnd], i > 0 && f[i - 1] == '$', t.rowStart > t.lettersEnd, RowNumber(f[t.rowStart..t.rowEnd]), deltaRow, deltaCol)
  }

  /**
   * One round of updateFormula's loop at position i: the text it appends (the token's
   * replacement at a letter, the character itself otherwise) and where the next round
   * starts; Err when std::stoi throws.
   */
  function Round(f: string, i: nat, deltaRow: int, deltaCol: int): (r: Result<(string, nat)>)
    requires i < |f|
    ensures r.Ok? ==> i < r.value.1 <= |f|
  {
    if IsAlpha(f[i]) then
      match TokenText(f, i, deltaRow, deltaCol)
      case Err(e) => Err(e)
      case Ok(piece) => Ok((piece, TokenFrom(f, i).rowEnd))
    else Ok(([f[i]], i + 1))
  }

  /** The rebased text of f from position i on. */
  function RebaseFrom(f: string, i: nat, deltaRow: int, deltaCol: int): Result<string>
    requires i <= |f|
    decreases |f| - i
  {
    if i == |f| then Ok("")
    else
      match Round(f, i, deltaRow, deltaCol)
      case Err(e) => Err(e)
      case Ok((piece, next)) => Prepend(piece, RebaseFrom(f, next, deltaRow, deltaCol))
  }

  /** updateFormula(formula, deltaRow, deltaCol); Err when std::stoi throws. */
  function Rebased(formula: string, deltaRow: int, deltaCol: int): Result<string> {
    if '"' in formula then Ok(formula) else RebaseFrom(formula, 0, deltaRow, deltaCol)
  }

  // ---------------------------------------------------------------- the loops

  lemma PrependNothing(r: Result<string>)
    ensures Prepend("", r) == r
  {
    if r.Ok? {
      assert "" + r.value == r.value;
    }
  }

  lemma RebaseEnd(f: string, deltaRow: int, deltaCol: int, result: string)
    ensures Prepend(result, RebaseFrom(f, |f|, deltaRow, deltaCol)) == Ok(result)
  {
    assert result + "" == result;
  }

  lemma PrependTwice(a: string, b: string, r: Result<string>)
    ensures Prepend(a, Prepend(b, r)) == Prepend(a + b, r)
  {
    if r.Ok? {
      assert a + (b + r.value) == a + b + r.value;
    }
  }

  lemma PopPush(s: string, piece: string)
    requires |s| > 0 && s[|s| - 1] == '$'
    ensures s[..|s| - 1] + ("$" + piece) == s + piece
  {
    assert s == s[..|s| - 1] + "$";
  }

  /** A round that does not throw appends its text to what the loop has written. */
  lemma RoundStep(f: string, i: nat, deltaRow: int, deltaCol: int, result: string)
    requires i < |f| && Round(f, i, deltaRow, deltaCol).Ok?
    ensures var (piece, next) := Round(f, i, deltaRow, deltaCol).value;
            Prepend(result, RebaseFrom(f, i, deltaRow, deltaCol)) == Prepend(result + piece, RebaseFrom(f, next, deltaRow, deltaCol))
  {
    var (piece, next) := Round(f, i, deltaRow, deltaCol).value;
    PrependTwice(result, piece, RebaseFrom(f, next, deltaRow, deltaCol));
  }

  /** updateFormula, as the loop it is: a `$` before letters is popped and written back. */
  method UpdateFormula(formula: string, deltaRow: int, deltaCol: int) returns (r: Result<string>)
    ensures r == Rebased(formula, deltaRow, deltaCol)
  {
    if '"' in formula {
      return Ok(formula);
    }
    var result := "";
    var i := 0;
    var len := |formula|;
    PrependNothing(RebaseFrom(formula, 0, deltaRow, deltaCol));
    while i < len
      invariant 0 <= i <= len
      invariant RebaseFrom(formula, 0, deltaRow, deltaCol) == Prepend(result, RebaseFrom(formula, i, deltaRow, deltaCol))
      invariant i > 0 && formula[i - 1] == '$' ==> |result| > 0 && result[|result| - 1] == '$'
      decreases len - i
    {
      var out := Advance(formula, i, deltaRow, deltaCol, result);
      if out.Threw? {
        return Err(out.error);
      }
      RoundStep(formula, i, deltaRow, deltaCol, result);
      result, i := out.written, out.next;
    }
    RebaseEnd(formula, deltaRow, deltaCol, result);
    r := Ok(result);
  }

  /** How a round of updateFormula's loop ends: the text written so far and where the next round starts, or what std::stoi threw. */
  datatype Outcome = Next(written: string, next: nat) | Threw(error: Thrown)

  /** One round of updateFormula's loop: a token rewritten, or one character copied. */
  method Advance(formula: string, i: nat, deltaRow: int, deltaCol: int, result: string) returns (out: Outcome)
    requires i < |formula|
    requires i > 0 && formula[i - 1] == '$' ==> |result| > 0 && result[|result| - 1] == '$'
    ensures out.Threw? ==> Round(formula, i, deltaRow, deltaCol) == Err(out.error)
    ensures out.Next? ==> Round(formula, i, deltaRow, deltaCol).Ok?
    ensures out.Next? ==> out.next == Round(formula, i, deltaRow, deltaCol).value.1 && out.written == result + Round(formula, i, deltaRow, deltaCol).value.0
    ensures out.Next? && formula[out.next - 1] == '$' ==> |out.written| > 0 && out.written[|out.written| - 1] == '$'
  {
    if IsAlpha(formula[i]) {
      var piece, result', next := WriteToken(formula, i, deltaRow, deltaCol, result);
      if piece.Err? {
        return Threw(piece.error);
      }
      out := Next(result', next);
    } else {
      var result' := CopyChar(formula, i, result);
      out := Next(result', i + 1);
    }
  }

  /** The other branch of updateFormula's loop: the character is copied. */
  method CopyChar(formula: string, i: nat, result: string) returns (result': string)
    requires i < |formula|
    ensures result' == result + [formula[i]]
    ensures |result'| > 0 && result'[|result'| - 1] == formula[i]
  {
    result' := result + [formula[i]];
  }

  /** The token branch of updateFormula's loop: pop the `$` of an anchored column, write it back with the token. */
  method WriteToken(formula: string, i: nat, deltaRow: int, deltaCol: int, result: string)
    returns (piece: Result<string>, result': string, next: nat)
    requires i < |formula| && IsAlpha(formula[i])
    requires i > 0 && formula[i - 1] == '$' ==> |result| > 0 && result[|result| - 1] == '$'
    ensures piece == TokenText(formula, i, deltaRow, deltaCol)
    ensures piece.Ok? ==> next == TokenFrom(formula, i).rowEnd && formula[next - 1] != '$'
    ensures piece.Ok? ==> result' == result + piece.value
  {
    var absCol := i > 0 && formula[i - 1] == '$';
    result' := result;
    if absCol {
      result' := result'[..|result'| - 1];
    }
    piece, next := TokenAt(formula, i, deltaRow, deltaCol);
    if piece.Err? {
      return;
    }
    result' := result' + ((if absCol then "$" else "") + piece.value);
    if absCol {
      PopPush(result, piece.value);
    } else {
      assert "" + piece.value == piece.value;
    }
  }

  /**
   * One token of updateFormula's loop: the letters, a `$`, the digits, the column and row
   * indices moved unless anchored, and the text written for them (after the `$` of an
   * anchored column). Ends after the digits.
   */
  method TokenAt(formula: string, start: nat, deltaRow: int, deltaCol: int) returns (piece: Result<string>, i: nat)
    requires start < |formula| && IsAlpha(formula[start])
    ensures piece == TokenText(formula, start, deltaRow, deltaCol)
    ensures i == TokenFrom(formula, start).rowEnd
    ensures piece.Ok? ==> start < i && IsDigit(formula[i - 1])
  {
    ghost var t := TokenFrom(formula, start);
    var absCol := start > 0 && formula[start - 1] == '$';
    var colPart, absRow, rowPart;
    colPart, absRow, rowPart, i := ScanToken(formula, start);
    AlphaEndRun(formula, start);
    DigitEndRun(formula, t.rowStart);
    var parsed := Stoi(rowPart);
    RowNumberIsStoi(rowPart);
    piece := RewriteToken(colPart, absCol, absRow, parsed, deltaRow, deltaCol);
    assert piece == TokenText(formula, start, deltaRow, deltaCol);
    if piece.Ok? {
      assert |rowPart| == i - t.rowStart;
      assert t.rowStart < i == DigitEnd(formula, t.rowStart);
      DigitEndAll(formula, t.rowStart);
    }
  }

  /** std::stoi reads a run of digits as RowNumber does. */
  lemma RowNumberIsStoi(digits: string)
    requires AllDigits(digits)
    ensures Stoi(digits) == RowNumber(digits)
  {
    if digits != [] {
      StoiAllDigits(digits);
      DigitRunAll(digits);
      assert digits[..|digits|] == digits;
    } else {
      assert Stoi([]) == NoConversion;
    }
  }

  /** The parts of the token at the letter f[start]: its letters, whether a `$` follows them, its digits, and where it ends. */
  method ScanToken(formula: string, start: nat) returns (colPart: string, absRow: bool, rowPart: string, i: nat)
    requires start < |formula|
    ensures colPart == formula[start..TokenFrom(formula, start).lettersEnd]
    ensures absRow == (TokenFrom(formula, start).rowStart > TokenFrom(formula, start).lettersEnd)
    ensures rowPart == formula[TokenFrom(formula, start).rowStart..TokenFrom(formula, start).rowEnd]
    ensures i == TokenFrom(formula, start).rowEnd
  {
    absRow := false;
    colPart, i := ReadLetters(formula, start);
    if i < |formula| && formula[i] == '$' {
      absRow := true;
      i := i + 1;
    }
    rowPart, i := Cells.ReadDigits(formula, i);
  }

  /** The text written for a token's parts, given what std::stoi made of its row. */
  method RewriteToken(colPart: string, absCol: bool, absRow: bool, parsed: StoiResult, deltaRow: int, deltaCol: int) returns (piece: Result<string>)
    requires AllAlpha(colPart)
    ensures piece == RebaseToken(colPart, absCol, absRow, parsed, deltaRow, deltaCol)
    ensures piece.Ok? <==> parsed.Parsed?
  {
    var newColPart := MoveColumn(colPart, absCol, deltaCol);
    match parsed
    case NoConversion =>
      piece := Err(InvalidArgument);
    case OutOfIntRange =>
      piece := Err(OutOfRange);
    case Parsed(v, _) =>
      var rowIndex := MoveRow(v, absRow, deltaRow);
      piece := Ok(newColPart + Dollar(absRow) + IntToString(rowIndex));
  }

  /** The row index, moved unless anchored. */
  method MoveRow(v: int, absRow: bool, deltaRow: int) returns (rowIndex: int)
    ensures rowIndex == MovedRow(v, absRow, deltaRow)
  {
    rowIndex := v;
    if !absRow {
      rowIndex := rowIndex + deltaRow;
    }
  }

  /** The column index of the letters, moved unless anchored, written back as letters. */
  method MoveColumn(colPart: string, absCol: bool, deltaCol: int) returns (newColPart: string)
    requires AllAlpha(colPart)
    ensures newColPart == NewColumn(MovedColumn(colPart, absCol, deltaCol))
  {
    var colIndex := ColumnIndex(colPart);
    if !absCol {
      colIndex := colIndex + deltaCol;
    }
    newColPart := ColumnText(colIndex);
  }

  /** The letter loop: the letters from start on, as written. */
  method ReadLetters(formula: string, start: nat) returns (colPart: string, i: nat)
    requires start <= |formula|
    ensures i == AlphaEnd(formula, start)
    ensures colPart == formula[start..i]
  {
    i := start;
    colPart := "";
    while i < |formula| && IsAlpha(formula[i])
      invariant start <= i <= |formula|
      invariant AlphaEnd(formula, i) == AlphaEnd(formula, start)
      invariant colPart == formula[start..i]
    {
      assert formula[start..i + 1] == formula[start..i] + [formula[i]];
      colPart := colPart + [formula[i]];
      i := i + 1;
    }
  }

  /** The column index of the letters, most significant first, case ignored. */
  method ColumnIndex(colPart: string) returns (colIndex: int)
    requires AllAlpha(colPart)
    ensures colIndex == ColumnValue(colPart)
  {
    colIndex := 0;
    var j := 0;
    while j < |colPart|
      invariant 0 <= j <= |colPart|
      invariant colIndex == ColumnValue(colPart[..j])
    {
      assert colPart[..j + 1][..j] == colPart[..j];
      colIndex := colIndex * 26 + LetterValue(colPart[j]);
      j := j + 1;
    }
    assert colPart[..|colPart|] == colPart;
  }

  /** The letters of a column index, least significant first, pushed to the front. */
  method ColumnText(colIndex: int) returns (newColPart: string)
    ensures newColPart == NewColumn(colIndex)
  {
    newColPart := "";
    if colIndex <= 0 {
      return;
    }
    var c: nat := colIndex;
    while c > 0
      invariant ColumnLetters(c) + newColPart == ColumnLetters(colIndex)
    {
      c := c - 1;
      assert ColumnLetters(c + 1) == ColumnLetters(c / 26) + [LetterOf(c % 26)];
      newColPart := [LetterOf(c % 26)] + newColPart;
      c := c / 26;
    }
  }

  // ---------------------------------------------------------------- properties

  /** Text without letters is copied as it is. */
  lemma {:induction false} LetterFreeCopied(f: string, i: nat, deltaRow: int, deltaCol: int)
    requires i <= |f|
    requires forall k :: i <= k < |f| ==> !IsAlpha(f[k])
    ensures RebaseFrom(f, i, deltaRow, deltaCol) == Ok(f[i..])
    decreases |f| - i
  {
    if i < |f| {
      LetterFreeCopied(f, i + 1, deltaRow, deltaCol);
      assert [f[i]] + f[i + 1..] == f[i..];
    }
  }

  /**
   * A token moves: its column by deltaCol unless anchored, its row by deltaRow unless
   * anchored, written back in canonical form with the row's `$` kept; after the column's `$`
   * it reads back as the moved address with the same anchors (while the new column is not 0
   * and the new row is one std::stoi can hold).
   */
  lemma TokenMoves(letters: string, absCol: bool, absRow: bool, v: int, used: nat, deltaRow: int, deltaCol: int)
    requires AllAlpha(letters)
    requires MovedColumn(letters, absCol, deltaCol) >= 1
    requires 0 <= MovedRow(v, absRow, deltaRow) <= IntMax
    ensures RebaseToken(letters, absCol, absRow, Parsed(v, used), deltaRow, deltaCol)
         == Ok(ColumnLetters(MovedColumn(letters, absCol, deltaCol)) + Dollar(absRow) + NatToString(MovedRow(v, absRow, deltaRow)))
    ensures var text := Dollar(absCol) + ColumnLetters(MovedColumn(letters, absCol, deltaCol)) + Dollar(absRow) + NatToString(MovedRow(v, absRow, deltaRow));
            Decode(text) == Ok(Pos(MovedRow(v, absRow, deltaRow), MovedColumn(letters, absCol, deltaCol), !absRow, !absCol, text))
  {
    MovedTokenReads(MovedRow(v, absRow, deltaRow), MovedColumn(letters, absCol, deltaCol), absCol, absRow);
  }

  /**
   * What a moved token writes, after the column's `$` if any, reads back as the moved
   * address with the same anchors, for every column >= 1 and every row std::stoi can hold.
   */
  lemma MovedTokenReads(r: nat, c: nat, absCol: bool, absRow: bool)
    requires c >= 1 && r <= IntMax
    ensures var text := Dollar(absCol) + ColumnLetters(c) + Dollar(absRow) + NatToString(r);
            Decode(text) == Ok(Pos(r, c, !absRow, !absCol, text))
  {
    var digits := NatToString(r);
    assert IsDigit(digits[0]);
    StoiNatToString(r);
    ColumnValueOfLetters(c);
    DecodeParts(absCol, ColumnLetters(c), absRow, digits, r);
  }

  /** A canonical token (upper-case letters, decimal row) that nothing moves comes out as it went in. */
  lemma CanonicalTokenKept(letters: string, absCol: bool, absRow: bool, n: nat, deltaRow: int, deltaCol: int)
    requires letters != [] && AllAlpha(letters) && Upper(letters) == letters && n <= IntMax
    requires absCol || deltaCol == 0
    requires absRow || deltaRow == 0
    ensures RebaseToken(letters, absCol, absRow, Stoi(NatToString(n)), deltaRow, deltaCol) == Ok(letters + Dollar(absRow) + NatToString(n))
  {
    StoiNatToString(n);
    ColumnValuePositive(letters);
    assert MovedColumn(letters, absCol, deltaCol) == ColumnValue(letters);
    assert MovedRow(n, absRow, deltaRow) == n;
    TokenMoves(letters, absCol, absRow, n, |NatToString(n)|, deltaRow, deltaCol);
    ColumnLettersOfValue(letters);
  }

  /**
   * Copying there and back: a canonical token moved by (deltaRow, deltaCol) and the result
   * moved by (-deltaRow, -deltaCol) is the token again, as long as the moved column is not 0
   * and the moved row is neither negative nor too large for an int.
   */
  lemma ShiftBack(letters: string, absCol: bool, absRow: bool, n: nat, deltaRow: int, deltaCol: int)
    requires letters != [] && AllAlpha(letters) && Upper(letters) == letters && n <= IntMax
    requires MovedColumn(letters, absCol, deltaCol) >= 1
    requires 0 <= MovedRow(n, absRow, deltaRow) <= IntMax
    ensures var moved := ColumnLetters(MovedColumn(letters, absCol, deltaCol));
            var row := NatToString(MovedRow(n, absRow, deltaRow));
            RebaseToken(letters, absCol, absRow, Stoi(NatToString(n)), deltaRow, deltaCol) == Ok(moved + Dollar(absRow) + row)
            && RebaseToken(moved, absCol, absRow, Stoi(row), -deltaRow, -deltaCol) == Ok(letters + Dollar(absRow) + NatToString(n))
  {
    StoiNatToString(n);
    TokenMoves(letters, absCol, absRow, n, |NatToString(n)|, deltaRow, deltaCol);
    MovedBack(letters, absCol, absRow, n, MovedColumn(letters, absCol, deltaCol), MovedRow(n, absRow, deltaRow), deltaRow, deltaCol);
  }

  lemma MovedBack(letters: string, absCol: bool, absRow: bool, n: nat, c: int, r: int, deltaRow: int, deltaCol: int)
    requires letters != [] && AllAlpha(letters) && Upper(letters) == letters && n <= IntMax
    requires c == MovedColumn(letters, absCol, deltaCol) >= 1
    requires r == MovedRow(n, absRow, deltaRow) && 0 <= r <= IntMax
    ensures RebaseToken(ColumnLetters(c), absCol, absRow, Stoi(NatToString(r)), -deltaRow, -deltaCol) == Ok(letters + Dollar(absRow) + NatToString(n))
  {
    var moved := ColumnLetters(c);
    var back := MovedColumn(moved, absCol, -deltaCol);
    assert back == ColumnValue(letters) by {
      ColumnValueOfLetters(c);
    }
    assert back >= 1 by {
      ColumnValuePositive(letters);
    }
    assert ColumnLetters(back) == letters by {
      ColumnLettersOfValue(letters);
    }
    assert MovedRow(r, absRow, -deltaRow) == n;
    var k := |NatToString(r)|;
    TokenMoves(moved, absCol, absRow, r, k, -deltaRow, -deltaCol);
    StoiNatToString(r);
  }

  /** Text before the next letter is copied in front of whatever follows. */
  lemma {:induction false} LetterFreePrefix(f: string, i: nat, p: nat, deltaRow: int, deltaCol: int)
    requires i <= p <= |f|
    requires forall k :: i <= k < p ==> !IsAlpha(f[k])
    ensures RebaseFrom(f, i, deltaRow, deltaCol) == Prepend(f[i..p], RebaseFrom(f, p, deltaRow, deltaCol))
    decreases p - i
  {
    if i < p {
      LetterFreePrefix(f, i + 1, p, deltaRow, deltaCol);
      PrependTwice([f[i]], f[i + 1..p], RebaseFrom(f, p, deltaRow, deltaCol));
      assert [f[i]] + f[i + 1..p] == f[i..p];
    } else {
      PrependNothing(RebaseFrom(f, p, deltaRow, deltaCol));
    }
  }

  /** A formula with one token: the text around it is copied and the token is rewritten. */
  lemma OneToken(f: string, p: nat, deltaRow: int, deltaCol: int, piece: string)
    requires p < |f| && IsAlpha(f[p])
    requires forall k :: 0 <= k < p ==> !IsAlpha(f[k])
    requires forall k :: TokenFrom(f, p).rowEnd <= k < |f| ==> !IsAlpha(f[k])
    requires TokenText(f, p, deltaRow, deltaCol) == Ok(piece)
    ensures RebaseFrom(f, 0, deltaRow, deltaCol) == Ok(f[..p] + piece + f[TokenFrom(f, p).rowEnd..])
  {
    var e := TokenFrom(f, p).rowEnd;
    LetterFreePrefix(f, 0, p, deltaRow, deltaCol);
    LastToken(f, p, deltaRow, deltaCol, piece);
    PrefixJoin(f, p, piece, f[e..]);
  }

  lemma PrefixJoin(f: string, p: nat, piece: string, tail: string)
    requires p <= |f|
    ensures Prepend(f[0..p], Ok(piece + tail)) == Ok(f[..p] + piece + tail)
  {
    assert f[0..p] == f[..p];
    assert f[..p] + piece + tail == f[..p] + (piece + tail);
  }

  lemma LastToken(f: string, p: nat, deltaRow: int, deltaCol: int, piece: string)
    requires p < |f| && IsAlpha(f[p])
    requires forall k :: TokenFrom(f, p).rowEnd <= k < |f| ==> !IsAlpha(f[k])
    requires TokenText(f, p, deltaRow, deltaCol) == Ok(piece)
    ensures RebaseFrom(f, p, deltaRow, deltaCol) == Ok(piece + f[TokenFrom(f, p).rowEnd..])
  {
    var e := TokenFrom(f, p).rowEnd;
    LetterFreeCopied(f, e, deltaRow, deltaCol);
    RoundStep(f, p, deltaRow, deltaCol, "");
    PrependNothing(RebaseFrom(f, p, deltaRow, deltaCol));
    assert "" + piece == piece;
  }

  // ---------------------------------------------------------------- examples

  /**
   * Copying F10 to G11 moves a formula one row down and one column right: the token D0
   * becomes E1, $D0 becomes $D1 (the `$` stays in front of it), D$0 becomes E$0, and $D$0
   * stays as it is.
   */
  lemma CopyExample(absCol: bool, absRow: bool)
    ensures RebaseToken("D", absCol, absRow, Stoi("0"), 1, 1)
         == Ok((if absCol then "D" else "E") + Dollar(absRow) + (if absRow then "0" else "1"))
  {
    StoiNatToString(0);
    assert ColumnValue("D") == 4;
    TokenMoves("D", absCol, absRow, 0, 1, 1, 1);
    assert ColumnLetters(MovedColumn("D", absCol, 1)) == (if absCol then "D" else "E");
    assert NatToString(MovedRow(0, absRow, 1)) == (if absRow then "0" else "1");
  }

  /** A letter run with no digits after it (a function name, say) makes std::stoi throw. */
  lemma NameWithoutRow(f: string, i: nat, deltaRow: int, deltaCol: int)
    requires i < |f| && IsAlpha(f[i]) && TokenFrom(f, i).rowStart == TokenFrom(f, i).rowEnd
    ensures TokenText(f, i, deltaRow, deltaCol) == Err(InvalidArgument)
    ensures RebaseFrom(f, i, deltaRow, deltaCol) == Err(InvalidArgument)
  {
    var t := TokenFrom(f, i);
    assert f[t.rowStart..t.rowEnd] == [];
    assert Stoi([]) == NoConversion;
  }
}
