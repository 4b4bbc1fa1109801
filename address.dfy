/**
 * CPos: a cell address `[$]letters[$]row`. Columns use bijective base 26 (A = 1, Z = 26,
 * AA = 27); `$` before the letters anchors the column, `$` before the row anchors the row.
 * Row and column are stored as unsigned 32-bit numbers; the map of cells orders addresses
 * row-major and treats two addresses with the same row and column as the same key, whatever
 * their text.
 */
module Address {
  import opened Strings

  /** What the CPos constructor throws. */
  datatype Thrown = InvalidArgument | OutOfRange

  datatype Result<T> = Ok(value: T) | Err(error: Thrown)

  /** The part of a CPos that std::map compares: its row and column. */
  datatype Coord = Coord(row: nat, col: nat)

  /** A parsed address: coordinates, the two relative flags, and the text it was built from. */
  datatype Pos = Pos(row: nat, col: nat, relRow: bool, relCol: bool, code: string) {
    function Key(): Coord { Coord(row, col) }
  }

  const Two32: nat := 0x1_0000_0000

  /** Conversion of an int to unsigned int (arithmetic modulo 2^32). */
  function Wrap32(x: int): (r: nat)
    ensures r < Two32
    ensures 0 <= x < Two32 ==> r == x
    decreases if x < 0 then 1 else 0, if x < 0 then -x else x
  {
    if x < 0 then Wrap32(x + Two32) else if x >= Two32 then Wrap32(x - Two32) else x
  }

  /** Column number of a run of letters, read most significant letter first. */
  function ColumnValue(s: string): nat
    requires AllAlpha(s)
  {
    if s == [] then 0 else ColumnValue(s[..|s| - 1]) * 26 + LetterValue(s[|s| - 1])
  }

  /** Canonical (upper-case) letters of a column number; column 0 has none. */
  function ColumnLetters(c: nat): (s: string)
    ensures AllAlpha(s)
    ensures c > 0 <==> |s| > 0
  {
    if c == 0 then "" else ColumnLetters((c - 1) / 26) + [LetterOf((c - 1) % 26)]
  }

  /** The canonical text of row r, column c: what back_to_code produces. */
  function Code(r: nat, c: nat): string {
    ColumnLetters(c) + NatToString(r)
  }

  /** The lexical parts of an address text: `$`, letters, `$`, and whatever follows. */
  datatype Shape = Shape(absCol: bool, letters: string, absRow: bool, rowText: string)

  function Dollar(b: bool): string { if b then "$" else "" }

  lemma Assoc4(a: string, b: string, c: string, d: string)
    ensures a + (b + (c + d)) == a + b + c + d
  {
  }

  /**
   * How CPos_parser splits its input: an optional `$`, the longest run of letters, then a
   * `$` only if at least one letter came before it, then the rest.
   */
  function Split(str: string): (sh: Shape)
    ensures AllAlpha(sh.letters)
    ensures sh.absRow ==> sh.letters != []
    ensures str == Dollar(sh.absCol) + sh.letters + Dollar(sh.absRow) + sh.rowText
  {
    var absCol := |str| > 0 && str[0] == '$';
    var rest := if absCol then str[1..] else str;
    var n := AlphaRun(rest);
    var letters := rest[..n];
    var after := rest[n..];
    var absRow := n > 0 && |after| > 0 && after[0] == '$';
    var rowText := if absRow then after[1..] else after;
    assert rest == letters + after;
    assert after == Dollar(absRow) + rowText;
    assert str == Dollar(absCol) + rest;
    Assoc4(Dollar(absCol), letters, Dollar(absRow), rowText);
    Shape(absCol, letters, absRow, rowText)
  }

  /**
   * The address grammar as CPos_parser reads it: the row text after the letters must be
   * non-empty and read by std::stoi in full. No letters, or nothing after them, is
   * invalid_argument; std::stoi's own exceptions pass through.
   */
  function Decode(str: string): Result<Pos> {
    var sh := Split(str);
    if sh.letters == [] || sh.rowText == [] then Err(InvalidArgument)
    else
      match Stoi(sh.rowText)
      case NoConversion => Err(InvalidArgument)
      case OutOfIntRange => Err(OutOfRange)
      case Parsed(v, used) =>
        if used != |sh.rowText| then Err(InvalidArgument)
        else Ok(Pos(Wrap32(v), ColumnValue(sh.letters), !sh.absRow, !sh.absCol, str))
  }

  /** CPos(str): the letter loop of CPos_parser, followed by std::stoi on the rest. */
  method Parse(str: string) returns (r: Result<Pos>)
    ensures r == Decode(str)
  {
    var index := 0;
    var absoluteColumn := false;
    if |str| > 0 && str[index] == '$' {
      absoluteColumn := true;
      index := index + 1;
    }
    var column, columnExists, absoluteRow;
    column, index, columnExists, absoluteRow := ReadColumn(str, index);
    if index < |str| && columnExists {
      var rowPart := str[index..];
      match Stoi(rowPart)
      case NoConversion => return Err(InvalidArgument);
      case OutOfIntRange => return Err(OutOfRange);
      case Parsed(row, used) =>
        if used != |rowPart| {
          return Err(InvalidArgument);
        }
        return Ok(Pos(Wrap32(row), column, !absoluteRow, !absoluteColumn, str));
    }
    return Err(InvalidArgument);
  }

  /**
   * The letter loop of CPos_parser, which accumulates the column while letters follow,
   * and the `$` that may come after the letters.
   */
  method ReadColumn(str: string, start: nat) returns (column: nat, index: nat, columnExists: bool, absoluteRow: bool)
    requires start == (if |str| > 0 && str[0] == '$' then 1 else 0)
    ensures index <= |str|
    ensures Split(str).absCol == (start == 1)
    ensures column == ColumnValue(Split(str).letters)
    ensures columnExists <==> Split(str).letters != []
    ensures absoluteRow == Split(str).absRow
    ensures Split(str).rowText == str[index..]
  {
    column := 0;
    index := start;
    columnExists := false;
    absoluteRow := false;
    while index < |str| && IsAlpha(str[index])
      invariant start <= index <= |str|
      invariant AllAlpha(str[start..index])
      invariant column == ColumnValue(str[start..index])
      invariant columnExists <==> index > start
    {
      ColumnStep(str, start, index);
      column := column * 26 + LetterValue(str[index]);
      index := index + 1;
      columnExists := true;
    }
    ghost var lettersEnd := index;
    if index < |str| && str[index] == '$' && columnExists {
      absoluteRow := true;
      index := index + 1;
    }
    LettersEnd(str, start, lettersEnd, index);
  }

  lemma ColumnStep(str: string, i: nat, j: nat)
    requires i <= j < |str| && AllAlpha(str[i..j]) && IsAlpha(str[j])
    ensures AllAlpha(str[i..j + 1])
    ensures ColumnValue(str[i..j + 1]) == ColumnValue(str[i..j]) * 26 + LetterValue(str[j])
  {
    assert str[i..j + 1] == str[i..j] + [str[j]];
    assert (str[i..j] + [str[j]])[..j - i] == str[i..j];
  }

  /** Where the letter loop stops is where Split ends the letters. */
  lemma LettersEnd(str: string, i0: nat, index: nat, rowStart: nat)
    requires i0 == (if |str| > 0 && str[0] == '$' then 1 else 0)
    requires i0 <= index <= |str| && AllAlpha(str[i0..index])
    requires index < |str| ==> !IsAlpha(str[index])
    requires rowStart == if index > i0 && index < |str| && str[index] == '$' then index + 1 else index
    ensures Split(str).absCol == (i0 == 1)
    ensures Split(str).letters == str[i0..index]
    ensures Split(str).absRow == (index > i0 && index < |str| && str[index] == '$')
    ensures rowStart <= |str| && Split(str).rowText == str[rowStart..]
  {
    var rest := str[i0..];
    assert rest == str[i0..index] + str[index..];
    AlphaRunPrefix(str[i0..index], str[index..]);
    assert rest[..index - i0] == str[i0..index];
    assert rest[index - i0..] == str[index..];
  }

  /** back_to_code: builds the column letters from the least significant one, then appends the row. */
  method BackToCode(row: nat, column: nat) returns (code: string)
    ensures code == Code(row, column)
  {
    var columnLabel := "";
    var c := column;
    while c > 0
      invariant ColumnLetters(c) + columnLabel == ColumnLetters(column)
    {
      var remainder := (c - 1) % 26;
      columnLabel := [LetterOf(remainder)] + columnLabel;
      c := (c - 1) / 26;
    }
    code := columnLabel + NatToString(row);
  }

  /** CPos::operator<: row-major order on coordinates. */
  predicate Less(a: Coord, b: Coord): (r: bool)
    ensures r ==> a != b && a.row <= b.row
    ensures a.row < b.row ==> r
    ensures a.row == b.row ==> (r <==> a.col < b.col)
  {
    if a.row == b.row then a.col < b.col else a.row < b.row
  }

  /** CPos::offset: the address dx columns right and dy rows down, re-read from its canonical text. */
  function Offset(p: Pos, dx: int, dy: int): (r: Result<Pos>)
    ensures r.Ok? ==> r.value.code == Code(AddU32(p.row, dy), AddU32(p.col, dx)) && r.value.col >= 1
  {
    DecodedColumn(Code(AddU32(p.row, dy), AddU32(p.col, dx)));
    Decode(Code(AddU32(p.row, dy), AddU32(p.col, dx)))
  }

  /** Whatever reads as an address keeps its text and has a column of at least 1. */
  lemma DecodedColumn(str: string)
    ensures Decode(str).Ok? ==> Decode(str).value.code == str && Decode(str).value.col >= 1
  {
    var sh := Split(str);
    if sh.letters != [] {
      assert ColumnValue(sh.letters) >= LetterValue(sh.letters[|sh.letters| - 1]);
    }
  }

  /** unsigned int + int: the sum modulo 2^32. */
  function AddU32(a: nat, d: int): (r: nat)
    ensures r < Two32
    ensures 0 <= a + d < Two32 ==> r == a + d
  {
    Wrap32(a + d)
  }

  // ---------------------------------------------------------------- properties

  lemma {:induction false} ColumnValueOfLetters(c: nat)
    ensures ColumnValue(ColumnLetters(c)) == c
  {
    if c > 0 {
      var p := ColumnLetters((c - 1) / 26);
      var s := p + [LetterOf((c - 1) % 26)];
      assert s[..|s| - 1] == p;
      ColumnValueOfLetters((c - 1) / 26);
    }
  }

  /** Letters read as a column and written back come out upper-cased and otherwise unchanged. */
  lemma {:induction false} ColumnLettersOfValue(s: string)
    requires AllAlpha(s)
    ensures ColumnLetters(ColumnValue(s)) == Upper(s)
  {
    if s != [] {
      var init := s[..|s| - 1];
      var v := ColumnValue(init);
      var d := LetterValue(s[|s| - 1]);
      assert (v * 26 + d - 1) / 26 == v;
      assert (v * 26 + d - 1) % 26 == d - 1;
      ColumnLettersOfValue(init);
      assert Upper(s) == Upper(init) + [ToUpper(s[|s| - 1])];
    }
  }

  function Upper(s: string): (u: string)
    ensures |u| == |s|
  {
    if s == [] then [] else Upper(s[..|s| - 1]) + [ToUpper(s[|s| - 1])]
  }

  lemma {:induction false} ColumnValuePositive(s: string)
    requires AllAlpha(s) && s != []
    ensures ColumnValue(s) >= 1
  {
  }

  lemma {:induction false} AlphaRunPrefix(letters: string, rest: string)
    requires AllAlpha(letters)
    requires rest != [] ==> !IsAlpha(rest[0])
    ensures AlphaRun(letters + rest) == |letters|
  {
    if letters != [] {
      assert (letters + rest)[1..] == letters[1..] + rest;
      AlphaRunPrefix(letters[1..], rest);
    } else {
      assert letters + rest == rest;
    }
  }

  /** An address text assembled from its parts splits back into those parts. */
  lemma SplitJoin(absCol: bool, letters: string, absRow: bool, rowText: string)
    requires AllAlpha(letters) && letters != []
    requires !absRow ==> rowText == [] || (!IsAlpha(rowText[0]) && rowText[0] != '$')
    ensures Split(Dollar(absCol) + letters + Dollar(absRow) + rowText) == Shape(absCol, letters, absRow, rowText)
  {
    var tail := Dollar(absRow) + rowText;
    var rest := letters + tail;
    var str := Dollar(absCol) + rest;
    Assoc4(Dollar(absCol), letters, Dollar(absRow), rowText);
    assert (|str| > 0 && str[0] == '$') == absCol by {
      if !absCol { assert str == rest && str[0] == letters[0]; }
    }
    assert (if absCol then str[1..] else str) == rest;
    AlphaRunPrefix(letters, tail);
    assert rest[..|letters|] == letters;
    assert rest[|letters|..] == tail;
    assert (|tail| > 0 && tail[0] == '$') == absRow;
    assert (if absRow then tail[1..] else tail) == rowText;
  }

  /** Reading the canonical text of (row, column) gives back that row and column, relative, for every column >= 1 and every row std::stoi can hold. */
  lemma RoundTrip(row: nat, column: nat)
    requires column >= 1 && row <= IntMax
    ensures Decode(Code(row, column)) == Ok(Pos(row, column, true, true, Code(row, column)))
  {
    var letters := ColumnLetters(column);
    var digits := NatToString(row);
    SplitJoin(false, letters, false, digits);
    assert Dollar(false) + letters + Dollar(false) + digits == Code(row, column);
    StoiNatToString(row);
    ColumnValueOfLetters(column);
  }

  /** Every address that reads successfully has a canonical text that reads back to the same coordinates (for rows that std::stoi can print back). */
  lemma CanonicalText(str: string)
    requires Decode(str).Ok?
    requires Decode(str).value.row <= IntMax
    ensures Decode(Code(Decode(str).value.row, Decode(str).value.col)).Ok?
    ensures Decode(Code(Decode(str).value.row, Decode(str).value.col)).value.Key() == Decode(str).value.Key()
  {
    ColumnValuePositive(Split(str).letters);
    RoundTrip(Decode(str).value.row, Decode(str).value.col);
  }

  /**
   * The offset of an address lands on the shifted coordinates, taken modulo 2^32, whenever the
   * new row is one std::stoi can read back and the new column is not 0. Inside those bounds the
   * shifted coordinates are the plain sums (AddU32).
   */
  lemma OffsetLands(p: Pos, dx: int, dy: int)
    requires AddU32(p.row, dy) <= IntMax && AddU32(p.col, dx) >= 1
    ensures Offset(p, dx, dy)
         == Ok(Pos(AddU32(p.row, dy), AddU32(p.col, dx), true, true, Code(AddU32(p.row, dy), AddU32(p.col, dx))))
  {
    RoundTrip(AddU32(p.row, dy), AddU32(p.col, dx));
  }

  /** An offset to column 0 has no letters and throws invalid_argument. */
  lemma OffsetToColumnZero(p: Pos, dx: int, dy: int)
    requires AddU32(p.col, dx) == 0
    ensures Offset(p, dx, dy) == Err(InvalidArgument)
  {
    RowOnly(AddU32(p.row, dy));
  }

  lemma RowOnly(r: nat)
    ensures Decode(Code(r, 0)) == Err(InvalidArgument)
  {
    DigitsOnly(r);
    NoColumn(Code(r, 0));
  }

  lemma DigitsOnly(r: nat)
    ensures IsDigit(Code(r, 0)[0])
  {
    assert Code(r, 0) == NatToString(r);
  }

  /** Errors: no letters after the optional `$` is invalid_argument. */
  lemma NoColumn(str: string)
    requires str == [] || (!IsAlpha(str[0]) && str[0] != '$') || (str[0] == '$' && (|str| == 1 || !IsAlpha(str[1])))
    ensures Decode(str) == Err(InvalidArgument)
  {
    if |str| > 0 && str[0] == '$' {
      assert |str| > 1 ==> str[1..][0] == str[1];
    }
  }

  /** Errors: letters with no row after them (with or without a `$`) are invalid_argument. */
  lemma NoRow(absCol: bool, letters: string, absRow: bool)
    requires letters != [] && AllAlpha(letters)
    ensures Decode(Dollar(absCol) + letters + Dollar(absRow)) == Err(InvalidArgument)
  {
    SplitJoin(absCol, letters, absRow, "");
    assert Dollar(absCol) + letters + Dollar(absRow) + "" == Dollar(absCol) + letters + Dollar(absRow);
  }

  /** Errors: a row that std::stoi does not read to its end is invalid_argument. */
  lemma TrailingText(absCol: bool, letters: string, absRow: bool, rowText: string)
    requires letters != [] && AllAlpha(letters)
    requires !absRow ==> rowText == [] || (!IsAlpha(rowText[0]) && rowText[0] != '$')
    requires Stoi(rowText).Parsed? && Stoi(rowText).consumed < |rowText|
    ensures Decode(Dollar(absCol) + letters + Dollar(absRow) + rowText) == Err(InvalidArgument)
  {
    SplitJoin(absCol, letters, absRow, rowText);
  }

  /** Decode of an address assembled from its parts, when std::stoi reads the whole row text. */
  lemma DecodeParts(absCol: bool, letters: string, absRow: bool, rowText: string, v: int)
    requires AllAlpha(letters) && letters != [] && rowText != []
    requires !absRow ==> !IsAlpha(rowText[0]) && rowText[0] != '$'
    requires Stoi(rowText) == Parsed(v, |rowText|)
    ensures Decode(Dollar(absCol) + letters + Dollar(absRow) + rowText)
         == Ok(Pos(Wrap32(v), ColumnValue(letters), !absRow, !absCol, Dollar(absCol) + letters + Dollar(absRow) + rowText))
  {
    SplitJoin(absCol, letters, absRow, rowText);
  }

  /**
   * The row is read with std::stoi, so white space and a sign may come before the digits,
   * and a negative row wraps around to a large unsigned one.
   */
  lemma LooseRow(absCol: bool, letters: string, absRow: bool, ws: string, sign: string, n: nat)
    requires AllAlpha(letters) && letters != []
    requires AllSpace(ws)
    requires sign == "" || sign == "+" || sign == "-"
    requires if sign == "-" then n <= -IntMin else n <= IntMax
    ensures Decode(Dollar(absCol) + letters + Dollar(absRow) + (ws + (sign + NatToString(n))))
         == Ok(Pos(Wrap32(Negated(sign == "-", n)), ColumnValue(letters), !absRow, !absCol,
                   Dollar(absCol) + letters + Dollar(absRow) + (ws + (sign + NatToString(n)))))
  {
    StoiSpacedSigned(ws, sign, n);
    LooseRowStart(ws, sign, n);
    DecodeParts(absCol, letters, absRow, ws + (sign + NatToString(n)), Negated(sign == "-", n));
  }

  lemma LooseRowStart(ws: string, sign: string, n: nat)
    requires AllSpace(ws)
    requires sign == "" || sign == "+" || sign == "-"
    ensures var t := ws + (sign + NatToString(n)); !IsAlpha(t[0]) && t[0] != '$'
  {
    var t := ws + (sign + NatToString(n));
    assert IsDigit(NatToString(n)[0]);
    assert t[0] == if ws != [] then ws[0] else if sign != "" then sign[0] else NatToString(n)[0];
  }

  /** A row written with a minus sign wraps around to 2^32 minus its magnitude. */
  lemma NegativeRowWraps(n: nat)
    requires 0 < n <= -IntMin
    ensures Wrap32(Negated(true, n)) == Two32 - n
  {
  }
}
