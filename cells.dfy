/**
 * CCell: what a cell's text becomes. Text starting with `=` is a formula: the parser drives
 * an expression builder over it and extractCellReferences collects, lexically, the addresses
 * it mentions. Any other text is a number when std::stod accepts it and plain text when
 * std::stod rejects it.
 */
module Cells {
  import opened Strings
  import opened Address
  import opened Values
  import opened Expressions
  import opened Builder

  /** std::stod: a number, invalid_argument, or out_of_range. */
  datatype Stod = StodNumber(value: real) | StodInvalid | StodOutOfRange

  /** parseExpression: the builder callbacks for a formula, or a rejected formula. */
  datatype Parsed = Callbacks(cbs: seq<Callback>) | Rejected

  /** The library and parser calls a cell makes, which the model leaves uninterpreted. */
  datatype Env = Env(num: Numerics, stod: string -> Stod, parse: string -> Parsed)

  /** CCell::type, plus Blank for a default-constructed CCell, whose type is never set. */
  datatype Kind = NumericCell | TextCell | FormulaCell | Blank

  /**
   * A cell: its type, its literal value, the text it was made from, the references of a
   * formula (a std::set, in iteration order) and a formula's expression stack.
   */
  datatype Cell = Cell(kind: Kind, content: CValue, original: string, references: seq<string>, formula: seq<Expr>)

  /** CCell(): no text, no value, no formula. */
  const BlankCell: Cell := Cell(Blank, Empty, "", [], [])

  predicate IsFormulaText(value: string) {
    |value| > 0 && value[0] == '='
  }

  /** The CCell(value) constructor; None when it throws. */
  function MakeCell(env: Env, value: string): (r: Option<Cell>)
    ensures r.Some? ==> r.value.original == value && r.value.kind != Blank
    ensures r.Some? ==> (r.value.kind == FormulaCell <==> IsFormulaText(value))
    ensures r.Some? && r.value.kind == FormulaCell ==> Sorted(r.value.references)
    ensures r.None? <==>
      if IsFormulaText(value) then env.parse(value).Rejected? || Replay([], env.parse(value).cbs).Aborted?
      else env.stod(value).StodOutOfRange?
    ensures r.Some? && r.value.kind == FormulaCell ==>
      r.value.content == Empty && r.value.references == Refs(value) &&
      env.parse(value).Callbacks? && Replay([], env.parse(value).cbs) == Stack(r.value.formula)
    ensures r.Some? && r.value.kind != FormulaCell ==> r.value.references == [] && r.value.formula == []
    ensures r.Some? && r.value.kind == NumericCell <==> !IsFormulaText(value) && env.stod(value).StodNumber?
    ensures r.Some? && r.value.kind == NumericCell ==> r.value.content == Number(env.stod(value).value)
    ensures r.Some? && r.value.kind == TextCell <==> !IsFormulaText(value) && env.stod(value).StodInvalid?
    ensures r.Some? && r.value.kind == TextCell ==> r.value.content == Text(value)
  {
    if IsFormulaText(value) then
      match env.parse(value)
      case Rejected => None
      case Callbacks(cbs) =>
        (match Replay([], cbs)
         case Aborted => None
         case Stack(s) => Some(Cell(FormulaCell, Empty, value, Refs(value), s)))
    else
      match env.stod(value)
      case StodNumber(d) => Some(Cell(NumericCell, Number(d), value, [], []))
      case StodInvalid => Some(Cell(TextCell, Text(value), value, [], []))
      case StodOutOfRange => None
  }

  /** The CCell(value) constructor, running the builder and the reference scan. */
  method NewCell(env: Env, value: string) returns (r: Option<Cell>)
    ensures r == MakeCell(env, value)
  {
    if |value| > 0 && value[0] == '=' {
      var parsed := env.parse(value);
      if parsed.Rejected? {
        return None;
      }
      var formula := new ExprBuilder();
      var ok := formula.Run(parsed.cbs);
      if !ok {
        return None;
      }
      var references := ExtractReferences(value);
      return Some(Cell(FormulaCell, Empty, value, references, formula.exprStack));
    }
    match env.stod(value)
    case StodNumber(d) => return Some(Cell(NumericCell, Number(d), value, [], []));
    case StodInvalid => return Some(Cell(TextCell, Text(value), value, [], []));
    case StodOutOfRange => return None;
  }

  // ---------------------------------------------------------------- references

  /** The std::set<std::string> acc after inserting the elements of s, first to last. */
  function InsertAll(acc: seq<string>, s: seq<string>): (r: seq<string>)
    requires Sorted(acc)
    ensures Sorted(r)
    decreases |s|
  {
    if s == [] then acc else InsertAll(InsertSorted(acc, s[0]), s[1..])
  }

  /**
   * Where one step of extractCellReferences, begun at the letter f[i], reads: the letters
   * from colStart to colEnd (the first one skipped when a `$` comes before f[i]), then a `$`
   * if at least one letter was read, then the digits from rowStart to rowEnd.
   */
  datatype Span = Span(colStart: nat, colEnd: nat, rowStart: nat, rowEnd: nat)

  function TokenAt(f: string, i: nat): (t: Span)
    requires i < |f| && IsAlpha(f[i])
    ensures i <= t.colStart <= t.colEnd <= t.rowStart <= t.rowEnd <= |f|
    ensures i < t.rowEnd
  {
    var j := if i > 0 && f[i - 1] == '$' then i + 1 else i;
    var k := AlphaEnd(f, j);
    var k2 := if k < |f| && f[k] == '$' && k > j then k + 1 else k;
    Span(j, k, k2, DigitEnd(f, k2))
  }

  /** The reference a step records: the upper-cased letters and the digits, when it read both. */
  function Emitted(f: string, t: Span): seq<string>
    requires t.colStart <= t.colEnd <= t.rowStart <= t.rowEnd <= |f|
  {
    if t.colStart < t.colEnd && t.rowStart < t.rowEnd
    then [Upper(f[t.colStart..t.colEnd]) + f[t.rowStart..t.rowEnd]]
    else []
  }

  /** The references extractCellReferences finds from index i on, in the order it finds them. */
  function RefsFrom(f: string, i: nat): seq<string>
    requires i <= |f|
    decreases |f| - i
  {
    if i == |f| then []
    else if IsAlpha(f[i]) then
      var t := TokenAt(f, i);
      Emitted(f, t) + RefsFrom(f, t.rowEnd)
    else RefsFrom(f, i + 1)
  }

  /** The reference set of a formula, in the iteration order of std::set. */
  function Refs(formula: string): seq<string> {
    InsertAll([], RefsFrom(formula, 0))
  }

  /** extractCellReferences: one pass over the formula with an index. */
  method ExtractReferences(formula: string) returns (references: seq<string>)
    ensures references == Refs(formula)
  {
    var i := 0;
    var len := |formula|;
    references := [];
    while i < len
      invariant 0 <= i <= len
      invariant Sorted(references)
      invariant Refs(formula) == InsertAll(references, RefsFrom(formula, i))
      decreases len - i
    {
      if IsAlpha(formula[i]) {
        ghost var rest := RefsFrom(formula, TokenAt(formula, i).rowEnd);
        var colPart, rowPart;
        colPart, rowPart, i := ReadToken(formula, i);
        if colPart != [] && rowPart != [] {
          assert ([colPart + rowPart] + rest)[1..] == rest;
          references := InsertSorted(references, colPart + rowPart);
        } else {
          assert [] + rest == rest;
        }
      } else {
        i := i + 1;
      }
    }
  }

  /**
   * The body of extractCellReferences' loop at a letter: skip it after a `$`, read the
   * letters upper-cased, a `$` if there were letters, then the digits.
   */
  method ReadToken(formula: string, start: nat) returns (colPart: string, rowPart: string, i: nat)
    requires start < |formula| && IsAlpha(formula[start])
    ensures i == TokenAt(formula, start).rowEnd
    ensures (if colPart != [] && rowPart != [] then [colPart + rowPart] else []) == Emitted(formula, TokenAt(formula, start))
  {
    i := start;
    if i > 0 && formula[i - 1] == '$' {
      i := i + 1;
    }
    var j := i;
    colPart, i := ReadLetters(formula, i);
    var columnComplete := i > j;
    if i < |formula| && formula[i] == '$' && columnComplete {
      i := i + 1;
    }
    rowPart, i := ReadDigits(formula, i);
  }

  /** The letter loop: the letters from start on, upper-cased. */
  method ReadLetters(formula: string, start: nat) returns (colPart: string, i: nat)
    requires start <= |formula|
    ensures i == AlphaEnd(formula, start)
    ensures colPart == Upper(formula[start..i])
  {
    i := start;
    colPart := "";
    while i < |formula| && IsAlpha(formula[i])
      invariant start <= i <= |formula|
      invariant AlphaEnd(formula, i) == AlphaEnd(formula, start)
      invariant colPart == Upper(formula[start..i])
    {
      UpperStep(formula, start, i);
      colPart := colPart + [ToUpper(formula[i])];
      i := i + 1;
    }
  }

  /** The digit loop: the digits from start on. */
  method ReadDigits(formula: string, start: nat) returns (rowPart: string, i: nat)
    requires start <= |formula|
    ensures i == DigitEnd(formula, start)
    ensures rowPart == formula[start..i]
  {
    i := start;
    rowPart := "";
    while i < |formula| && IsDigit(formula[i])
      invariant start <= i <= |formula|
      invariant DigitEnd(formula, i) == DigitEnd(formula, start)
      invariant rowPart == formula[start..i]
    {
      assert formula[start..i + 1] == formula[start..i] + [formula[i]];
      rowPart := rowPart + [formula[i]];
      i := i + 1;
    }
  }

  lemma UpperStep(s: string, j: nat, i: nat)
    requires j <= i < |s|
    ensures Upper(s[j..i + 1]) == Upper(s[j..i]) + [ToUpper(s[i])]
  {
    assert s[j..i + 1][..i - j] == s[j..i];
  }

  // ---------------------------------------------------------------- properties

  /** The set holds exactly what was in it and what was inserted. */
  lemma {:induction false} InsertAllHas(acc: seq<string>, s: seq<string>)
    requires Sorted(acc)
    ensures forall y :: y in InsertAll(acc, s) <==> y in acc || y in s
    decreases |s|
  {
    if s != [] {
      InsertAllHas(InsertSorted(acc, s[0]), s[1..]);
      assert forall y :: y in s <==> y == s[0] || y in s[1..] by {
        assert s == [s[0]] + s[1..];
      }
    }
  }

  /** The reference set holds exactly the references the scan finds. */
  lemma RefsHas(formula: string)
    ensures forall y :: y in Refs(formula) <==> y in RefsFrom(formula, 0)
  {
    InsertAllHas([], RefsFrom(formula, 0));
  }

  /** Characters that are not letters add nothing and are stepped over one at a time. */
  lemma {:induction false} SkipNonLetters(f: string, i: nat, e: nat)
    requires i <= e <= |f|
    requires forall t :: i <= t < e ==> !IsAlpha(f[t])
    ensures RefsFrom(f, i) == RefsFrom(f, e)
    decreases e - i
  {
    if i < e {
      SkipNonLetters(f, i + 1, e);
    }
  }

  /** A formula without letters references nothing. */
  lemma NoLettersNoReferences(f: string)
    requires forall t :: 0 <= t < |f| ==> !IsAlpha(f[t])
    ensures Refs(f) == []
  {
    SkipNonLetters(f, 0, |f|);
  }

  /** Position b may start a reference: it follows neither a letter nor a `$`. */
  predicate OpenAt(f: string, b: nat)
    requires b <= |f|
  {
    b == 0 || (!IsAlpha(f[b - 1]) && f[b - 1] != '$')
  }

  /**
   * The scan cannot run past a position b that may start a reference and holds no digit: it
   * stops at b, and what it finds from b on comes last.
   */
  lemma {:induction false} ScanReaches(f: string, i: nat, b: nat) returns (before: seq<string>)
    requires i <= b <= |f|
    requires OpenAt(f, b)
    requires b < |f| ==> !IsDigit(f[b])
    ensures RefsFrom(f, i) == before + RefsFrom(f, b)
    decreases b - i
  {
    if i == b {
      return [];
    }
    if IsAlpha(f[i]) {
      var t := TokenAt(f, i);
      AlphaEndBelow(f, t.colStart, b - 1);
      if b < |f| {
        DigitEndBelow(f, t.rowStart, b);
      }
      var rest := ScanReaches(f, t.rowEnd, b);
      before := Emitted(f, t) + rest;
    } else {
      before := ScanReaches(f, i + 1, b);
    }
  }

  /**
   * The shape of a reference in f: letters from col to colEnd, a `$` between colEnd and
   * row exactly when row == colEnd + 1, digits from row to rowEnd, and no digit after them.
   */
  predicate ReferenceAt(f: string, col: nat, colEnd: nat, row: nat, rowEnd: nat) {
    col < colEnd <= row < rowEnd <= |f|
    && (forall t :: col <= t < colEnd ==> IsAlpha(f[t]))
    && (row == colEnd || (row == colEnd + 1 && f[colEnd] == '$'))
    && (forall t :: row <= t < rowEnd ==> IsDigit(f[t]))
    && (rowEnd < |f| ==> !IsDigit(f[rowEnd]))
  }

  /**
   * Every letters-then-digits token whose first letter is not preceded by a `$` is recorded,
   * upper-cased and without a `$` between letters and digits; the scan then goes on after the
   * digits.
   */
  lemma TokenRecorded(f: string, b: nat, k: nat, k2: nat, m: nat)
    requires ReferenceAt(f, b, k, k2, m) && OpenAt(f, b)
    ensures RefsFrom(f, b) == [Upper(f[b..k]) + f[k2..m]] + RefsFrom(f, m)
    ensures Upper(f[b..k]) + f[k2..m] in Refs(f)
  {
    AlphaEndIs(f, b, k);
    DigitEndIs(f, k2, m);
    assert TokenAt(f, b) == Span(b, k, k2, m);
    assert b < |f| ==> !IsDigit(f[b]);
    var before := ScanReaches(f, 0, b);
    RefsHas(f);
  }

  /**
   * After a `$` the first letter is skipped: a one-letter `$`-anchored column records nothing
   * (`$A1`, `$A$1`), a longer one records the letters after the first (`$AB1` gives `B1`).
   */
  lemma AnchoredColumnSkipsLetter(f: string, d: nat, k: nat, k2: nat, m: nat)
    requires d < |f| && f[d] == '$' && ReferenceAt(f, d + 1, k, k2, m)
    ensures RefsFrom(f, d) == (if k == d + 2 then [] else [Upper(f[d + 2..k]) + f[k2..m]]) + RefsFrom(f, m)
  {
    assert RefsFrom(f, d) == RefsFrom(f, d + 1);
    DigitEndIs(f, k2, m);
    if k > d + 2 {
      AlphaEndIs(f, d + 2, k);
      assert TokenAt(f, d + 1) == Span(d + 2, k, k2, m);
    } else if k2 == k + 1 {
      assert TokenAt(f, d + 1) == Span(k, k, k, k);
      SkipNonLetters(f, k, m);
    } else {
      assert TokenAt(f, d + 1) == Span(k, k, k, m);
    }
  }

  /** A run of letters with no digits after it (even with a `$` after it) records nothing. */
  lemma LettersWithoutRow(f: string, b: nat, k: nat, k2: nat)
    requires b < k <= k2 <= |f| && OpenAt(f, b)
    requires forall t :: b <= t < k ==> IsAlpha(f[t])
    requires k2 == k || (k2 == k + 1 && f[k] == '$')
    requires k2 < |f| ==> !IsAlpha(f[k2]) && !IsDigit(f[k2]) && f[k2] != '$'
    ensures RefsFrom(f, b) == RefsFrom(f, k2)
  {
    AlphaEndIs(f, b, k);
    DigitEndIs(f, k2, k2);
    assert TokenAt(f, b) == Span(b, k, k2, k2);
  }

  /** Every recorded reference is letters then digits, so reading it as an address can only fail with out_of_range. */
  lemma {:induction false} ReferencesAreAddresses(f: string, i: nat)
    requires i <= |f|
    ensures forall y :: y in RefsFrom(f, i) ==> Decode(y).Ok? || Decode(y) == Err(OutOfRange)
    decreases |f| - i
  {
    if i < |f| {
      if IsAlpha(f[i]) {
        var t := TokenAt(f, i);
        EmittedIsAddress(f, i);
        ReferencesAreAddresses(f, t.rowEnd);
      } else {
        ReferencesAreAddresses(f, i + 1);
      }
    }
  }

  lemma EmittedIsAddress(f: string, i: nat)
    requires i < |f| && IsAlpha(f[i])
    ensures forall y :: y in Emitted(f, TokenAt(f, i)) ==> Decode(y).Ok? || Decode(y) == Err(OutOfRange)
  {
    var t := TokenAt(f, i);
    if t.colStart < t.colEnd && t.rowStart < t.rowEnd {
      AlphaEndAll(f, t.colStart);
      DigitEndAll(f, t.rowStart);
      var letters := f[t.colStart..t.colEnd];
      var digits := f[t.rowStart..t.rowEnd];
      assert AllAlpha(letters) by {
        forall u | 0 <= u < |letters| ensures IsAlpha(letters[u]) { assert letters[u] == f[t.colStart + u]; }
      }
      assert AllDigits(digits) by {
        forall u | 0 <= u < |digits| ensures IsDigit(digits[u]) { assert digits[u] == f[t.rowStart + u]; }
      }
      AddressShaped(letters, digits);
    }
  }

  lemma AddressShaped(letters: string, digits: string)
    requires letters != [] && AllAlpha(letters) && digits != [] && AllDigits(digits)
    ensures Decode(Upper(letters) + digits).Ok? || Decode(Upper(letters) + digits) == Err(OutOfRange)
  {
    UpperAlpha(letters);
    assert IsDigit(digits[0]);
    SplitJoin(false, Upper(letters), false, digits);
    assert Dollar(false) + Upper(letters) + Dollar(false) + digits == Upper(letters) + digits;
    StoiAllDigits(digits);
  }

  lemma {:induction false} UpperAlpha(s: string)
    requires AllAlpha(s)
    ensures AllAlpha(Upper(s))
  {
    if s != [] {
      UpperAlpha(s[..|s| - 1]);
    }
  }

  /** `=$A1` and `=$A$1` record no reference at all. */
  lemma AnchoredColumnExamples()
    ensures Refs("=$A1") == [] && Refs("=$A$1") == []
  {
    AnchoredColumnSkipsLetter("=$A1", 1, 3, 3, 4);
    assert RefsFrom("=$A1", 0) == RefsFrom("=$A1", 1);
    AnchoredColumnSkipsLetter("=$A$1", 1, 3, 4, 5);
    assert RefsFrom("=$A$1", 0) == RefsFrom("=$A$1", 1);
  }

  /** `=$AB1` records `B1`, a cell it does not reference. */
  lemma AnchoredColumnMisread()
    ensures Refs("=$AB1") == ["B1"]
  {
    var f := "=$AB1";
    AnchoredColumnSkipsLetter(f, 1, 4, 4, 5);
    assert f[3..4] == "B" && f[4..5] == "1";
    assert Upper("B") == ['B'];
    var b1 := Upper(f[3..4]) + f[4..5];
    assert b1 == "B1";
    assert RefsFrom(f, 1) == [b1] + RefsFrom(f, 5);
    assert RefsFrom(f, 0) == [b1];
    assert InsertAll([], [b1]) == InsertAll([b1], []);
  }

  /** `=A1` records `A1`. */
  lemma PlainReferenceRecorded()
    ensures Refs("=A1") == ["A1"]
  {
    var f := "=A1";
    TokenRecorded(f, 1, 2, 2, 3);
    assert f[1..2] == "A" && f[2..3] == "1";
    assert Upper("A") == ['A'];
    assert Upper(f[1..2]) + f[2..3] == "A1";
    assert RefsFrom(f, 3) == [];
    assert RefsFrom(f, 0) == RefsFrom(f, 1);
    assert RefsFrom(f, 0) == ["A1"];
    assert InsertAll([], ["A1"]) == InsertAll(["A1"], []);
  }

  /** A formula whose parse is a single reference callback becomes a one-node tree. */
  lemma SingleReferenceCell(env: Env, f: string, t: string)
    requires IsFormulaText(f) && env.parse(f) == Callbacks([ReferenceValue(t)]) && Decode(t).Ok?
    ensures MakeCell(env, f) == Some(Cell(FormulaCell, Empty, f, Refs(f), [Reference(Decode(t).value)]))
  {
    var tree := [Reference(Decode(t).value)];
    ReplayOne([], ReferenceValue(t));
    StepReference([], t);
    assert [] + tree == tree;
    assert Replay([], [ReferenceValue(t)]) == Stack(tree);
  }
}
