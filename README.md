# Spreadsheet core, modelled in Dafny

A model of a small C++ spreadsheet engine, `CSpreadsheet`. A page maps cell addresses (`CPos`)
to cells (`CCell`). The model covers:

- address texts with `$` anchors, read by `CPos_parser` and written back by `back_to_code`;
- the formula tree the parser's callbacks build (`expBuilder`);
- the reference scan of a formula (`extractCellReferences`);
- evaluation with a depth-first cycle check (`getValue`, `dfsCycleCheck`);
- formula rebasing (`updateFormula`) and rectangle copying (`copyRect`);
- the two save and load formats: the raw one in `spreadsheet.cpp` and the escaping one in
  `test_save_load.cpp`, together with its `escapeString` and `unescapeString`;
- the cycle detector over address texts in `test_content_parse.cpp`.

Modules, one per component:

- `Strings`: character classes, decimal text, `std::stoi`, `std::string` order and
  `std::set<std::string>` insertion.
- `Address`: `CPos`.
- `Values`: `CValue` and the operator nodes' arithmetic.
- `Expressions`: the formula tree.
- `Builder`: `expBuilder` as a class over its expression stack.
- `Cells`: the `CCell` constructor and the reference scan.
- `Evaluation`: `getValue`, `dfsCycleCheck`, `Expr::eval`.
- `Rebase`: `updateFormula`.
- `Persistence`: the text encodings and `getline`.
- `Sheet`: `CSpreadsheet` as a class over its page.
- `CycleDetect`: the `detectCycles` variant, a class over its `cells` map.

Loops in the source are methods with loop invariants. Each method is proved equal to a function,
and the properties are proved about that function, except in the cycle detector of
`CycleDetect`, whose methods state their properties directly: what a search returns, and what
it leaves on the stack and in the visited set.

Behaviour the model keeps as the code has it:

- A `std::map<CPos, CCell>` entry keeps the text of the `CPos` it was first stored under, so the
  page maps coordinates to a slot of (address text, cell).
- The reference scan skips the first letter after a `$`. `=$A1` records no reference, and
  `=$AB1` records `B1`.
- `std::stoi` lets white space and a sign come before the digits of a row, and a negative row
  wraps around as an `unsigned int`.
- `load` reads a record whose address text contains `CONT` wrongly.
- The escaping `save` writes the byte `'\031'` (octal, so 0x19) as `\x1f`, and `load` reads that
  back as 0x1F.
- `getValue` may not finish: the cycle check misses a reference that the scan skipped.

`pow`, `std::to_string(double)`, `std::stod` and `parseExpression` are parameters: the
`Numerics` and `Env` values of total functions.

## Model

| member | source | states |
|---|---|---|
| Strings.ToUpper | spreadsheet.cpp:501 | letters become upper case; everything except `a`–`z` is unchanged |
| Strings.NatToString | spreadsheet.cpp:748 | `std::to_string` of an unsigned number: digits only, reading back as the number, no leading zero |
| Strings.Stoi | spreadsheet.cpp:713-721 | `std::stoi` either fails, or gives a value within `int` range having consumed a prefix that ends in a digit |
| Strings.StoiNatToString | spreadsheet.cpp:717 | the decimal text of any `n <= INT_MAX` reads back as `n`, all of it consumed |
| Strings.StoiAllDigits | spreadsheet.cpp:577 | on a non-empty run of digits, `std::stoi` reads all of them (value = decimal value) or reports out of range, never "no conversion" |
| Strings.StoiSkipsSpace | spreadsheet.cpp:717 | leading white space is consumed and changes nothing else |
| Strings.StoiSpacedSigned | spreadsheet.cpp:717 | white space, then `+`, `-` or nothing, then digits reads as the signed value, all consumed |
| Strings.StrLessIrreflexive | spreadsheet.cpp:476 | the `std::string` order of the reference set is irreflexive |
| Strings.StrLessTransitive | spreadsheet.cpp:476 | the `std::string` order is transitive |
| Strings.StrLessTotal | spreadsheet.cpp:476 | any two distinct strings are ordered one way or the other |
| Strings.StrLessAsymmetric | spreadsheet.cpp:476 | the `std::string` order is asymmetric |
| Strings.InsertSorted | spreadsheet.cpp:519 | `std::set::insert` keeps the iteration sequence strictly sorted and holds exactly the old elements plus the new one |
| Address.Wrap32 | spreadsheet.cpp:667 | `int` to `unsigned int`: a result below 2^32, equal to the input when that already fits |
| Address.Split | spreadsheet.cpp:694-711 | the input is exactly optional `$`, the letter run, a `$` only after some letter, and the rest |
| Address.Parse | spreadsheet.cpp:661-735 | the `CPos` constructor's loop gives exactly the address grammar `Decode`: row, column, anchors and text, or the exception |
| Address.ReadColumn | spreadsheet.cpp:694-711 | the letter loop's column, index and flags agree with `Split`'s parts, and the column is the letters' base-26 value |
| Address.BackToCode | spreadsheet.cpp:737-750 | `back_to_code`'s loop builds the canonical text: column letters, then decimal row |
| Address.AddU32 | spreadsheet.cpp:759 | `unsigned + int` wraps modulo 2^32, and is the plain sum when that fits |
| Address.Decode | spreadsheet.cpp:682-735 | the address grammar `CPos_parser` reads; the loop `Address.Parse` is proved equal to it, and `Address.RoundTrip`, `Address.DecodeParts` and the error lemmas state what it accepts and throws |
| Address.DecodedColumn | spreadsheet.cpp:661-669 | a text that reads as an address keeps that text as its code, and its column is at least 1 |
| Address.Less | spreadsheet.cpp:752-756 | `CPos::operator<` is row-major: a smaller row comes first, and on equal rows the smaller column; it is irreflexive (transitivity is `Sheet.LessTransitive`) |
| Address.Offset | spreadsheet.cpp:758-760 | `CPos::offset` re-reads the canonical text of the wrapped sums: a result has that text and a column of at least 1 (where it lands is `Address.OffsetLands`, column 0 throws by `Address.OffsetToColumnZero`) |
| Address.ColumnValueOfLetters | spreadsheet.cpp:741-747 | reading back the letters `back_to_code` writes gives the column number again |
| Address.ColumnLettersOfValue | spreadsheet.cpp:700-705 | letters read as a column and written back come out upper-cased, otherwise unchanged |
| Address.SplitJoin | spreadsheet.cpp:694-711 | an address text assembled from its parts splits back into the same parts |
| Address.RoundTrip | spreadsheet.cpp:737-750 | the canonical text of (row, column), for column >= 1 and row <= INT_MAX, reads back as that row and column, both relative |
| Address.CanonicalText | spreadsheet.cpp:682-750 | every readable address has a canonical text that reads back to the same coordinates |
| Address.OffsetLands | spreadsheet.cpp:758-760 | `offset` lands on the shifted coordinates (mod 2^32) whenever the new row fits an `int` and the new column is not 0 |
| Address.OffsetToColumnZero | spreadsheet.cpp:758-760 | an offset to column 0 throws `invalid_argument` |
| Address.RowOnly | spreadsheet.cpp:725-734 | a canonical text with no column letters throws `invalid_argument` |
| Address.NoColumn | spreadsheet.cpp:725-734 | no letters after the optional `$` throws `invalid_argument` |
| Address.NoRow | spreadsheet.cpp:712-734 | letters with nothing after them (with or without `$`) throw `invalid_argument` |
| Address.TrailingText | spreadsheet.cpp:718-721 | a row that `std::stoi` does not read to its end throws `invalid_argument` |
| Address.DecodeParts | spreadsheet.cpp:682-735 | parts whose row `std::stoi` reads fully give that row (as unsigned), the column value and the anchors |
| Address.LooseRow | spreadsheet.cpp:713-721 | white space and a sign before the row digits are accepted, and a negative row wraps |
| Address.NegativeRowWraps | spreadsheet.cpp:667 | a row `-n` is stored as 2^32 - n |
| Values.Truth | spreadsheet.cpp:207-223 | a comparison answers 1.0 exactly when it holds and 0.0 exactly when it does not |
| Values.Add | spreadsheet.cpp:88-109 | `Sum` is empty exactly when an operand is empty, and a number exactly when both operands are numbers |
| Values.Sub | spreadsheet.cpp:111-132 | `Subtraction` is empty exactly when the operands are not two numbers |
| Values.Mul | spreadsheet.cpp:149-166 | `Multiplication` is empty exactly when the operands are not two numbers |
| Values.Div | spreadsheet.cpp:168-185 | `Division` is empty exactly when the operands are not two numbers or the divisor is 0 |
| Values.Pow | spreadsheet.cpp:187-205 | `Power` is empty exactly when the operands are not two numbers |
| Values.Neg | spreadsheet.cpp:134-147 | `Negative` is empty exactly when the operand is not a number |
| Values.Compare | spreadsheet.cpp:207-312 | a comparison is empty exactly when the operands are not two strings or two numbers, and otherwise 1.0 or 0.0 |
| Values.AddEmpty | spreadsheet.cpp:96-98 | an empty operand on either side makes the sum empty |
| Values.AddConcatenates | spreadsheet.cpp:101-106 | with text on one side, the sum is the two renderings concatenated in operand order |
| Values.SubUndoesAdd | spreadsheet.cpp:88-132 | subtraction undoes a numeric sum |
| Values.DivUndoneByMul | spreadsheet.cpp:149-185 | multiplying a quotient by its non-zero divisor gives the dividend back |
| Values.NegInvolution | spreadsheet.cpp:134-147 | negation is an involution and equals subtraction from zero |
| Values.CompareConverse | spreadsheet.cpp:207-312 | swapping the operands and taking the converse relation gives the same answer |
| Values.CompareNegation | spreadsheet.cpp:207-312 | the negated relation gives the opposite answer on comparable operands |
| Values.CompareTrichotomy | spreadsheet.cpp:242-291 | exactly one of `<`, `==`, `>` holds between comparable operands |
| Values.LeIsLtOrEq | spreadsheet.cpp:259-274 | `<=` holds exactly when `<` or `==` holds |
| Builder.Top | spreadsheet.cpp:443-450 | `getResult` fails exactly on an empty stack, and otherwise gives its top |
| Builder.ExprBuilder.constructor | spreadsheet.cpp:317 | a new builder has an empty stack |
| Builder.ExprBuilder.OpBinary | spreadsheet.cpp:319-418 | a binary callback pops the right operand, then the left one, and pushes the node built from both |
| Builder.ExprBuilder.OpNeg | spreadsheet.cpp:364-370 | `opNeg` replaces the top with its negation |
| Builder.ExprBuilder.ValNumber | spreadsheet.cpp:425-429 | pushes a number leaf |
| Builder.ExprBuilder.ValString | spreadsheet.cpp:430-434 | pushes a text leaf |
| Builder.ExprBuilder.ValReference | spreadsheet.cpp:939-943 | pushes the decoded address, or throws the `CPos` exception with the stack unchanged |
| Builder.ExprBuilder.GetResult | spreadsheet.cpp:443-450 | the top of the stack, or failure on an empty stack |
| Builder.ExprBuilder.Feed | spreadsheet.cpp:319-441 | one callback changes the stack as the callback semantics `Step` says, and leaves it alone when it aborts |
| Builder.ExprBuilder.Run | spreadsheet.cpp:319-441 | a run of callbacks succeeds exactly when `Replay` does, leaving the replayed stack |
| Builder.ReplayPostfix | spreadsheet.cpp:319-441 | replaying a tree's postfix callbacks pushes exactly that tree on any stack |
| Builder.BuildsTree | spreadsheet.cpp:319-450 | a parser issuing a tree's postfix callbacks leaves that tree for `getResult` |
| Builder.LeftoverIgnored | spreadsheet.cpp:443-450 | two trees in a row leave both, and `getResult` takes the second |
| Builder.UnderflowAborts | spreadsheet.cpp:319-327 | an operator with too few operands aborts the build |
| Cells.MakeCell | spreadsheet.cpp:594-612 | the constructor throws exactly when a formula's parse is rejected or its build aborts, or when `std::stod` reports out of range for other text; a built cell keeps its text; it is a formula exactly when the text starts with `=`, and then holds the scanned references (sorted) and the stack the builder leaves; otherwise it is numeric with the `std::stod` value exactly when `std::stod` succeeds, and text holding the text itself exactly when `std::stod` rejects it |
| Cells.NewCell | spreadsheet.cpp:594-612 | the constructor's steps give exactly `MakeCell` |
| Cells.InsertAll | spreadsheet.cpp:519 | inserting into a `std::set` keeps its sequence sorted |
| Cells.ExtractReferences | spreadsheet.cpp:485-527 | the scan loop's result is the reference set `Refs` |
| Cells.ReadToken | spreadsheet.cpp:491-521 | one letter step ends where the token ends, and records exactly what `Emitted` records |
| Cells.ReadLetters | spreadsheet.cpp:499-504 | the letters up to the run's end, upper-cased |
| Cells.ReadDigits | spreadsheet.cpp:511-515 | the digits up to the run's end |
| Cells.InsertAllHas | spreadsheet.cpp:519 | the set holds exactly what it held plus what was inserted |
| Cells.RefsHas | spreadsheet.cpp:485-527 | the reference set holds exactly the references the scan finds |
| Cells.SkipNonLetters | spreadsheet.cpp:522-525 | characters that are not letters add no reference |
| Cells.NoLettersNoReferences | spreadsheet.cpp:485-527 | a formula without letters references nothing |
| Cells.TokenRecorded | spreadsheet.cpp:491-521 | a letters-then-digits token not after `$` is recorded, upper-cased and without the row's `$` |
| Cells.AnchoredColumnSkipsLetter | spreadsheet.cpp:495-498 | after `$` the first letter is skipped: `$A1` records nothing, `$AB1` records `B1` |
| Cells.LettersWithoutRow | spreadsheet.cpp:517-520 | letters with no digits after them record nothing |
| Cells.ReferencesAreAddresses | spreadsheet.cpp:485-527 | every recorded reference reads as an address, or at worst throws `out_of_range` |
| Cells.AnchoredColumnExamples | spreadsheet.cpp:495-498 | `=$A1` and `=$A$1` record no reference |
| Cells.AnchoredColumnMisread | spreadsheet.cpp:495-498 | `=$AB1` records `B1` |
| Cells.PlainReferenceRecorded | spreadsheet.cpp:485-527 | `=A1` records `A1` |
| Cells.SingleReferenceCell | spreadsheet.cpp:594-600 | a formula parsed as one reference is a one-node tree with its scanned references |
| Evaluation.Dfs | spreadsheet.cpp:780-802 | marks only move forward and stay within the page; a clean return restores the path and marks the start finished; an in-progress start reports a cycle at once, a finished one reports none |
| Evaluation.DfsRefs | spreadsheet.cpp:788-798 | the loop over references moves marks forward only and restores the path on a clean return |
| Evaluation.DfsSound | spreadsheet.cpp:780-802 | a reported cycle is real: some walk from the path's start returns to an address it passed |
| Evaluation.DfsRefsSound | spreadsheet.cpp:788-798 | a cycle reported by the reference loop is real |
| Evaluation.CycleReportIsReal | spreadsheet.cpp:804-810 | `getValue`'s cycle check, started fresh, reports a cycle only when one is reachable |
| Evaluation.DfsComplete | spreadsheet.cpp:780-802 | on a clean return, every address the search marked finished reaches no cycle, given that this held of the marks it started with |
| Evaluation.DfsRefsComplete | spreadsheet.cpp:788-798 | on a clean return of the reference loop, every address of the page a reference names is marked finished, and finished addresses reach no cycle |
| Evaluation.FollowComplete | spreadsheet.cpp:790-796 | the same, for a loop whose first reference names an address in the page that the search visits |
| Evaluation.CycleCheckExact | spreadsheet.cpp:804-810 | when the cycle check does not throw, it reports a cycle if and only if a walk through the scanned references returns to an address it passed |
| Evaluation.GetValue | spreadsheet.cpp:804-810 | an address not in the page reads as empty; for one in the page, an exception from the cycle check becomes a `BadAddress` failure, a reported cycle reads as empty, and otherwise the value is the cell's own |
| Evaluation.CellValue | spreadsheet.cpp:613-641 | a number or text cell yields its content and a blank cell yields empty; a formula with an empty stack raises the empty-expression failure; a formula with a stack and no fuel left does not finish |
| Evaluation.Eval | spreadsheet.cpp:921-936 | a tree without references always yields a value; a Reference to an address outside the page is empty without a cycle check, and one inside the page reads through `getValue` |
| Evaluation.ClosedEvaluates | spreadsheet.cpp:52-86 | a tree with no reference always yields a value, the same on every page |
| Evaluation.EvalFuel | spreadsheet.cpp:921-935 | fuel only decides whether a read finishes: more fuel gives the same answer |
| Evaluation.GetValueFuel | spreadsheet.cpp:804-810 | the same for `getValue` |
| Evaluation.CellValueFuel | spreadsheet.cpp:613-641 | the same for `CCell::getValue` |
| Evaluation.DecodeA1 | spreadsheet.cpp:682-735 | `A1` is row 1, column 1, both relative |
| Evaluation.DecodeAnchoredA1 | spreadsheet.cpp:682-735 | `$A1` is row 1, column 1, column anchored |
| Evaluation.PlainSelfReferenceReadsEmpty | spreadsheet.cpp:780-810 | A1 holding `=A1` is reported as a cycle and reads as empty |
| Evaluation.SelfCycle | spreadsheet.cpp:786-793 | a formula whose only reference is itself reports a cycle with itself in progress |
| Evaluation.AnchoredSelfReferenceNeverFinishes | spreadsheet.cpp:495-498 | A1 holding `=$A1` passes the cycle check and never finishes reading itself, whatever the fuel |
| Evaluation.AnchoredCell | spreadsheet.cpp:594-600 | `=$A1` builds a one-reference tree with an empty reference set |
| Evaluation.SelfLoop | spreadsheet.cpp:921-935 | a cell whose tree reads itself with an empty reference set runs out of any fuel |
| Rebase.NewColumn | spreadsheet.cpp:570-575 | the column letters are all letters, and empty exactly for an index <= 0 |
| Rebase.TokenFrom | spreadsheet.cpp:549-559 | a token spans letters, an optional `$`, then digits, and at a letter it is non-empty |
| Rebase.Round | spreadsheet.cpp:538-586 | one round of the loop that does not throw moves strictly forward |
| Rebase.UpdateFormula | spreadsheet.cpp:533-589 | the loop gives exactly `Rebased`: a formula with `"` unchanged, otherwise every token rewritten, or the `std::stoi` exception |
| Rebase.Advance | spreadsheet.cpp:539-585 | one round appends `Round`'s text and moves to its next index, or throws what `Round` throws |
| Rebase.CopyChar | spreadsheet.cpp:584 | a non-letter is copied as it is |
| Rebase.WriteToken | spreadsheet.cpp:540-582 | the column's popped `$` is written back together with the rewritten token |
| Rebase.TokenAt | spreadsheet.cpp:540-582 | a token is read up to its end and replaced by `TokenText` |
| Rebase.RowNumberIsStoi | spreadsheet.cpp:577 | the row is `std::stoi` of the token's digits |
| Rebase.ScanToken | spreadsheet.cpp:549-559 | the letters, the row's `$` flag and the digits are exactly `TokenFrom`'s parts |
| Rebase.RewriteToken | spreadsheet.cpp:561-582 | the token's text is `RebaseToken`'s, and it throws exactly when `std::stoi` does |
| Rebase.MoveRow | spreadsheet.cpp:577-580 | the row moves by deltaRow unless anchored |
| Rebase.MoveColumn | spreadsheet.cpp:561-575 | the column moves by deltaCol unless anchored, written back as letters |
| Rebase.ReadLetters | spreadsheet.cpp:549-551 | the letters up to the run's end, as written |
| Rebase.ColumnIndex | spreadsheet.cpp:561-564 | the base-26 column value of the letters, case ignored |
| Rebase.ColumnText | spreadsheet.cpp:570-575 | the letters of a column index |
| Rebase.LetterFreeCopied | spreadsheet.cpp:583-585 | text without letters is copied unchanged |
| Rebase.TokenMoves | spreadsheet.cpp:540-582 | a token's column and row move unless anchored, and the text written reads back as the moved address with the same anchors |
| Rebase.MovedTokenReads | spreadsheet.cpp:582 | what a moved token writes reads back as that address and those anchors, for every column >= 1 and row <= INT_MAX |
| Rebase.CanonicalTokenKept | spreadsheet.cpp:540-582 | a canonical token that nothing moves is written as it was |
| Rebase.ShiftBack | spreadsheet.cpp:540-582 | moving a token by (dr, dc) and then by (-dr, -dc) gives the token back, while it stays in range |
| Rebase.MovedBack | spreadsheet.cpp:540-582 | the second half of that round trip, from the moved column and row |
| Rebase.LetterFreePrefix | spreadsheet.cpp:583-585 | the text before the next letter is copied in front of what follows |
| Rebase.OneToken | spreadsheet.cpp:533-589 | a formula with one token keeps the text around it and rewrites the token |
| Rebase.LastToken | spreadsheet.cpp:538-586 | a last token is rewritten and the text after it copied |
| Rebase.CopyExample | spreadsheet.cpp:1382-1386 | copying F10 to G11 turns `D0` into `E1`, `$D0` into `$D1`, `D$0` into `E$0`, and keeps `$D$0` |
| Rebase.NameWithoutRow | spreadsheet.cpp:577 | letters without digits (a function name) make `std::stoi` throw, and the whole rebase throws |
| Persistence.EscapeForSave | test_save_load.cpp:815-826 | the escaping loop gives `Escaped` of the contents |
| Persistence.DecodeForLoad | test_save_load.cpp:855-872 | the decoding loop gives `Decoded` of the contents |
| Persistence.DecodeStep | test_save_load.cpp:856-871 | one step consumes at least one character, and decoding the rest completes decoding from that step |
| Persistence.DecodeAt | test_save_load.cpp:856-871 | one round of the loop appends and advances as `DecodeStep` says |
| Persistence.SaveLoadText | test_save_load.cpp:815-872 | decoding what the save escaped gives the contents back, except that byte 0x19 comes back as 0x1F |
| Persistence.SaveLoadExact | test_save_load.cpp:815-872 | contents without byte 0x19 come back exactly |
| Persistence.OctalSavedAsEscape | test_save_load.cpp:823 | byte 0x19 (`'\031'`) is written as `\x1f` and loads back as 0x1F |
| Persistence.EscapedJoin | test_save_load.cpp:815-826 | escaping distributes over concatenation |
| Persistence.UnitWrittenRaw | test_save_load.cpp:815-826 | the escaped text holds the delimiter 0x1F exactly when the contents do |
| Persistence.UnknownEscape | test_save_load.cpp:867 | an escape of an unknown character stands for that character |
| Persistence.LooseHexEscape | test_save_load.cpp:861-866 | `\x` without `1f` after it loses the backslash and reads on from the `x` |
| Persistence.TrailingBackslash | test_save_load.cpp:856-871 | a backslash at the very end is kept |
| Persistence.EscapeString | test_save_load.cpp:775-786 | the loop gives `QuoteEscaped`: backslash, quote and newline escaped |
| Persistence.UnescapeString | test_save_load.cpp:788-807 | the loop with its flag gives `QuoteUnescaped` |
| Persistence.QuoteRoundTrip | test_save_load.cpp:775-807 | `unescapeString` undoes `escapeString` |
| Persistence.QuoteEscapedOneLine | test_save_load.cpp:775-786 | `escapeString` leaves no raw newline |
| Persistence.DanglingBackslashDropped | test_save_load.cpp:791-806 | a backslash with nothing after it is dropped |
| Persistence.UnitAt | spreadsheet.cpp:850 | the first 0x1F, or the end: no 0x1F before it |
| Persistence.Lines | spreadsheet.cpp:850 | the lines `getline(is, line, char(31))` reads hold no 0x1F |
| Persistence.LinesOfRecord | spreadsheet.cpp:850 | a line then 0x1F is read as that line, then reading goes on after it |
| Persistence.UnitSplits | spreadsheet.cpp:850 | a 0x1F inside a cell's text cuts the text into two lines |
| Persistence.Find | spreadsheet.cpp:854-855 | `std::string::find` gives the first occurrence from the start position, or npos when there is none |
| Persistence.RecordLineUnitFree | spreadsheet.cpp:837 | a record holds 0x1F only where its address text or cell text does |
| Persistence.MarkersApart | spreadsheet.cpp:854-862 | `BUNK` and `CONT` cannot overlap |
| Persistence.FindIs | spreadsheet.cpp:854-855 | an occurrence with none before it is what `find` returns |
| Persistence.RecordReadBack | spreadsheet.cpp:854-863 | a saved record reads back as its address text and cell text, unless the address text holds `CONT` |
| Persistence.ContColumnMisread | spreadsheet.cpp:854-863 | an address text starting with column `CONT` is cut there: the address read is empty |
| Sheet.Store | spreadsheet.cpp:824 | `page[pos] = cell` keeps every other entry, replaces the cell at pos's coordinates, and keeps the first-stored address text |
| Sheet.StoreNew | spreadsheet.cpp:824 | a new entry takes pos's address text |
| Sheet.DecodeKeepsText | spreadsheet.cpp:666 | a `CPos` keeps the text it was read from |
| Sheet.Least | spreadsheet.cpp:752-756 | the least key in row-major order |
| Sheet.LessTransitive | spreadsheet.cpp:752-756 | `CPos::operator<` is transitive |
| Sheet.Ordered | spreadsheet.cpp:830 | the map's iteration order: every key once, strictly increasing by `operator<` |
| Sheet.Delta | spreadsheet.cpp:877-878 | the difference of two unsigned numbers read as `int`, equal to the plain difference when that fits |
| Sheet.StageOne | spreadsheet.cpp:884-909 | a present source is rebuilt at the destination from its (rebased) text; an absent one over a present destination stages a blank; otherwise nothing; only the destination changes |
| Sheet.Commit | spreadsheet.cpp:914-916 | the committed page has the old keys plus the staged ones, staged cells where staged, and old entries elsewhere |
| Sheet.CommitMore | spreadsheet.cpp:914-916 | committing one more staged entry is storing it over what has been committed so far |
| Sheet.LoadOne | spreadsheet.cpp:850-871 | a line that stops the load, or throws, leaves the page unchanged |
| Sheet.StageOneEntries | spreadsheet.cpp:884-909 | one pair changes at most its destination's entry, and only to the cell `PairCell` gives |
| Sheet.CopyReadsOldPage | spreadsheet.cpp:875-918 | every committed entry is the destination of a pair in the rectangle and holds the cell rebuilt from the old page; every other entry is unchanged |
| Sheet.CopyKeepsOutside | spreadsheet.cpp:875-918 | an address outside the destination rectangle keeps its entry or its absence |
| Sheet.LoadAppend | spreadsheet.cpp:850-872 | loading a + b is loading a, then b over the page it left, unless a stopped the load |
| Sheet.BadLineStops | spreadsheet.cpp:856-860 | a line without `BUNK` … `CONT` makes `load` return false, with the earlier records stored and nothing after it read |
| Sheet.LoadKeepsEntries | spreadsheet.cpp:847-873 | `load` never removes an entry nor changes the address text it was stored under |
| Sheet.SavedLines | spreadsheet.cpp:828-845 | `getline` reads back one line per saved record, in key order |
| Sheet.LoadRecords | spreadsheet.cpp:847-873 | loading the records of the keys stores each entry back as it was |
| Sheet.SaveLoadRoundTrip | spreadsheet.cpp:828-873 | `load` of what `save` wrote, into an empty page, returns true and gives back the page, for entries that reload (the same holds for the escaping variant, test_save_load.cpp:810-881) |
| Sheet.RoundTripOver | spreadsheet.cpp:828-873 | the same round trip over any increasing key order that lists every entry |
| Sheet.FillAll | spreadsheet.cpp:865-866 | storing every entry of a page into an empty one gives back the page |
| Sheet.Spreadsheet.constructor | spreadsheet.cpp:770 | a new spreadsheet has an empty page |
| Sheet.Spreadsheet.SetCell | spreadsheet.cpp:812-826 | true exactly when the cell builds; then the entry at pos is stored, otherwise nothing changes |
| Sheet.Spreadsheet.GetValue | spreadsheet.cpp:804-810 | the method gives exactly `Evaluation.GetValue` on the page: empty outside the page or on a reported cycle, the cell's value otherwise, or the cycle check's exception |
| Sheet.Spreadsheet.DfsCycleCheck | spreadsheet.cpp:780-802 | the recursive method gives exactly `Dfs`, whose soundness `DfsSound` proves |
| Sheet.Spreadsheet.SearchRefs | spreadsheet.cpp:788-798 | the reference loop gives exactly `DfsRefs` |
| Sheet.Spreadsheet.CopyRect | spreadsheet.cpp:875-918 | the page becomes the old page with every staged pair committed, or stays as it was when an address throws |
| Sheet.Spreadsheet.StageRect | spreadsheet.cpp:880-912 | the row loop stages exactly what `StageRows` says |
| Sheet.Spreadsheet.StageLine | spreadsheet.cpp:882-911 | the column loop stages exactly what `StageRow` says |
| Sheet.Spreadsheet.StageCell | spreadsheet.cpp:884-910 | one pair is staged as `StageAt` says |
| Sheet.Spreadsheet.CommitAll | spreadsheet.cpp:914-916 | the commit loop gives exactly `Commit` of the staged entries |
| Sheet.Spreadsheet.Save | spreadsheet.cpp:828-845 | the text written is one record per entry in key order, raw or escaped (test_save_load.cpp:810-835) |
| Sheet.Spreadsheet.WriteRecords | spreadsheet.cpp:830-843 | the loop writes the records of the keys in the order given |
| Sheet.Spreadsheet.WriteRecord | spreadsheet.cpp:837 | one record: `BUNK`, the address text, `CONT`, the cell text, 0x1F |
| Sheet.Spreadsheet.Load | spreadsheet.cpp:847-873 | the page and the answer are exactly those of `LoadLines` over the lines read (escaping variant: test_save_load.cpp:836-881) |
| Sheet.Spreadsheet.LoadRecord | spreadsheet.cpp:852-871 | one round of the loop is `LoadOne` |
| CycleDetect.UniverseShut | test_content_parse.cpp:101-103 | the ids reachable from the map are closed under references |
| CycleDetect.NoCycleFromFinished | test_content_parse.cpp:93-95 | no cycle can be reached from an id whose search has finished |
| CycleDetect.CycleClosed | test_content_parse.cpp:90-92 | a reference back into the recursion stack closes a real cycle |
| CycleDetect.WalkDescends | test_content_parse.cpp:89-111 | along a walk from a finished id every id has finished, each before the one referencing it |
| CycleDetect.Spreadsheet.constructor | test_content_parse.cpp:73 | a detector over the given cells |
| CycleDetect.Spreadsheet.DetectCycles | test_content_parse.cpp:74-86 | true exactly when a cycle is reachable from a formula cell; old cells are unchanged and only default cells are added |
| CycleDetect.Spreadsheet.IsCyclic | test_content_parse.cpp:89-111 | an id on the stack answers true at once, and one already visited and off the stack answers false at once, both with nothing changed; true only for a real cycle from the root; on false the id has finished, the stack is as before, and the finished ids stay closed |
| CycleDetect.Spreadsheet.Visit | test_content_parse.cpp:97-110 | an unvisited id is pushed, its references are searched, and it is popped as finished on a clean return |
| CycleDetect.Spreadsheet.SearchReferences | test_content_parse.cpp:101-106 | every reference searched without a cycle has finished |
| CycleDetect.ExampleIsCyclic | test_content_parse.cpp:124-138 | the test's chain A1 → B1 → C1 → A1 is a cycle reachable from a formula cell |

## Left out

- Evaluation.Dfs: the cycle check is proved exact (Evaluation.CycleCheckExact), but only over
  the graph of the scanned reference sets. The scan misses `$`-anchored columns, so a cycle
  through such a reference is neither in that graph nor reported
  (Evaluation.AnchoredSelfReferenceNeverFinishes).
- Evaluation.GetValue, Evaluation.CellValue, Evaluation.Eval: these take fuel. `OutOfFuel`
  stands for a read that would not finish. The source recurses without bound, for instance
  through `=$A1`.
- Sheet.Spreadsheet.GetValue: it is modelled through the fuelled functions, so a run that
  would overflow the C++ stack is `OutOfFuel` here.
- Floating point: `double` is `real`. `pow`, `std::to_string(double)` and `std::stod` are
  uninterpreted parameters, so rounding and NaN are not modelled.
- Values.Div: real division is exact. `Division` evaluates its right operand a second time,
  and `Negative` its operand. The second evaluation gives the same value, because evaluation
  has no side effects, so the model evaluates each operand once.
- `parseExpression` is not part of this model. A parse is the sequence of callbacks it issues,
  or a rejection.
- Builder.ExprBuilder.OpBinary, Builder.ExprBuilder.OpNeg: these require enough operands.
  `std::stack::top` on an empty stack is undefined behaviour. The callback semantics `Step`
  treats it as an aborted build.
- Stream I/O: `save` and `load` work on strings. A failing `ostream`, the `std::cerr` messages
  and a stream whose last record lacks 0x1F are not modelled apart from what `Lines` reads.
- Address.Decode, Address.Parse, Address.ReadColumn: the column is accumulated in an `int`
  (`spreadsheet.cpp:685`, `700-703`) and stored as `unsigned int` (`:668`). The model's column
  is an unbounded `nat`. Seven or more letters can overflow the `int`, which is undefined
  behaviour in C++, so no wrapped value is modelled.
- Rebase.UpdateFormula: `int` overflow is not modelled: not in the column accumulation
  `colIndex = colIndex * 26 + …` (`spreadsheet.cpp:561-564`, which seven or more letters can
  overflow), and not in `colIndex += deltaCol` or `rowIndex += deltaRow`. Integers are unbounded
  there, and only `std::stoi` is range-checked.
- Sheet.Delta: `unsigned int` subtraction into `int` is modelled modulo 2^32. Offsets
  (Address.AddU32) are too.
- A default `CCell()` leaves its type uninitialised. The model gives it a kind of its own,
  `Blank`, which reads as empty (the `content.index() == 0` branch). The exception for an
  unknown content type cannot arise in the model.
- CycleDetect.Spreadsheet.DetectCycles: the loop takes the original keys in an arbitrary
  order, not the map's sorted order. Cells inserted by `cells[id]` are not formulas, so they
  never start a search, and the answer does not depend on the order.
- Sheet.SaveLoadRoundTrip: requires that every entry reloads. Its address text reads back as
  its own key and holds neither `CONT` nor 0x1F. Its cell is what its text builds. A blank cell
  staged by `copyRect` has the empty text, and `load` rebuilds it as whatever `std::stod("")`
  makes of it.
- Cells.MakeCell: `std::stod` is a parameter of the model, so nothing fixes what it does with
  the empty text. The library always throws `invalid_argument` there, so a blank cell that
  `copyRect` stages is a text cell holding the empty text. The model makes that cell only for
  an `env` whose `stod("")` is `StodInvalid`.
- Sheet.CopyReadsOldPage: only one direction is proved (every committed entry comes from a
  pair). That every pair whose staging succeeds leaves an entry is not stated.
- `test.cpp`, `test2.cpp`, and the second evaluator and `copyRect` stub in
  `test_save_load.cpp` are not part of this model.
- The example test at `spreadsheet.cpp:975-1426` is not modelled beyond the lemmas above that
  restate its cases (Rebase.CopyExample, Evaluation.PlainSelfReferenceReadsEmpty).
