/**
 * CSpreadsheet: the page of cells and the operations on it. setCell builds a cell and
 * stores it or fails; getValue runs the cycle check, then reads the cell; copyRect stages
 * every copied cell from the page as it was, then commits them all; save writes one record
 * per cell in row-major order, and load reads the records back one by one into the page as
 * it is.
 */
module Sheet {
  import opened Strings
  import opened Address
  import opened Values
  import opened Builder
  import opened Cells
  import opened Evaluation
  import opened Rebase
  import opened Persistence

  // ---------------------------------------------------------------- the map

  /**
   * page[pos] = cell on a std::map keyed by CPos: the entry with pos's row and column gets
   * the cell. A new entry keeps pos's text; an existing one keeps the text of the key it
   * was first stored under.
   */
  function Store(page: Page, pos: Pos, cell: Cell): (p: Page)
    ensures p.Keys == page.Keys + {pos.Key()}
    ensures p[pos.Key()].cell == cell
    ensures pos.Key() !in page ==> p[pos.Key()].code == pos.code
    ensures forall k :: k in page ==> p[k].code == page[k].code
    ensures forall k :: k in page && k != pos.Key() ==> p[k] == page[k]
  {
    var k := pos.Key();
    page[k := Slot(if k in page then page[k].code else pos.code, cell)]
  }

  /** A new entry takes the address text it is stored under. */
  lemma StoreNew(page: Page, pos: Pos, cell: Cell)
    requires pos.Key() !in page
    ensures Store(page, pos, cell) == page[pos.Key() := Slot(pos.code, cell)]
  {
  }

  lemma DecodeKeepsText(str: string)
    requires Decode(str).Ok?
    ensures Decode(str).value.code == str
  {
  }

  /** m is in keys and comes before every other key, in row-major order. */
  predicate IsLeast(keys: set<Coord>, m: Coord) {
    m in keys && forall k :: k in keys && k != m ==> Less(m, k)
  }

  /** The least key in row-major order. */
  function Least(keys: set<Coord>): (m: Coord)
    requires keys != {}
    ensures IsLeast(keys, m)
  {
    LeastExists(keys);
    var m :| IsLeast(keys, m);
    m
  }

  lemma LessTransitive(a: Coord, b: Coord, c: Coord)
    requires Less(a, b) && Less(b, c)
    ensures Less(a, c)
  {
  }

  lemma {:induction false} LeastExists(keys: set<Coord>)
    requires keys != {}
    ensures exists m :: IsLeast(keys, m)
    decreases |keys|
  {
    var x :| x in keys;
    if keys == {x} {
      assert IsLeast(keys, x);
    } else {
      var others := keys - {x};
      LeastExists(others);
      var m :| IsLeast(others, m);
      if Less(m, x) {
        forall k | k in keys && k != m
          ensures Less(m, k)
        {
          if k != x {
            assert k in others;
          }
        }
        assert IsLeast(keys, m);
      } else {
        assert Less(x, m);
        forall k | k in keys && k != x
          ensures Less(x, k)
        {
          if k != m {
            assert k in others;
            LessTransitive(x, m, k);
          }
        }
        assert IsLeast(keys, x);
      }
    }
  }

  /** The keys of a std::map<CPos, ...> in its iteration order: by row, then by column. */
  function Ordered(keys: set<Coord>): (s: seq<Coord>)
    ensures |s| == |keys|
    ensures forall i :: 0 <= i < |s| ==> s[i] in keys
    ensures forall k :: k in keys ==> k in s
    ensures forall i, j :: 0 <= i < j < |s| ==> Less(s[i], s[j])
    decreases |keys|
  {
    if keys == {} then []
    else
      var m := Least(keys);
      var rest := Ordered(keys - {m});
      assert forall i :: 0 <= i < |rest| ==> Less(m, rest[i]);
      [m] + rest
  }

  // ---------------------------------------------------------------- copyRect

  /** unsigned int minus unsigned int, stored in an int: the difference modulo 2^32, read as signed. */
  function Delta(a: nat, b: nat): (d: int)
    ensures IntMin <= d <= IntMax
    ensures a < Two32 && b < Two32 && IntMin <= a - b <= IntMax ==> d == a - b
  {
    var w := Wrap32(a - b);
    if w > IntMax then w - Two32 else w
  }

  /** Why copyRect stopped before its commit: an exception of CPos or std::stoi, or of the CCell constructor. */
  datatype Cause = Exception(error: Thrown) | CellThrew

  /** The staging map tmpCells so far, or why copyRect stopped. */
  datatype Staging = Staged(tmp: Page) | Stopped(cause: Cause)

  /**
   * One source and destination pair of copyRect, from the page before the copy: a present
   * source is rebuilt at the destination from its text (a formula's text rebased first);
   * an absent source over a present destination stages a blank cell; otherwise nothing.
   */
  /** The text a copied cell is rebuilt from: a formula's text rebased by the deltas, any other cell's text as it is. */
  function SourceText(cell: Cell, deltaRow: int, deltaCol: int): Result<string> {
    if cell.kind == FormulaCell then Rebased(cell.original, deltaRow, deltaCol) else Ok(cell.original)
  }

  function StageOne(env: Env, page: Page, tmp: Page, s: Pos, d: Pos, deltaRow: int, deltaCol: int): (r: Staging)
    ensures s.Key() in page ==>
      var text := SourceText(page[s.Key()].cell, deltaRow, deltaCol);
      (r.Staged? <==> text.Ok? && MakeCell(env, text.value).Some?) &&
      (r.Staged? ==> d.Key() in r.tmp && r.tmp[d.Key()].cell == MakeCell(env, text.value).value &&
                     r.tmp[d.Key()].cell.original == text.value)
    ensures s.Key() !in page && d.Key() in page ==> r == Staged(Store(tmp, d, BlankCell))
    ensures s.Key() !in page && d.Key() !in page ==> r == Staged(tmp)
    ensures r.Staged? ==> tmp.Keys <= r.tmp.Keys <= tmp.Keys + {d.Key()}
    ensures r.Staged? ==> forall k :: k in tmp && k != d.Key() ==> r.tmp[k] == tmp[k]
  {
    var sk := s.Key();
    if sk in page then
      match SourceText(page[sk].cell, deltaRow, deltaCol)
      case Err(e) => Stopped(Exception(e))
      case Ok(t) =>
        match MakeCell(env, t)
        case None => Stopped(CellThrew)
        case Some(c) => Staged(Store(tmp, d, c))
    else if d.Key() in page then Staged(Store(tmp, d, BlankCell))
    else Staged(tmp)
  }

  /** The pair at column offset col and row offset row: src.offset(col, row), then dst.offset(col, row). */
  function StageAt(env: Env, page: Page, tmp: Page, dst: Pos, src: Pos, col: int, row: int, deltaRow: int, deltaCol: int): Staging {
    match Offset(src, col, row)
    case Err(e) => Stopped(Exception(e))
    case Ok(s) =>
      match Offset(dst, col, row)
      case Err(e) => Stopped(Exception(e))
      case Ok(d) => StageOne(env, page, tmp, s, d, deltaRow, deltaCol)
  }

  /** The inner loop of copyRect: the pairs of one row, from column offset col to w - 1. */
  function StageRow(env: Env, page: Page, tmp: Page, dst: Pos, src: Pos, w: int, row: int, col: int, deltaRow: int, deltaCol: int): Staging
    decreases w - col
  {
    if col >= w then Staged(tmp)
    else
      match StageAt(env, page, tmp, dst, src, col, row, deltaRow, deltaCol)
      case Stopped(c) => Stopped(c)
      case Staged(t) => StageRow(env, page, t, dst, src, w, row, col + 1, deltaRow, deltaCol)
  }

  /** The outer loop of copyRect: the rows from row offset row to h - 1. */
  function StageRows(env: Env, page: Page, tmp: Page, dst: Pos, src: Pos, w: int, h: int, row: int, deltaRow: int, deltaCol: int): Staging
    decreases h - row
  {
    if row >= h then Staged(tmp)
    else
      match StageRow(env, page, tmp, dst, src, w, row, 0, deltaRow, deltaCol)
      case Stopped(c) => Stopped(c)
      case Staged(t) => StageRows(env, page, t, dst, src, w, h, row + 1, deltaRow, deltaCol)
  }

  /** Everything copyRect stages, from the page before the copy. */
  function CopyStaging(env: Env, page: Page, dst: Pos, src: Pos, w: int, h: int): Staging {
    StageRows(env, page, map[], dst, src, w, h, 0, Delta(dst.row, src.row), Delta(dst.col, src.col))
  }

  /** The commit of copyRect: page[pos] = cell for every staged entry. */
  function Commit(page: Page, tmp: Page): (p: Page)
    ensures p.Keys == page.Keys + tmp.Keys
    ensures forall k :: k in tmp ==> p[k].cell == tmp[k].cell
    ensures forall k :: k in page && k !in tmp ==> p[k] == page[k]
  {
    map k | k in page.Keys + tmp.Keys :: if k in tmp then Slot(if k in page then page[k].code else tmp[k].code, tmp[k].cell) else page[k]
  }

  /** One staged entry committed. */
  function CommitOne(page: Page, k: Coord, slot: Slot): Page {
    page[k := Slot(if k in page then page[k].code else slot.code, slot.cell)]
  }

  /** Committing one more staged entry is storing it over the page committed so far. */
  lemma CommitMore(page: Page, tmp: Page, done: set<Coord>, k: Coord)
    requires done <= tmp.Keys && k in tmp && k !in done
    ensures Commit(page, Part(tmp, done + {k})) == CommitOne(Commit(page, Part(tmp, done)), k, tmp[k])
  {
    assert Part(tmp, done + {k}) == Part(tmp, done)[k := tmp[k]];
    var a, b := Commit(page, Part(tmp, done)[k := tmp[k]]), CommitOne(Commit(page, Part(tmp, done)), k, tmp[k]);
    assert a.Keys == b.Keys;
    forall j | j in a.Keys
      ensures a[j] == b[j]
    {
    }
  }

  lemma CommitNone(page: Page, tmp: Page)
    ensures Commit(page, Part(tmp, {})) == page
  {
    assert Part(tmp, {}) == map[];
  }

  lemma CommitEverything(p: Page, page: Page, tmp: Page, done: set<Coord>)
    requires done == tmp.Keys && p == Commit(page, Part(tmp, done))
    ensures p == Commit(page, tmp)
  {
    assert Part(tmp, done) == tmp;
  }

  // ---------------------------------------------------------------- save and load

  /** What save writes for a cell's text: the text itself, or escaped by the escaping variant. */
  function SavedText(text: string, escaped: bool): string {
    if escaped then Escaped(text) else text
  }

  /** The record save writes for one entry, its 0x1F terminator included. */
  function RecordOf(slot: Slot, escaped: bool): string {
    RecordLine(slot.code, SavedText(slot.cell.original, escaped)) + [Unit]
  }

  /** The records of the keys from index i on, in order. */
  function SaveFrom(page: Page, keys: seq<Coord>, i: nat, escaped: bool): string
    requires i <= |keys|
    requires forall j :: 0 <= j < |keys| ==> keys[j] in page
    decreases |keys| - i
  {
    if i == |keys| then ""
    else RecordOf(page[keys[i]], escaped) + SaveFrom(page, keys, i + 1, escaped)
  }

  lemma SaveStep(page: Page, keys: seq<Coord>, i: nat, escaped: bool, out: string)
    requires i < |keys|
    requires forall j :: 0 <= j < |keys| ==> keys[j] in page
    ensures out + SaveFrom(page, keys, i, escaped) == (out + RecordOf(page[keys[i]], escaped)) + SaveFrom(page, keys, i + 1, escaped)
  {
  }

  /** save: one record per cell, in row-major order. */
  function Saved(page: Page, escaped: bool): string {
    SaveFrom(page, Ordered(page.Keys), 0, escaped)
  }

  /** How load ends: true or false with the page as it then is, or an exception of CPos with the page as it then is. */
  datatype Loaded = Loaded(ok: bool, page: Page) | LoadThrew(error: Thrown, page: Page)

  /**
   * load over the lines getline reads: an empty line is skipped; a line without BUNK or
   * CONT, or with CONT first, ends the load with false; an address text CPos rejects throws;
   * a cell setCell rejects ends the load with false; every other record is stored in turn.
   */
  function LoadLines(env: Env, page: Page, lines: seq<string>, escaped: bool): (r: Loaded)
    decreases |lines|
  {
    if lines == [] then Loaded(true, page)
    else
      var one := LoadOne(env, page, lines[0], escaped);
      if one.Loaded? && one.ok then LoadLines(env, one.page, lines[1..], escaped) else one
  }

  /** One round of load's loop; Loaded(true, _) goes on to the next line. */
  function LoadOne(env: Env, page: Page, line: string, escaped: bool): (r: Loaded)
    ensures r.Loaded? && !r.ok ==> r.page == page
    ensures r.LoadThrew? ==> r.page == page
  {
    if line == [] then Loaded(true, page)
    else
      match ParseLine(line)
      case None => Loaded(false, page)
      case Some(rec) =>
        var contents := if escaped then Decoded(rec.text) else rec.text;
        match Decode(rec.code)
        case Err(e) => LoadThrew(e, page)
        case Ok(pos) =>
          match MakeCell(env, contents)
          case None => Loaded(false, page)
          case Some(c) => Loaded(true, Store(page, pos, c))
  }

  /** The staged entries whose keys are in done. */
  function Part(tmp: Page, done: set<Coord>): Page
    requires done <= tmp.Keys
  {
    map k | k in done :: tmp[k]
  }

  // ---------------------------------------------------------------- properties of copyRect

  /** The cell a pair stages from the page before the copy: rebuilt from the source's text, or blank for an absent source. */
  function PairCell(env: Env, page: Page, sk: Coord, deltaRow: int, deltaCol: int): Option<Cell> {
    if sk in page then
      match SourceText(page[sk].cell, deltaRow, deltaCol)
      case Err(_) => None
      case Ok(t) => MakeCell(env, t)
    else Some(BlankCell)
  }

  /** k is the destination of a pair (col, row) of the rectangle, and cell is what that pair stages. */
  ghost predicate CopiedFrom(env: Env, page: Page, dst: Pos, src: Pos, w: int, h: int, deltaRow: int, deltaCol: int, k: Coord, cell: Cell) {
    exists col: nat, row: nat ::
      col < w && row < h &&
      Offset(dst, col, row).Ok? && Offset(dst, col, row).value.Key() == k &&
      Offset(src, col, row).Ok? && PairCell(env, page, Offset(src, col, row).value.Key(), deltaRow, deltaCol) == Some(cell)
  }

  /** Every staged entry is explained by a pair of the rectangle. */
  ghost predicate AllCopied(env: Env, page: Page, dst: Pos, src: Pos, w: int, h: int, deltaRow: int, deltaCol: int, tmp: Page) {
    forall k :: k in tmp ==> CopiedFrom(env, page, dst, src, w, h, deltaRow, deltaCol, k, tmp[k].cell)
  }

  /** A pair changes at most its destination's entry, and only to the cell PairCell gives. */
  lemma StageOneEntries(env: Env, page: Page, tmp: Page, s: Pos, d: Pos, deltaRow: int, deltaCol: int)
    ensures var r := StageOne(env, page, tmp, s, d, deltaRow, deltaCol);
      r.Staged? ==> forall k :: k in r.tmp ==>
        (k in tmp && r.tmp[k] == tmp[k]) || (k == d.Key() && PairCell(env, page, s.Key(), deltaRow, deltaCol) == Some(r.tmp[k].cell))
  {
  }

  lemma PairWitness(env: Env, page: Page, dst: Pos, src: Pos, w: int, h: int, deltaRow: int, deltaCol: int, col: nat, row: nat, k: Coord, cell: Cell)
    requires col < w && row < h
    requires Offset(dst, col, row).Ok? && Offset(dst, col, row).value.Key() == k
    requires Offset(src, col, row).Ok? && PairCell(env, page, Offset(src, col, row).value.Key(), deltaRow, deltaCol) == Some(cell)
    ensures CopiedFrom(env, page, dst, src, w, h, deltaRow, deltaCol, k, cell)
  {
  }

  lemma StageAtCopied(env: Env, page: Page, tmp: Page, dst: Pos, src: Pos, w: int, h: int, col: nat, row: nat, deltaRow: int, deltaCol: int)
    requires col < w && row < h
    requires AllCopied(env, page, dst, src, w, h, deltaRow, deltaCol, tmp)
    ensures var r := StageAt(env, page, tmp, dst, src, col, row, deltaRow, deltaCol);
      r.Staged? ==> AllCopied(env, page, dst, src, w, h, deltaRow, deltaCol, r.tmp)
  {
    var r := StageAt(env, page, tmp, dst, src, col, row, deltaRow, deltaCol);
    if r.Staged? && Offset(src, col, row).Ok? && Offset(dst, col, row).Ok? {
      var sp, d := Offset(src, col, row).value, Offset(dst, col, row).value;
      assert r == StageOne(env, page, tmp, sp, d, deltaRow, deltaCol);
      StageOneEntries(env, page, tmp, sp, d, deltaRow, deltaCol);
      forall k | k in r.tmp
        ensures CopiedFrom(env, page, dst, src, w, h, deltaRow, deltaCol, k, r.tmp[k].cell)
      {
        if !(k in tmp && r.tmp[k] == tmp[k]) {
          PairWitness(env, page, dst, src, w, h, deltaRow, deltaCol, col, row, k, r.tmp[k].cell);
        }
      }
    }
  }

  lemma {:induction false} StageRowCopied(env: Env, page: Page, tmp: Page, dst: Pos, src: Pos, w: int, h: int, row: nat, col: nat, deltaRow: int, deltaCol: int)
    requires row < h
    requires AllCopied(env, page, dst, src, w, h, deltaRow, deltaCol, tmp)
    ensures var r := StageRow(env, page, tmp, dst, src, w, row, col, deltaRow, deltaCol);
      r.Staged? ==> AllCopied(env, page, dst, src, w, h, deltaRow, deltaCol, r.tmp)
    decreases w - col
  {
    if col < w {
      StageAtCopied(env, page, tmp, dst, src, w, h, col, row, deltaRow, deltaCol);
      var r := StageAt(env, page, tmp, dst, src, col, row, deltaRow, deltaCol);
      if r.Staged? {
        StageRowCopied(env, page, r.tmp, dst, src, w, h, row, col + 1, deltaRow, deltaCol);
      }
    }
  }

  lemma {:induction false} StageRowsCopied(env: Env, page: Page, tmp: Page, dst: Pos, src: Pos, w: int, h: int, row: nat, deltaRow: int, deltaCol: int)
    requires AllCopied(env, page, dst, src, w, h, deltaRow, deltaCol, tmp)
    ensures var r := StageRows(env, page, tmp, dst, src, w, h, row, deltaRow, deltaCol);
      r.Staged? ==> AllCopied(env, page, dst, src, w, h, deltaRow, deltaCol, r.tmp)
    decreases h - row
  {
    if row < h {
      StageRowCopied(env, page, tmp, dst, src, w, h, row, 0, deltaRow, deltaCol);
      var r := StageRow(env, page, tmp, dst, src, w, row, 0, deltaRow, deltaCol);
      if r.Staged? {
        StageRowsCopied(env, page, r.tmp, dst, src, w, h, row + 1, deltaRow, deltaCol);
      }
    }
  }

  /**
   * copyRect reads only the page as it was before the copy: every entry it commits sits at
   * the destination of a pair (col, row) with 0 <= col < w and 0 <= row < h, and holds the
   * cell rebuilt from that pair's source in the old page (a formula's text rebased), or a
   * blank cell where that source was absent; every other entry of the page is unchanged.
   */
  lemma CopyReadsOldPage(env: Env, page: Page, dst: Pos, src: Pos, w: int, h: int)
    requires CopyStaging(env, page, dst, src, w, h).Staged?
    ensures var tmp := CopyStaging(env, page, dst, src, w, h).tmp;
      var p := Commit(page, tmp);
      (forall k :: k in tmp ==>
        k in p && CopiedFrom(env, page, dst, src, w, h, Delta(dst.row, src.row), Delta(dst.col, src.col), k, p[k].cell)) &&
      (forall k :: k !in tmp ==> (k in p <==> k in page) && (k in page ==> p[k] == page[k]))
  {
    StageRowsCopied(env, page, map[], dst, src, w, h, 0, Delta(dst.row, src.row), Delta(dst.col, src.col));
  }

  /** An address outside the destination rectangle keeps its entry, or its absence. */
  lemma CopyKeepsOutside(env: Env, page: Page, dst: Pos, src: Pos, w: int, h: int, k: Coord)
    requires CopyStaging(env, page, dst, src, w, h).Staged?
    requires forall col: nat, row: nat :: col < w && row < h && Offset(dst, col, row).Ok? ==> Offset(dst, col, row).value.Key() != k
    ensures var p := Commit(page, CopyStaging(env, page, dst, src, w, h).tmp);
      (k in p <==> k in page) && (k in page ==> p[k] == page[k])
  {
    var tmp := CopyStaging(env, page, dst, src, w, h).tmp;
    CopyReadsOldPage(env, page, dst, src, w, h);
    assert forall c :: !CopiedFrom(env, page, dst, src, w, h, Delta(dst.row, src.row), Delta(dst.col, src.col), k, c);
  }

  // ---------------------------------------------------------------- properties of save and load

  /** Loading a + b is loading a, then b over the page it left, unless a stopped the load. */
  lemma {:induction false} LoadAppend(env: Env, page: Page, a: seq<string>, b: seq<string>, escaped: bool)
    ensures var l := LoadLines(env, page, a, escaped);
      LoadLines(env, page, a + b, escaped) == if l.Loaded? && l.ok then LoadLines(env, l.page, b, escaped) else l
    decreases |a|
  {
    if a == [] {
      assert a + b == b;
    } else {
      assert (a + b)[0] == a[0] && (a + b)[1..] == a[1..] + b;
      var one := LoadOne(env, page, a[0], escaped);
      if one.Loaded? && one.ok {
        LoadAppend(env, one.page, a[1..], b, escaped);
      }
    }
  }

  /**
   * A line without the BUNK and CONT markers in order makes load return false, with the
   * records before it already stored and nothing after it read.
   */
  lemma BadLineStops(env: Env, page: Page, a: seq<string>, line: string, b: seq<string>, escaped: bool)
    requires LoadLines(env, page, a, escaped).Loaded? && LoadLines(env, page, a, escaped).ok
    requires line != [] && ParseLine(line).None?
    ensures LoadLines(env, page, a + [line] + b, escaped) == Loaded(false, LoadLines(env, page, a, escaped).page)
  {
    LoadAppend(env, page, a, [line] + b, escaped);
    assert a + [line] + b == a + ([line] + b);
  }

  /** load never removes an entry nor changes the address text an entry was stored under. */
  lemma {:induction false} LoadKeepsEntries(env: Env, page: Page, lines: seq<string>, escaped: bool)
    ensures var p := LoadLines(env, page, lines, escaped).page;
      page.Keys <= p.Keys && forall k :: k in page ==> p[k].code == page[k].code
    decreases |lines|
  {
    if lines != [] {
      var one := LoadOne(env, page, lines[0], escaped);
      if one.Loaded? && one.ok {
        LoadKeepsEntries(env, one.page, lines[1..], escaped);
      }
    }
  }

  /** The lines getline reads back from the records of keys[i..]. */
  function RecordsFrom(page: Page, keys: seq<Coord>, i: nat, escaped: bool): seq<string>
    requires i <= |keys|
    requires forall j :: 0 <= j < |keys| ==> keys[j] in page
    decreases |keys| - i
  {
    if i == |keys| then []
    else [RecordLine(page[keys[i]].code, SavedText(page[keys[i]].cell.original, escaped))] + RecordsFrom(page, keys, i + 1, escaped)
  }

  /** An entry whose record holds no 0x1F but its terminator, and whose text the escaping variant reads back. */
  predicate SavesClean(slot: Slot, escaped: bool) {
    Unit !in slot.code && Unit !in slot.cell.original && (escaped ==> Octal31 !in slot.cell.original)
  }

  /** An entry save writes so that load stores it back as it was. */
  predicate Reloads(env: Env, k: Coord, slot: Slot, escaped: bool) {
    Decode(slot.code).Ok? && Decode(slot.code).value.Key() == k &&
    !Mentions(slot.code, "CONT") && SavesClean(slot, escaped) &&
    MakeCell(env, slot.cell.original) == Some(slot.cell)
  }

  /** save writes one record per entry, each read back by getline as one line, in the order of the keys. */
  lemma {:induction false} SavedLines(page: Page, keys: seq<Coord>, i: nat, escaped: bool)
    requires i <= |keys|
    requires forall j :: 0 <= j < |keys| ==> keys[j] in page
    requires forall j :: 0 <= j < |keys| ==> SavesClean(page[keys[j]], escaped)
    ensures Lines(SaveFrom(page, keys, i, escaped)) == RecordsFrom(page, keys, i, escaped)
    decreases |keys| - i
  {
    if i < |keys| {
      var slot := page[keys[i]];
      var text := SavedText(slot.cell.original, escaped);
      if escaped {
        UnitWrittenRaw(slot.cell.original);
      }
      var line := RecordLine(slot.code, text);
      RecordLineUnitFree(slot.code, text);
      LinesOfRecord(line, SaveFrom(page, keys, i + 1, escaped));
      SavedLines(page, keys, i + 1, escaped);
    }
  }

  /** The page after storing the entries of keys[i..] over acc, one after the other. */
  function Fill(acc: Page, page: Page, keys: seq<Coord>, i: nat): Page
    requires i <= |keys|
    requires forall j :: 0 <= j < |keys| ==> keys[j] in page
    decreases |keys| - i
  {
    if i == |keys| then acc else Fill(acc[keys[i] := page[keys[i]]], page, keys, i + 1)
  }

  /** Loading the records of keys[i..] stores each entry back with its address text and its cell. */
  lemma {:induction false} LoadRecords(env: Env, acc: Page, page: Page, keys: seq<Coord>, i: nat, escaped: bool)
    requires i <= |keys|
    requires forall j :: 0 <= j < |keys| ==> keys[j] in page
    requires forall j {:trigger Reloads(env, keys[j], page[keys[j]], escaped)} :: 0 <= j < |keys| ==> Reloads(env, keys[j], page[keys[j]], escaped)
    requires forall a, b :: 0 <= a < b < |keys| ==> Less(keys[a], keys[b])
    requires forall j :: i <= j < |keys| ==> keys[j] !in acc
    ensures LoadLines(env, acc, RecordsFrom(page, keys, i, escaped), escaped) == Loaded(true, Fill(acc, page, keys, i))
    decreases |keys| - i
  {
    if i < |keys| {
      var k := keys[i];
      var slot := page[k];
      assert Reloads(env, keys[i], page[keys[i]], escaped);
      LoadFirst(env, acc, k, slot, RecordsFrom(page, keys, i + 1, escaped), escaped);
      forall j | i + 1 <= j < |keys|
        ensures keys[j] !in acc[k := slot]
      {
        assert Less(keys[i], keys[j]);
      }
      LoadRecords(env, acc[k := slot], page, keys, i + 1, escaped);
    }
  }

  /** The record of a new entry that reloads is stored back under its key, as it was. */
  lemma LoadFirst(env: Env, acc: Page, k: Coord, slot: Slot, rest: seq<string>, escaped: bool)
    requires Reloads(env, k, slot, escaped) && k !in acc
    ensures LoadLines(env, acc, [RecordLine(slot.code, SavedText(slot.cell.original, escaped))] + rest, escaped)
      == LoadLines(env, acc[k := slot], rest, escaped)
  {
    var line := RecordLine(slot.code, SavedText(slot.cell.original, escaped));
    LoadOneRecord(env, acc, k, slot, escaped);
    LoadCons(env, acc, line, rest, acc[k := slot], escaped);
  }

  /** Loading a line that stores an entry, then the rest over the page it leaves. */
  lemma LoadCons(env: Env, acc: Page, line: string, rest: seq<string>, next: Page, escaped: bool)
    requires LoadOne(env, acc, line, escaped) == Loaded(true, next)
    ensures LoadLines(env, acc, [line] + rest, escaped) == LoadLines(env, next, rest, escaped)
  {
    assert ([line] + rest)[0] == line && ([line] + rest)[1..] == rest;
  }

  lemma LoadOneRecord(env: Env, acc: Page, k: Coord, slot: Slot, escaped: bool)
    requires Reloads(env, k, slot, escaped) && k !in acc
    ensures LoadOne(env, acc, RecordLine(slot.code, SavedText(slot.cell.original, escaped)), escaped) == Loaded(true, acc[k := slot])
  {
    var text := SavedText(slot.cell.original, escaped);
    RecordReadBack(slot.code, text);
    if escaped {
      SaveLoadExact(slot.cell.original);
    }
    var pos := Decode(slot.code).value;
    DecodeKeepsText(slot.code);
    StoreNew(acc, pos, slot.cell);
  }

  lemma {:induction false} FillIs(acc: Page, page: Page, keys: seq<Coord>, i: nat)
    requires i <= |keys|
    requires forall j :: 0 <= j < |keys| ==> keys[j] in page
    ensures forall k :: k in Fill(acc, page, keys, i) <==> k in acc || k in keys[i..]
    ensures forall k :: k in keys[i..] ==> Fill(acc, page, keys, i)[k] == page[k]
    ensures forall k :: k in acc && k !in keys[i..] ==> Fill(acc, page, keys, i)[k] == acc[k]
    decreases |keys| - i
  {
    if i < |keys| {
      FillIs(acc[keys[i] := page[keys[i]]], page, keys, i + 1);
      assert keys[i..] == [keys[i]] + keys[i + 1..];
    }
  }

  /**
   * save then load: loading what save wrote into an empty page gives back the page, for
   * entries whose address text reads back as their own key, names no column CONT and holds
   * no 0x1F, and whose cell is what its text builds, with no 0x1F in the text (nor byte 25
   * in the escaping variant, which reads back as 0x1F).
   */
  lemma SaveLoadRoundTrip(env: Env, page: Page, escaped: bool)
    requires forall k {:trigger Reloads(env, k, page[k], escaped)} :: k in page ==> Reloads(env, k, page[k], escaped)
    ensures LoadLines(env, map[], Lines(Saved(page, escaped)), escaped) == Loaded(true, page)
  {
    var keys := Ordered(page.Keys);
    RoundTripOver(env, page, keys, escaped);
  }

  /** The round trip over the keys in an increasing order that lists each entry of the page. */
  lemma RoundTripOver(env: Env, page: Page, keys: seq<Coord>, escaped: bool)
    requires forall j :: 0 <= j < |keys| ==> keys[j] in page
    requires forall j {:trigger Reloads(env, keys[j], page[keys[j]], escaped)} :: 0 <= j < |keys| ==> Reloads(env, keys[j], page[keys[j]], escaped)
    requires forall a, b :: 0 <= a < b < |keys| ==> Less(keys[a], keys[b])
    requires forall k :: k in page ==> k in keys
    ensures LoadLines(env, map[], Lines(SaveFrom(page, keys, 0, escaped)), escaped) == Loaded(true, page)
  {
    forall j | 0 <= j < |keys|
      ensures SavesClean(page[keys[j]], escaped)
    {
      assert Reloads(env, keys[j], page[keys[j]], escaped);
    }
    SavedLines(page, keys, 0, escaped);
    LoadRecords(env, map[], page, keys, 0, escaped);
    FillAll(page, keys);
  }

  /** Storing every entry of the page, from an empty one, gives back the page. */
  lemma FillAll(page: Page, keys: seq<Coord>)
    requires forall j :: 0 <= j < |keys| ==> keys[j] in page
    requires forall k :: k in page ==> k in keys
    ensures Fill(map[], page, keys, 0) == page
  {
    FillIs(map[], page, keys, 0);
    assert keys[0..] == keys;
    var f := Fill(map[], page, keys, 0);
    forall k | k in keys
      ensures k in page
    {
      var j :| 0 <= j < |keys| && keys[j] == k;
    }
    SameEntries(f, page);
  }

  lemma SameEntries(a: Page, b: Page)
    requires forall k :: k in a <==> k in b
    requires forall k :: k in a ==> a[k] == b[k]
    ensures a == b
  {
  }

  // ---------------------------------------------------------------- the spreadsheet

  class Spreadsheet {
    /** std::map<CPos, CCell> page. */
    var page: Page
    /** The library and parser calls the cells make. */
    const env: Env

    constructor(env: Env)
      ensures page == map[] && this.env == env
    {
      page := map[];
      this.env := env;
    }

    /** setCell: the cell is built first; on an exception nothing changes, else the entry at pos is replaced. */
    method SetCell(pos: Pos, contents: string) returns (ok: bool)
      modifies this
      ensures ok == MakeCell(env, contents).Some?
      ensures ok ==> page == Store(old(page), pos, MakeCell(env, contents).value)
      ensures !ok ==> page == old(page)
    {
      var tmp := NewCell(env, contents);
      if tmp.None? {
        return false;
      }
      page := Store(page, pos, tmp.value);
      return true;
    }

    /** getValue: empty for an absent address or a reported cycle, else the cell's value. */
    method GetValue(pos: Pos, fuel: nat) returns (r: Evaluation.Outcome)
      ensures r == Evaluation.GetValue(env, page, pos.Key(), fuel)
    {
      var key := pos.Key();
      if key !in page {
        return Value(Empty);
      }
      var search := DfsCycleCheck(key, map[]);
      if search.SearchThrew? {
        return Raised(BadAddress(search.error));
      }
      if search.cyclic {
        return Value(Empty);
      }
      return CellValue(env, page, page[key].cell, fuel);
    }

    /** dfsCycleCheck, recursive, with its loop over a formula's reference texts. */
    method DfsCycleCheck(key: Coord, state: Marks) returns (r: Search)
      requires key in page
      ensures r == Dfs(page, key, state)
      decreases |Fresh(page, state)|, 1
    {
      var mark := MarkOf(state, key);
      if mark == InProgress {
        return Search(true, state);
      }
      if mark == Finished {
        return Search(false, state);
      }
      var entered := state[key := InProgress];
      FreshShrinks(page, state, key);
      var cell := page[key].cell;
      if cell.kind != FormulaCell {
        return Search(false, entered[key := Finished]);
      }
      var search := SearchRefs(cell.references, entered);
      if search.SearchThrew? {
        return search;
      }
      if search.cyclic {
        return search;
      }
      return Search(false, search.state[key := Finished]);
    }

    /** The loop of dfsCycleCheck over a formula's reference texts, each read back through CPos. */
    method SearchRefs(refs: seq<string>, state: Marks) returns (r: Search)
      ensures r == DfsRefs(page, refs, state)
      decreases |Fresh(page, state)|, 2
    {
      var s := state;
      var i := 0;
      assert refs[0..] == refs;
      while i < |refs|
        invariant 0 <= i <= |refs|
        invariant Progress(state, s) && Within(page, state, s)
        invariant DfsRefs(page, refs, state) == DfsRefs(page, refs[i..], s)
      {
        assert refs[i..][0] == refs[i] && refs[i..][1..] == refs[i + 1..];
        var refPos := Parse(refs[i]);
        if refPos.Err? {
          return SearchThrew(refPos.error);
        }
        var b := refPos.value.Key();
        if b in page {
          FreshMonotone(page, state, s);
          var sub := DfsCycleCheck(b, s);
          if sub.SearchThrew? || sub.cyclic {
            return sub;
          }
          Chain(page, state, s, sub.state);
          s := sub.state;
        }
        i := i + 1;
      }
      return Search(false, s);
    }

    /** copyRect: every pair staged from the page as it was, then all committed; an exception leaves the page as it was. */
    method CopyRect(dst: Pos, src: Pos, w: int, h: int) returns (thrown: Option<Cause>)
      modifies this
      ensures match CopyStaging(env, old(page), dst, src, w, h)
        case Staged(tmp) => thrown == None && page == Commit(old(page), tmp)
        case Stopped(c) => thrown == Some(c) && page == old(page)
    {
      var deltaRow := Delta(dst.row, src.row);
      var deltaCol := Delta(dst.col, src.col);
      var staged := StageRect(dst, src, w, h, deltaRow, deltaCol);
      if staged.Stopped? {
        return Some(staged.cause);
      }
      CommitAll(staged.tmp);
      return None;
    }

    /** The outer loop of copyRect, over the rows. */
    method StageRect(dst: Pos, src: Pos, w: int, h: int, deltaRow: int, deltaCol: int) returns (st: Staging)
      ensures st == StageRows(env, page, map[], dst, src, w, h, 0, deltaRow, deltaCol)
    {
      var tmp: Page := map[];
      var row := 0;
      while row < h
        invariant StageRows(env, page, map[], dst, src, w, h, 0, deltaRow, deltaCol) == StageRows(env, page, tmp, dst, src, w, h, row, deltaRow, deltaCol)
        decreases h - row
      {
        var r := StageLine(tmp, dst, src, w, row, deltaRow, deltaCol);
        if r.Stopped? {
          return r;
        }
        tmp := r.tmp;
        row := row + 1;
      }
      return Staged(tmp);
    }

    /** The inner loop of copyRect, over the columns of one row. */
    method StageLine(tmp0: Page, dst: Pos, src: Pos, w: int, row: int, deltaRow: int, deltaCol: int) returns (st: Staging)
      ensures st == StageRow(env, page, tmp0, dst, src, w, row, 0, deltaRow, deltaCol)
    {
      var tmp := tmp0;
      var col := 0;
      while col < w
        invariant StageRow(env, page, tmp0, dst, src, w, row, 0, deltaRow, deltaCol) == StageRow(env, page, tmp, dst, src, w, row, col, deltaRow, deltaCol)
        decreases w - col
      {
        var r := StageCell(tmp, dst, src, col, row, deltaRow, deltaCol);
        if r.Stopped? {
          return r;
        }
        tmp := r.tmp;
        col := col + 1;
      }
      return Staged(tmp);
    }

    /** The body of copyRect's loops: one source and destination pair. */
    method StageCell(tmp: Page, dst: Pos, src: Pos, col: int, row: int, deltaRow: int, deltaCol: int) returns (st: Staging)
      ensures st == StageAt(env, page, tmp, dst, src, col, row, deltaRow, deltaCol)
    {
      var currentSrc := Offset(src, col, row);
      if currentSrc.Err? {
        return Stopped(Exception(currentSrc.error));
      }
      var currentDst := Offset(dst, col, row);
      if currentDst.Err? {
        return Stopped(Exception(currentDst.error));
      }
      var s, d := currentSrc.value, currentDst.value;
      if s.Key() in page {
        var cell := page[s.Key()].cell;
        var text: Result<string>;
        if cell.kind == FormulaCell {
          text := UpdateFormula(cell.original, deltaRow, deltaCol);
        } else {
          text := Ok(cell.original);
        }
        if text.Err? {
          return Stopped(Exception(text.error));
        }
        var srcCell := NewCell(env, text.value);
        if srcCell.None? {
          return Stopped(CellThrew);
        }
        return Staged(Store(tmp, d, srcCell.value));
      } else if d.Key() in page {
        return Staged(Store(tmp, d, BlankCell));
      }
      return Staged(tmp);
    }

    /** The commit loop of copyRect: every staged entry stored, each over the page as it then is. */
    method CommitAll(tmp: Page)
      modifies this
      ensures page == Commit(old(page), tmp)
    {
      var rest := tmp.Keys;
      ghost var done: set<Coord> := {};
      CommitNone(page, tmp);
      while rest != {}
        invariant done + rest == tmp.Keys && done !! rest
        invariant page == Commit(old(page), Part(tmp, done))
        decreases |rest|
      {
        var k :| k in rest;
        CommitMore(old(page), tmp, done, k);
        page := CommitOne(page, k, tmp[k]);
        rest := rest - {k};
        done := done + {k};
      }
      CommitEverything(page, old(page), tmp, done);
    }

    /** save, over a string: the raw records, or the escaping variant's. */
    method Save(escaped: bool) returns (out: string)
      ensures out == Saved(page, escaped)
    {
      var keys := Ordered(page.Keys);
      out := WriteRecords(keys, escaped);
    }

    /** save's loop over the keys in the order given. */
    method WriteRecords(keys: seq<Coord>, escaped: bool) returns (out: string)
      requires forall j :: 0 <= j < |keys| ==> keys[j] in page
      ensures out == SaveFrom(page, keys, 0, escaped)
    {
      out := "";
      var i := 0;
      while i < |keys|
        invariant 0 <= i <= |keys|
        invariant out + SaveFrom(page, keys, i, escaped) == SaveFrom(page, keys, 0, escaped)
      {
        var record := WriteRecord(page[keys[i]], escaped);
        SaveStep(page, keys, i, escaped, out);
        out := out + record;
        i := i + 1;
      }
    }

    /** One round of save's loop: "BUNK", the address text, "CONT", the cell's text, then 0x1F. */
    method WriteRecord(slot: Slot, escaped: bool) returns (record: string)
      ensures record == RecordOf(slot, escaped)
    {
      var encodedContent := slot.cell.original;
      if escaped {
        encodedContent := EscapeForSave(encodedContent);
      }
      record := RecordLine(slot.code, encodedContent) + [Unit];
    }

    /** load, over a string: the raw records, or the escaping variant's with its decoder. */
    method Load(input: string, escaped: bool) returns (r: Result<bool>)
      modifies this
      ensures var l := LoadLines(env, old(page), Lines(input), escaped);
        page == l.page && r == (if l.Loaded? then Ok(l.ok) else Err(l.error))
    {
      var lines := Lines(input);
      var i := 0;
      assert lines[0..] == lines;
      while i < |lines|
        invariant 0 <= i <= |lines|
        invariant LoadLines(env, old(page), lines, escaped) == LoadLines(env, page, lines[i..], escaped)
      {
        assert lines[i..][0] == lines[i] && lines[i..][1..] == lines[i + 1..];
        var one := LoadRecord(lines[i], escaped);
        if one.LoadThrew? {
          return Err(one.error);
        }
        if !one.ok {
          return Ok(false);
        }
        i := i + 1;
      }
      return Ok(true);
    }

    /** One round of load's loop: a line skipped, rejected, or handed to setCell. */
    method LoadRecord(line: string, escaped: bool) returns (r: Loaded)
      modifies this
      ensures r == LoadOne(env, old(page), line, escaped) && page == r.page
    {
      if line == [] {
        return Loaded(true, page);
      }
      var record := ParseLine(line);
      if record.None? {
        return Loaded(false, page);
      }
      var contents := record.value.text;
      if escaped {
        contents := DecodeForLoad(contents);
      }
      var posObject := Parse(record.value.code);
      if posObject.Err? {
        return LoadThrew(posObject.error, page);
      }
      var ok := SetCell(posObject.value, contents);
      return Loaded(ok, page);
    }
  }
}

