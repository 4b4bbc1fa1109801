/**
 * Reading a cell's value. CSpreadsheet::getValue first runs dfsCycleCheck, a depth-first
 * search over the cells' lexical reference sets that marks each address 0 (unvisited),
 * 1 (on the current path) or 2 (finished); a formula whose search meets a mark 1 reads as
 * empty. Otherwise the cell is asked for its value, and a formula evaluates its tree, each
 * Reference node asking the spreadsheet for the referenced cell's value, cycle check and all.
 *
 * The reference sets are lexical and miss `$`-anchored columns, so a cycle the search does
 * not see can make evaluation run forever: evaluation carries fuel, one unit per cell read.
 */
module Evaluation {
  import opened Strings
  import opened Address
  import opened Values
  import opened Expressions
  import opened Builder
  import opened Cells
  import CycleDetect

  /** One entry of the page: the text of the first address stored at a key, and its cell. */
  datatype Slot = Slot(code: string, cell: Cell)

  /** std::map<CPos, CCell>: addresses with equal row and column share one entry. */
  type Page = map<Coord, Slot>

  // ---------------------------------------------------------------- dfsCycleCheck

  /** The marks 0, 1 and 2 of dfsCycleCheck's state map. */
  datatype Visit = Unvisited | InProgress | Finished

  /** std::map<CPos, int>: an address never written reads as 0. */
  type Marks = map<Coord, Visit>

  function MarkOf(state: Marks, k: Coord): Visit {
    if k in state then state[k] else Unvisited
  }

  function Rank(v: Visit): nat {
    match v
    case Unvisited => 0
    case InProgress => 1
    case Finished => 2
  }

  /** The addresses of the page the search has not reached yet. */
  function Fresh(page: Page, state: Marks): set<Coord> {
    set k | k in page && MarkOf(state, k) == Unvisited
  }

  /** Marks only move forward: 0 to 1 to 2. */
  ghost predicate Progress(state: Marks, state': Marks) {
    forall k :: Rank(MarkOf(state, k)) <= Rank(MarkOf(state', k))
  }

  /** Only addresses of the page are marked. */
  ghost predicate Within(page: Page, state: Marks, state': Marks) {
    forall k :: k !in page ==> MarkOf(state', k) == MarkOf(state, k)
  }

  /** The same addresses are on the current path (mark 1) before and after. */
  ghost predicate Settled(state: Marks, state': Marks) {
    forall k :: MarkOf(state', k) == InProgress <==> MarkOf(state, k) == InProgress
  }

  /** What dfsCycleCheck returns, with its state map; CPos(refStr) may throw instead. */
  datatype Search = Search(cyclic: bool, state: Marks) | SearchThrew(error: Thrown)

  lemma FreshShrinks(page: Page, state: Marks, key: Coord)
    requires key in page && MarkOf(state, key) == Unvisited
    ensures |Fresh(page, state[key := InProgress])| < |Fresh(page, state)|
  {
    assert Fresh(page, state[key := InProgress]) == Fresh(page, state) - {key};
  }

  lemma FreshMonotone(page: Page, state: Marks, state': Marks)
    requires Progress(state, state')
    ensures |Fresh(page, state')| <= |Fresh(page, state)|
  {
    forall k | k in Fresh(page, state')
      ensures k in Fresh(page, state)
    {
      assert Rank(MarkOf(state, k)) <= Rank(MarkOf(state', k));
    }
    CycleDetect.CardLe(Fresh(page, state'), Fresh(page, state));
  }

  /**
   * dfsCycleCheck(pos, state), for a pos in the page: true at once on mark 1, false at once
   * on mark 2; otherwise mark 1, search the present cells a formula's references name, in
   * the set's order, and on a clean return mark 2. A cycle found leaves the marks as they are.
   */
  function Dfs(page: Page, key: Coord, state: Marks): (r: Search)
    requires key in page
    ensures r.Search? ==> Progress(state, r.state) && Within(page, state, r.state)
    ensures r.Search? && !r.cyclic ==> Settled(state, r.state) && MarkOf(r.state, key) == Finished
    ensures MarkOf(state, key) == InProgress ==> r == Search(true, state)
    ensures MarkOf(state, key) == Finished ==> r == Search(false, state)
    decreases |Fresh(page, state)|, 1, 0
  {
    match MarkOf(state, key)
    case InProgress => Search(true, state)
    case Finished => Search(false, state)
    case Unvisited =>
      var entered := state[key := InProgress];
      FreshShrinks(page, state, key);
      var cell := page[key].cell;
      if cell.kind == FormulaCell then
        match DfsRefs(page, cell.references, entered)
        case SearchThrew(e) => SearchThrew(e)
        case Search(found, s) =>
          Enter(page, state, key, s);
          if found then Search(true, s)
          else
            Leave(page, state, key, s);
            Search(false, s[key := Finished])
      else
        Enter(page, state, key, entered);
        Leave(page, state, key, entered);
        Search(false, entered[key := Finished])
  }

  /** Marking the address 1 on entry is itself progress, and within the page. */
  lemma Enter(page: Page, state: Marks, key: Coord, s: Marks)
    requires key in page && MarkOf(state, key) == Unvisited
    requires Progress(state[key := InProgress], s) && Within(page, state[key := InProgress], s)
    ensures Progress(state, s) && Within(page, state, s)
  {
    forall k ensures Rank(MarkOf(state, k)) <= Rank(MarkOf(s, k)) {
      assert Rank(MarkOf(state[key := InProgress], k)) <= Rank(MarkOf(s, k));
    }
    forall k | k !in page ensures MarkOf(s, k) == MarkOf(state, k) {
      assert MarkOf(s, k) == MarkOf(state[key := InProgress], k);
    }
  }

  /** Marking the address 2 on a clean return puts back the path the search started with. */
  lemma Leave(page: Page, state: Marks, key: Coord, s: Marks)
    requires key in page && MarkOf(state, key) == Unvisited
    requires Progress(state, s) && Within(page, state, s)
    requires Settled(state[key := InProgress], s)
    ensures Progress(state, s[key := Finished]) && Within(page, state, s[key := Finished])
    ensures Settled(state, s[key := Finished]) && MarkOf(s[key := Finished], key) == Finished
  {
    var t := s[key := Finished];
    forall k ensures Rank(MarkOf(state, k)) <= Rank(MarkOf(t, k)) {
      if k != key {
        assert MarkOf(t, k) == MarkOf(s, k);
      }
    }
    forall k ensures MarkOf(t, k) == InProgress <==> MarkOf(state, k) == InProgress {
      if k != key {
        assert MarkOf(t, k) == MarkOf(s, k);
        assert MarkOf(state[key := InProgress], k) == MarkOf(state, k);
      }
    }
  }

  lemma Chain(page: Page, a: Marks, b: Marks, c: Marks)
    requires Progress(a, b) && Within(page, a, b)
    requires Progress(b, c) && Within(page, b, c)
    ensures Progress(a, c) && Within(page, a, c)
    ensures Settled(a, b) && Settled(b, c) ==> Settled(a, c)
  {
    forall k ensures Rank(MarkOf(a, k)) <= Rank(MarkOf(c, k)) {
      assert Rank(MarkOf(a, k)) <= Rank(MarkOf(b, k));
    }
  }

  /** The loop over a formula's reference texts, from the given one to the last. */
  function DfsRefs(page: Page, refs: seq<string>, state: Marks): (r: Search)
    ensures r.Search? ==> Progress(state, r.state) && Within(page, state, r.state)
    ensures r.Search? && !r.cyclic ==> Settled(state, r.state)
    decreases |Fresh(page, state)|, 2, |refs|
  {
    if refs == [] then Search(false, state)
    else
      match Decode(refs[0])
      case Err(e) => SearchThrew(e)
      case Ok(p) =>
        if p.Key() !in page then DfsRefs(page, refs[1..], state)
        else
          match Dfs(page, p.Key(), state)
          case SearchThrew(e) => SearchThrew(e)
          case Search(found, s) =>
            if found then Search(true, s)
            else
              FreshMonotone(page, state, s);
              var r := DfsRefs(page, refs[1..], s);
              if r.Search? then Chain(page, state, s, r.state); r else r
  }

  // ---------------------------------------------------------------- cycles the search reports

  /**
   * An edge of the reference graph: a is a formula cell of the page, and one of its
   * reference texts decodes to the address b, also in the page.
   */
  ghost predicate Edge(page: Page, a: Coord, b: Coord) {
    a in page && b in page && page[a].cell.kind == FormulaCell &&
    exists t :: t in page[a].cell.references && RefersTo(t, b)
  }

  predicate RefersTo(text: string, b: Coord) {
    Decode(text).Ok? && Decode(text).value.Key() == b
  }

  /** A walk along edges of the reference graph. */
  ghost predicate Walk(page: Page, w: seq<Coord>) {
    |w| >= 1 && forall i :: 0 <= i < |w| - 1 ==> Edge(page, w[i], w[i + 1])
  }

  /** The walk ends at an address it has already passed: it closes a cycle. */
  predicate Revisits(w: seq<Coord>) {
    |w| >= 1 && w[|w| - 1] in w[..|w| - 1]
  }

  /** Some walk from start returns to an address it has passed: a cycle is reachable. */
  ghost predicate CycleFrom(page: Page, start: Coord) {
    exists w :: Walk(page, w) && w[0] == start && Revisits(w)
  }

  /** The addresses on the current path are exactly those marked 1. */
  ghost predicate OnPath(state: Marks, path: seq<Coord>) {
    forall k :: MarkOf(state, k) == InProgress <==> k in path
  }

  lemma WalkExtend(page: Page, w: seq<Coord>, b: Coord)
    requires Walk(page, w) && Edge(page, w[|w| - 1], b)
    ensures Walk(page, w + [b]) && (w + [b])[0] == w[0] && (w + [b])[..|w|] == w
  {
    var w' := w + [b];
    forall i | 0 <= i < |w'| - 1
      ensures Edge(page, w'[i], w'[i + 1])
    {
      if i < |w| - 1 {
        assert w'[i] == w[i] && w'[i + 1] == w[i + 1];
      } else {
        assert w'[i] == w[|w| - 1] && w'[i + 1] == b;
      }
    }
    assert w'[..|w|] == w;
  }

  /**
   * A cycle dfsCycleCheck reports is real: started on a walk whose addresses are the ones
   * marked 1, a report of true means some walk from the same start returns to an address
   * it has passed.
   */
  lemma {:induction false} DfsSound(page: Page, key: Coord, state: Marks, path: seq<Coord>)
    requires key in page
    requires Walk(page, path + [key]) && OnPath(state, path)
    ensures Dfs(page, key, state).Search? && Dfs(page, key, state).cyclic ==>
      CycleFrom(page, (path + [key])[0])
    decreases |Fresh(page, state)|, 1, 0
  {
    var walk := path + [key];
    match MarkOf(state, key)
    case InProgress =>
      assert walk[..|walk| - 1] == path;
      assert Walk(page, walk) && Revisits(walk);
    case Finished =>
    case Unvisited =>
      var entered := state[key := InProgress];
      FreshShrinks(page, state, key);
      var cell := page[key].cell;
      if cell.kind == FormulaCell {
        assert OnPath(entered, walk);
        DfsRefsSound(page, key, cell.references, entered, walk);
      }
  }

  /** The loop of the search over some of the reference texts of the formula at owner. */
  lemma {:induction false} DfsRefsSound(page: Page, owner: Coord, refs: seq<string>, state: Marks, walk: seq<Coord>)
    requires owner in page && page[owner].cell.kind == FormulaCell
    requires forall t :: t in refs ==> t in page[owner].cell.references
    requires Walk(page, walk) && walk[|walk| - 1] == owner && OnPath(state, walk)
    ensures DfsRefs(page, refs, state).Search? && DfsRefs(page, refs, state).cyclic ==>
      CycleFrom(page, walk[0])
    decreases |Fresh(page, state)|, 2, |refs|
  {
    if refs != [] {
      assert refs[0] in refs;
      assert forall t :: t in refs[1..] ==> t in refs;
      match Decode(refs[0])
      case Err(_) =>
      case Ok(p) =>
        var b := p.Key();
        if b !in page {
          DfsRefsSound(page, owner, refs[1..], state, walk);
        } else {
          ChildSound(page, owner, refs[0], b, state, walk);
          var d := Dfs(page, b, state);
          if d.Search? && !d.cyclic {
            FreshMonotone(page, state, d.state);
            DfsRefsSound(page, owner, refs[1..], d.state, walk);
          }
      }
    }
  }

  /** One reference followed: the search at its address, one step further along the walk. */
  lemma {:induction false} ChildSound(page: Page, owner: Coord, t: string, b: Coord, state: Marks, walk: seq<Coord>)
    requires owner in page && page[owner].cell.kind == FormulaCell && b in page
    requires t in page[owner].cell.references && RefersTo(t, b)
    requires Walk(page, walk) && walk[|walk| - 1] == owner && OnPath(state, walk)
    ensures Dfs(page, b, state).Search? && Dfs(page, b, state).cyclic ==> CycleFrom(page, walk[0])
    decreases |Fresh(page, state)|, 1, 1
  {
    assert Edge(page, owner, b);
    WalkExtend(page, walk, b);
    DfsSound(page, b, state, walk);
  }

  /**
   * getValue's cycle check, started with an empty state map, reports a cycle only when a
   * walk from the cell through the reference graph returns to an address it has passed.
   */
  lemma CycleReportIsReal(page: Page, key: Coord)
    requires key in page
    requires Dfs(page, key, map[]).Search? && Dfs(page, key, map[]).cyclic
    ensures CycleFrom(page, key)
  {
    assert [] + [key] == [key];
    DfsSound(page, key, map[], []);
  }

  // ---------------------------------------------------------------- cycles the search misses: none

  /** No address marked 2 reaches a cycle. */
  ghost predicate FinishedAcyclic(page: Page, state: Marks) {
    forall k :: MarkOf(state, k) == Finished ==> !CycleFrom(page, k)
  }

  /** Dropping the first address of a walk leaves a walk. */
  lemma WalkTail(page: Page, w: seq<Coord>)
    requires Walk(page, w) && |w| >= 2
    ensures Walk(page, w[1..])
  {
    var t := w[1..];
    forall i | 0 <= i < |t| - 1
      ensures Edge(page, t[i], t[i + 1])
    {
      assert t[i] == w[i + 1] && t[i + 1] == w[i + 2];
    }
  }

  /** A cycle reachable from an address is reachable from one of the addresses it refers to. */
  lemma CycleStep(page: Page, key: Coord) returns (b: Coord)
    requires CycleFrom(page, key)
    ensures Edge(page, key, b) && CycleFrom(page, b)
  {
    var w :| Walk(page, w) && w[0] == key && Revisits(w);
    var j := RevisitIndex(w);
    b := w[1];
    assert Edge(page, key, b);
    WalkTail(page, w);
    var t := w[1..];
    if j == 0 {
      assert t[|t| - 1] == key;
      WalkExtend(page, t, b);
      Rotated(t);
      CycleWitness(page, t + [b]);
    } else {
      TailRevisits(w, j);
      CycleWitness(page, t);
    }
  }

  lemma CycleWitness(page: Page, w: seq<Coord>)
    requires Walk(page, w) && Revisits(w)
    ensures CycleFrom(page, w[0])
  {
  }

  /** Where a walk that closes a cycle passed its last address before. */
  lemma RevisitIndex(w: seq<Coord>) returns (j: nat)
    requires Revisits(w)
    ensures j < |w| - 1 && w[j] == w[|w| - 1]
  {
    var i :| 0 <= i < |w| - 1 && w[..|w| - 1][i] == w[|w| - 1];
    j := i;
  }

  lemma TailRevisits(w: seq<Coord>, j: nat)
    requires 1 <= j < |w| - 1 && w[j] == w[|w| - 1]
    ensures Revisits(w[1..])
  {
    var t := w[1..];
    assert t[..|t| - 1][j - 1] == t[|t| - 1];
  }

  lemma Rotated(t: seq<Coord>)
    requires |t| >= 1
    ensures Revisits(t + [t[0]])
  {
    var w := t + [t[0]];
    assert w[..|w| - 1][0] == w[|w| - 1];
  }

  /** An address whose successors are all finished, in a marking where finished means acyclic. */
  lemma ClosedOff(page: Page, key: Coord, state: Marks)
    requires FinishedAcyclic(page, state)
    requires forall b :: Edge(page, key, b) ==> MarkOf(state, b) == Finished
    ensures !CycleFrom(page, key)
  {
    if CycleFrom(page, key) {
      var b := CycleStep(page, key);
      assert false;
    }
  }

  lemma EnterAcyclic(page: Page, state: Marks, key: Coord)
    requires FinishedAcyclic(page, state)
    ensures FinishedAcyclic(page, state[key := InProgress])
  {
    forall k | MarkOf(state[key := InProgress], k) == Finished ensures !CycleFrom(page, k) {
      assert MarkOf(state, k) == Finished;
    }
  }

  lemma LeaveAcyclic(page: Page, state: Marks, key: Coord)
    requires FinishedAcyclic(page, state) && !CycleFrom(page, key)
    ensures FinishedAcyclic(page, state[key := Finished])
  {
    forall k | MarkOf(state[key := Finished], k) == Finished ensures !CycleFrom(page, k) {
      if k != key {
        assert MarkOf(state, k) == Finished;
      }
    }
  }

  /**
   * A clean return of dfsCycleCheck marks 2 only addresses that reach no cycle, as long as
   * the same held of the marks it started with.
   */
  lemma {:induction false} DfsComplete(page: Page, key: Coord, state: Marks)
    requires key in page && FinishedAcyclic(page, state)
    ensures Dfs(page, key, state).Search? && !Dfs(page, key, state).cyclic ==>
      FinishedAcyclic(page, Dfs(page, key, state).state)
    decreases |Fresh(page, state)|, 1, 0, 0
  {
    match MarkOf(state, key)
    case InProgress =>
    case Finished =>
    case Unvisited =>
      var entered := state[key := InProgress];
      FreshShrinks(page, state, key);
      EnterAcyclic(page, state, key);
      var cell := page[key].cell;
      if cell.kind == FormulaCell {
        DfsRefsComplete(page, cell.references, entered);
        var d := DfsRefs(page, cell.references, entered);
        if d.Search? && !d.cyclic {
          ClosedOff(page, key, d.state);
          LeaveAcyclic(page, d.state, key);
        }
      } else {
        ClosedOff(page, key, entered);
        LeaveAcyclic(page, entered, key);
      }
  }

  /** Every address of the page that one of the texts names is marked 2. */
  ghost predicate NamedFinished(page: Page, refs: seq<string>, state: Marks) {
    forall t, b :: t in refs && RefersTo(t, b) && b in page ==> MarkOf(state, b) == Finished
  }

  lemma NamedCons(page: Page, refs: seq<string>, state: Marks)
    requires refs != [] && NamedFinished(page, refs[1..], state)
    requires forall b :: RefersTo(refs[0], b) && b in page ==> MarkOf(state, b) == Finished
    ensures NamedFinished(page, refs, state)
  {
    forall t, b | t in refs && RefersTo(t, b) && b in page
      ensures MarkOf(state, b) == Finished
    {
      if t != refs[0] {
        assert t in refs[1..];
      }
    }
  }

  lemma NamedLater(page: Page, refs: seq<string>, state: Marks, state': Marks)
    requires NamedFinished(page, refs, state) && Progress(state, state')
    ensures NamedFinished(page, refs, state')
  {
    forall t, b | t in refs && RefersTo(t, b) && b in page
      ensures MarkOf(state', b) == Finished
    {
      assert Rank(MarkOf(state, b)) <= Rank(MarkOf(state', b));
    }
  }

  /** The loop of the search over reference texts: on a clean return each address named is marked 2. */
  lemma {:induction false} DfsRefsComplete(page: Page, refs: seq<string>, state: Marks)
    requires FinishedAcyclic(page, state)
    ensures DfsRefs(page, refs, state).Search? && !DfsRefs(page, refs, state).cyclic ==>
      FinishedAcyclic(page, DfsRefs(page, refs, state).state) &&
      NamedFinished(page, refs, DfsRefs(page, refs, state).state)
    decreases |Fresh(page, state)|, 2, |refs|, 1
  {
    if refs != [] {
      match Decode(refs[0])
      case Err(_) =>
      case Ok(p) =>
        if p.Key() !in page {
          DfsRefsComplete(page, refs[1..], state);
          var r := DfsRefs(page, refs[1..], state);
          assert DfsRefs(page, refs, state) == r;
          if r.Search? && !r.cyclic {
            NamedCons(page, refs, r.state);
          }
        } else {
          FollowComplete(page, refs, state);
        }
    }
  }

  /** The first text names an address of the page: the search goes there, then on. */
  lemma {:induction false} FollowComplete(page: Page, refs: seq<string>, state: Marks)
    requires FinishedAcyclic(page, state)
    requires refs != [] && Decode(refs[0]).Ok? && Decode(refs[0]).value.Key() in page
    ensures DfsRefs(page, refs, state).Search? && !DfsRefs(page, refs, state).cyclic ==>
      FinishedAcyclic(page, DfsRefs(page, refs, state).state) &&
      NamedFinished(page, refs, DfsRefs(page, refs, state).state)
    decreases |Fresh(page, state)|, 2, |refs|, 0
  {
    var b := Decode(refs[0]).value.Key();
    DfsComplete(page, b, state);
    var d := Dfs(page, b, state);
    if d.Search? && !d.cyclic {
      FreshMonotone(page, state, d.state);
      DfsRefsComplete(page, refs[1..], d.state);
      var r := DfsRefs(page, refs[1..], d.state);
      assert DfsRefs(page, refs, state) == r;
      if r.Search? && !r.cyclic {
        NamedLater(page, [refs[0]], d.state, r.state);
        NamedCons(page, refs, r.state);
      }
    }
  }

  /**
   * Against the reference graph the cells' scanned reference sets describe, getValue's cycle
   * check is exact: when it does not throw, it reports a cycle if and only if a walk from
   * the cell returns to an address it has passed.
   */
  lemma {:induction false} CycleCheckExact(page: Page, key: Coord)
    requires key in page && Dfs(page, key, map[]).Search?
    ensures Dfs(page, key, map[]).cyclic <==> CycleFrom(page, key)
  {
    if Dfs(page, key, map[]).cyclic {
      CycleReportIsReal(page, key);
    } else {
      DfsComplete(page, key, map[]);
    }
  }

  // ---------------------------------------------------------------- getValue and eval

  /** What getResult or CPos can throw while a value is read. */
  datatype Failure = EmptyExpression | BadAddress(error: Thrown)

  /** A value, an exception, or a read that would not stop within the fuel given. */
  datatype Outcome = Value(value: CValue) | Raised(failure: Failure) | OutOfFuel

  /**
   * CSpreadsheet::getValue: empty for an address not in the page or one whose cycle check
   * reports a cycle; otherwise the cell's own value.
   */
  function GetValue(env: Env, page: Page, key: Coord, fuel: nat): (r: Outcome)
    ensures key !in page ==> r == Value(Empty)
    ensures key in page && Dfs(page, key, map[]).SearchThrew? ==>
      r == Raised(BadAddress(Dfs(page, key, map[]).error))
    ensures key in page && Dfs(page, key, map[]).Search? && Dfs(page, key, map[]).cyclic ==>
      r == Value(Empty)
    ensures key in page && Dfs(page, key, map[]).Search? && !Dfs(page, key, map[]).cyclic ==>
      r == CellValue(env, page, page[key].cell, fuel)
    decreases fuel, 1, 0
  {
    if key !in page then Value(Empty)
    else
      match Dfs(page, key, map[])
      case SearchThrew(e) => Raised(BadAddress(e))
      case Search(found, _) => if found then Value(Empty) else CellValue(env, page, page[key].cell, fuel)
  }

  /**
   * CCell::getValue: a formula evaluates the top of its expression stack (getResult throws
   * on an empty stack), a number or a text is its content, a blank cell is empty. Reading a
   * formula spends one unit of fuel.
   */
  function CellValue(env: Env, page: Page, cell: Cell, fuel: nat): (r: Outcome)
    ensures cell.kind != FormulaCell ==> r.Value?
    ensures cell.kind == NumericCell || cell.kind == TextCell ==> r == Value(cell.content)
    ensures cell.kind == Blank ==> r == Value(Empty)
    ensures cell.kind == FormulaCell && Top(cell.formula).None? ==> r == Raised(EmptyExpression)
    ensures cell.kind == FormulaCell && Top(cell.formula).Some? && fuel == 0 ==> r == OutOfFuel
    decreases fuel, 0, 0
  {
    match cell.kind
    case FormulaCell =>
      (match Top(cell.formula)
       case None => Raised(EmptyExpression)
       case Some(e) => if fuel == 0 then OutOfFuel else Eval(env, page, e, fuel - 1))
    case NumericCell => Value(cell.content)
    case TextCell => Value(cell.content)
    case Blank => Value(Empty)
  }

  /**
   * Expr::eval: leaves are their values, a Reference reads the referenced cell through
   * getValue (empty when it is not in the page), and an operator node evaluates its left
   * operand, then its right one, then applies itself. An exception from either operand
   * propagates.
   */
  function Eval(env: Env, page: Page, e: Expr, fuel: nat): (r: Outcome)
    ensures Closed(e) ==> r.Value?
    ensures e.Reference? && e.pos.Key() !in page ==> r == Value(Empty)
    ensures e.Reference? && e.pos.Key() in page ==> r == GetValue(env, page, e.pos.Key(), fuel)
    decreases fuel, 2, Size(e)
  {
    match e
    case NumberLeaf(v) => Value(Number(v))
    case TextLeaf(t) => Value(Text(t))
    case Reference(p) =>
      if p.Key() !in page then Value(Empty) else GetValue(env, page, p.Key(), fuel)
    case Negative(a) =>
      (match Eval(env, page, a, fuel)
       case Value(v) => Value(Neg(v))
       case other => other)
    case Binary(op, l, r) =>
      match Eval(env, page, l, fuel)
      case Value(lv) =>
        (match Eval(env, page, r, fuel)
         case Value(rv) => Value(Apply(env.num, op, lv, rv))
         case other => other)
      case other => other
  }

  // ---------------------------------------------------------------- properties

  /** No Reference node anywhere in the tree. */
  predicate Closed(e: Expr) {
    match e
    case Reference(_) => false
    case Negative(a) => Closed(a)
    case Binary(_, l, r) => Closed(l) && Closed(r)
    case _ => true
  }

  /** A formula without references reads no cell: it always yields a value, whatever the fuel. */
  lemma {:induction false} ClosedEvaluates(env: Env, page: Page, e: Expr, fuel: nat)
    requires Closed(e)
    ensures Eval(env, page, e, fuel).Value?
    ensures forall page' :: Eval(env, page', e, fuel) == Eval(env, page, e, fuel)
  {
    match e
    case NumberLeaf(_) =>
    case TextLeaf(_) =>
    case Negative(a) =>
      ClosedEvaluates(env, page, a, fuel);
    case Binary(_, l, r) =>
      ClosedEvaluates(env, page, l, fuel);
      ClosedEvaluates(env, page, r, fuel);
  }

  /**
   * Fuel only decides whether a read finishes: once a read yields a value or throws, more
   * fuel gives the same answer.
   */
  lemma {:induction false} EvalFuel(env: Env, page: Page, e: Expr, fuel: nat, more: nat)
    requires fuel <= more
    requires !Eval(env, page, e, fuel).OutOfFuel?
    ensures Eval(env, page, e, more) == Eval(env, page, e, fuel)
    decreases fuel, 2, Size(e)
  {
    match e
    case NumberLeaf(_) =>
    case TextLeaf(_) =>
    case Reference(p) =>
      if p.Key() in page {
        GetValueFuel(env, page, p.Key(), fuel, more);
      }
    case Negative(a) =>
      EvalFuel(env, page, a, fuel, more);
    case Binary(_, l, r) =>
      EvalFuel(env, page, l, fuel, more);
      if Eval(env, page, l, fuel).Value? {
        EvalFuel(env, page, r, fuel, more);
      }
  }

  lemma {:induction false} GetValueFuel(env: Env, page: Page, key: Coord, fuel: nat, more: nat)
    requires fuel <= more
    requires !GetValue(env, page, key, fuel).OutOfFuel?
    ensures GetValue(env, page, key, more) == GetValue(env, page, key, fuel)
    decreases fuel, 1, 0
  {
    if key in page {
      var d := Dfs(page, key, map[]);
      if d.Search? && !d.cyclic {
        CellValueFuel(env, page, page[key].cell, fuel, more);
      }
    }
  }

  lemma {:induction false} CellValueFuel(env: Env, page: Page, cell: Cell, fuel: nat, more: nat)
    requires fuel <= more
    requires !CellValue(env, page, cell, fuel).OutOfFuel?
    ensures CellValue(env, page, cell, more) == CellValue(env, page, cell, fuel)
    decreases fuel, 0, 0
  {
    if cell.kind == FormulaCell && Top(cell.formula).Some? {
      EvalFuel(env, page, Top(cell.formula).value, fuel - 1, more - 1);
    }
  }

  // ---------------------------------------------------------------- a cycle seen, a cycle missed

  const A1: Coord := Coord(1, 1)

  lemma DecodeA1()
    ensures Decode("A1") == Ok(Pos(1, 1, true, true, "A1"))
  {
    RowOne();
    DecodeParts(false, "A", false, "1", 1);
    Joined(false, "A1");
  }

  lemma DecodeAnchoredA1()
    ensures Decode("$A1") == Ok(Pos(1, 1, true, false, "$A1"))
  {
    RowOne();
    DecodeParts(true, "A", false, "1", 1);
    Joined(true, "$A1");
  }

  lemma Joined(absCol: bool, str: string)
    requires str == if absCol then "$A1" else "A1"
    ensures Dollar(absCol) + "A" + Dollar(false) + "1" == str
  {
    var s := Dollar(absCol) + "A" + Dollar(false) + "1";
    assert |s| == |str|;
    forall i | 0 <= i < |s| ensures s[i] == str[i] {
    }
  }

  lemma RowOne()
    ensures Stoi("1") == Parsed(1, 1) && ColumnValue("A") == 1 && Wrap32(1) == 1
  {
    assert NatToString(1) == "1";
    StoiNatToString(1);
  }

  /**
   * A1 holding `=A1`: the reference set names A1, the cycle check meets A1 while it is
   * marked 1, and the value reads as empty.
   */
  lemma PlainSelfReferenceReadsEmpty(env: Env, page: Page, fuel: nat)
    requires env.parse("=A1") == Callbacks([ReferenceValue("A1")])
    requires A1 in page && MakeCell(env, "=A1") == Some(page[A1].cell)
    ensures Dfs(page, A1, map[]) == Search(true, map[A1 := InProgress])
    ensures GetValue(env, page, A1, fuel) == Value(Empty)
  {
    PlainReferenceRecorded();
    DecodeA1();
    SingleReferenceCell(env, "=A1", "A1");
    SelfCycle(page, A1, "A1", map[]);
    assert map[][A1 := InProgress] == map[A1 := InProgress];
  }

  lemma SelfCycle(page: Page, key: Coord, text: string, state: Marks)
    requires key in page && page[key].cell.kind == FormulaCell && page[key].cell.references == [text]
    requires Decode(text).Ok? && Decode(text).value.Key() == key && MarkOf(state, key) == Unvisited
    ensures Dfs(page, key, state) == Search(true, state[key := InProgress])
  {
    FirstReferenceOnStack(page, key, text, page[key].cell.references, state[key := InProgress]);
  }

  /** A search whose first reference leads back to an address in progress reports a cycle at once. */
  lemma FirstReferenceOnStack(page: Page, key: Coord, text: string, refs: seq<string>, state: Marks)
    requires key in page && MarkOf(state, key) == InProgress
    requires |refs| > 0 && refs[0] == text && Decode(text).Ok? && Decode(text).value.Key() == key
    ensures DfsRefs(page, refs, state) == Search(true, state)
  {
  }

  /**
   * A1 holding `=$A1`: the reference set is empty, so the cycle check passes, and reading
   * the value reads A1 again, without end: no fuel is enough.
   */
  lemma AnchoredSelfReferenceNeverFinishes(env: Env, page: Page, fuel: nat)
    requires env.parse("=$A1") == Callbacks([ReferenceValue("$A1")])
    requires A1 in page && MakeCell(env, "=$A1") == Some(page[A1].cell)
    ensures GetValue(env, page, A1, fuel) == OutOfFuel
  {
    AnchoredCell(env);
    SelfLoop(env, page, fuel);
  }

  const AnchoredA1: Pos := Pos(1, 1, true, false, "$A1")

  lemma AnchoredCell(env: Env)
    requires env.parse("=$A1") == Callbacks([ReferenceValue("$A1")])
    ensures MakeCell(env, "=$A1") == Some(Cell(FormulaCell, Empty, "=$A1", [], [Reference(AnchoredA1)]))
  {
    AnchoredColumnExamples();
    DecodeAnchoredA1();
    SingleReferenceCell(env, "=$A1", "$A1");
  }

  lemma {:induction false} SelfLoop(env: Env, page: Page, fuel: nat)
    requires A1 in page && page[A1].cell == Cell(FormulaCell, Empty, "=$A1", [], [Reference(AnchoredA1)])
    ensures GetValue(env, page, A1, fuel) == OutOfFuel
  {
    var cell := page[A1].cell;
    assert DfsRefs(page, [], map[A1 := InProgress]).Search?;
    assert Dfs(page, A1, map[]).Search? && !Dfs(page, A1, map[]).cyclic;
    assert GetValue(env, page, A1, fuel) == CellValue(env, page, cell, fuel);
    if fuel > 0 {
      SelfLoop(env, page, fuel - 1);
      assert Eval(env, page, Reference(AnchoredA1), fuel - 1) == GetValue(env, page, A1, fuel - 1);
    }
  }
}
