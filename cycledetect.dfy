/**
 * The cycle detector of the content-parsing variant of CSpreadsheet: cells keyed by their
 * address text, each with the set of address texts it references. detectCycles runs
 * isCyclic from every formula cell, with one visited set shared by all the runs and a
 * recursion stack; isCyclic reads a referenced cell through cells[id], which inserts a
 * default cell for an id the map does not hold.
 */
module CycleDetect {
  /** CCell::Type; a value-initialised CCell has the first, NUMERIC. */
  datatype Kind = Numeric | Text | Formula

  /** CCell: its type and its references, in the std::set's order. */
  datatype Cell = Cell(kind: Kind, references: seq<string>)

  /** What cells[id] inserts for an id the map does not hold. */
  const DefaultCell: Cell := Cell(Numeric, [])

  /** The ids a cell references; none for an id the map does not hold. */
  function Refs(cells: map<string, Cell>, id: string): seq<string> {
    if id in cells then cells[id].references else []
  }

  /** after holds every entry of before unchanged, and only default cells besides. */
  ghost predicate Extends(before: map<string, Cell>, after: map<string, Cell>) {
    (forall id :: id in before ==> id in after && after[id] == before[id]) &&
    (forall id :: id in after && id !in before ==> after[id] == DefaultCell)
  }

  lemma ExtendsTrans(a: map<string, Cell>, b: map<string, Cell>, c: map<string, Cell>)
    requires Extends(a, b) && Extends(b, c)
    ensures Extends(a, c)
  {
  }

  /** Default cells reference nothing, so a map extending the graph has its references. */
  lemma ExtendsRefs(g: map<string, Cell>, cells: map<string, Cell>, id: string)
    requires Extends(g, cells)
    ensures Refs(cells, id) == Refs(g, id)
  {
  }

  /** Every rank was handed out before the clock. */
  ghost predicate Below(rank: map<string, nat>, clock: nat) {
    forall u :: u in rank ==> rank[u] < clock
  }

  /** Every id the graph can reach: its keys and every id they reference. */
  ghost function Universe(g: map<string, Cell>): set<string> {
    g.Keys + set id, r | id in g && r in g[id].references :: r
  }

  /** A set of ids that holds every reference of its members. */
  ghost predicate Shut(g: map<string, Cell>, ids: set<string>) {
    forall id, r :: id in ids && r in Refs(g, id) ==> r in ids
  }

  lemma UniverseShut(g: map<string, Cell>)
    ensures Shut(g, Universe(g)) && g.Keys <= Universe(g)
  {
    forall id, r | id in Universe(g) && r in Refs(g, id)
      ensures r in Universe(g)
    {
      assert id in g && r in g[id].references;
    }
  }

  /** w follows references from its first id to its last. */
  ghost predicate Walk(g: map<string, Cell>, w: seq<string>) {
    |w| > 0 && forall i :: 0 <= i < |w| - 1 ==> w[i + 1] in Refs(g, w[i])
  }

  predicate Revisits(w: seq<string>) {
    exists i, j :: 0 <= i < j < |w| && w[i] == w[j]
  }

  /** A reference cycle can be reached from root: some walk from root meets an id twice. */
  ghost predicate CycleFrom(g: map<string, Cell>, root: string) {
    exists w :: Walk(g, w) && w[0] == root && Revisits(w)
  }

  /**
   * The finished ids (visited, off the stack) are closed under references, and each
   * reference of a finished id finished before it: rank gives the order of finishing.
   */
  ghost predicate Closed(g: map<string, Cell>, visited: set<string>, recStack: set<string>, rank: map<string, nat>) {
    forall u :: u in visited && u !in recStack ==> u in rank && ClosedAt(g, visited, recStack, rank, u)
  }

  ghost predicate ClosedAt(g: map<string, Cell>, visited: set<string>, recStack: set<string>, rank: map<string, nat>, u: string)
    requires u in rank
  {
    forall v :: v in Refs(g, u) ==> v in visited && v !in recStack && v in rank && rank[v] < rank[u]
  }

  /** Pushing an unvisited id leaves the finished ids as they were. */
  lemma Push(g: map<string, Cell>, visited: set<string>, recStack: set<string>, rank: map<string, nat>, id: string)
    requires Closed(g, visited, recStack, rank) && id !in visited
    ensures Closed(g, visited + {id}, recStack + {id}, rank)
  {
    forall u | u in visited + {id} && u !in recStack + {id}
      ensures u in rank && ClosedAt(g, visited + {id}, recStack + {id}, rank, u)
    {
      assert ClosedAt(g, visited, recStack, rank, u);
    }
  }

  /** The recursion stack, grown by the id, is still the path from the root. */
  lemma PathPush(g: map<string, Cell>, root: string, path: seq<string>, recStack: set<string>, id: string)
    requires path == [] ==> id == root && recStack == {}
    requires path != [] ==> Walk(g, path) && path[0] == root && id in Refs(g, path[|path| - 1])
    requires forall x :: x in recStack <==> x in path
    ensures Walk(g, path + [id]) && (path + [id])[0] == root && (path + [id])[|path + [id]| - 1] == id
    ensures forall x :: x in recStack + {id} <==> x in path + [id]
  {
  }

  /** Popping an id whose references have all finished keeps the finished ids closed, the id ranked last. */
  lemma Pop(g: map<string, Cell>, visited: set<string>, recStack: set<string>, rank: map<string, nat>, clock: nat, id: string)
    requires Closed(g, visited, recStack, rank) && Below(rank, clock)
    requires id in visited && id in recStack
    requires forall v :: v in Refs(g, id) ==> v in visited - recStack
    ensures Closed(g, visited, recStack - {id}, rank[id := clock])
    ensures Below(rank[id := clock], clock + 1)
  {
    var rank' := rank[id := clock];
    forall u | u in visited && u !in recStack - {id}
      ensures u in rank' && ClosedAt(g, visited, recStack - {id}, rank', u)
    {
      if u != id {
        assert ClosedAt(g, visited, recStack, rank, u);
        forall v | v in Refs(g, u)
          ensures v in visited && v !in recStack - {id} && v in rank' && rank'[v] < rank'[u]
        {
          assert v in rank && v != id;
        }
      }
    }
  }

  /** What had finished, and the id just searched, are finished after a clean search. */
  lemma Finishes(done: set<string>, before: set<string>, visited: set<string>, recStack: set<string>, id: string)
    requires done <= before - recStack && before <= visited && id in visited && id !in recStack
    ensures done + {id} <= visited - recStack
  {
  }

  /** The references searched so far, as a set. */
  lemma Searched(refs: seq<string>, i: nat, done: set<string>)
    requires i <= |refs| && forall j :: 0 <= j < i ==> refs[j] in done
    ensures i < |refs| ==> forall j :: 0 <= j < i + 1 ==> refs[j] in done + {refs[i]}
    ensures i == |refs| ==> forall v :: v in refs ==> v in done
  {
  }

  lemma CardLess(a: set<string>, b: set<string>)
    requires a < b
    ensures |a| < |b|
  {
    var x :| x in b && x !in a;
    assert a <= b - {x};
    CardLe(a, b - {x});
  }

  lemma CardLe<T>(a: set<T>, b: set<T>)
    requires a <= b
    ensures |a| <= |b|
  {
    if a != {} {
      var x :| x in a;
      CardLe(a - {x}, b - {x});
    }
  }

  /** Along a walk from a finished id, every id is finished and finished before the one referencing it. */
  lemma {:induction false} WalkDescends(g: map<string, Cell>, visited: set<string>, recStack: set<string>, rank: map<string, nat>, w: seq<string>, n: nat)
    requires Closed(g, visited, recStack, rank)
    requires Walk(g, w) && w[0] in visited && w[0] !in recStack
    requires n < |w|
    ensures forall i :: 0 <= i <= n ==> w[i] in visited && w[i] !in recStack && w[i] in rank
    ensures forall i :: 0 <= i < n ==> rank[w[n]] < rank[w[i]]
  {
    if n > 0 {
      WalkDescends(g, visited, recStack, rank, w, n - 1);
      assert w[n] in Refs(g, w[n - 1]);
    }
  }

  /** No cycle can be reached from a finished id. */
  lemma NoCycleFromFinished(g: map<string, Cell>, visited: set<string>, recStack: set<string>, rank: map<string, nat>, root: string)
    requires Closed(g, visited, recStack, rank)
    requires root in visited && root !in recStack
    ensures !CycleFrom(g, root)
  {
    forall w | Walk(g, w) && w[0] == root
      ensures !Revisits(w)
    {
      forall i, j | 0 <= i < j < |w|
        ensures w[i] != w[j]
      {
        WalkDescends(g, visited, recStack, rank, w, j);
      }
    }
  }

  /** The path from the root to a reference back into it is a walk that meets an id twice. */
  lemma CycleClosed(g: map<string, Cell>, root: string, path: seq<string>, id: string)
    requires Walk(g, path) && path[0] == root
    requires id in Refs(g, path[|path| - 1]) && id in path
    ensures CycleFrom(g, root)
  {
    var w := path + [id];
    assert Walk(g, w);
    var j :| 0 <= j < |path| && path[j] == id;
    assert w[j] == w[|path|];
    assert w[0] == root && Revisits(w);
  }

  class Spreadsheet {
    var cells: map<string, Cell>

    constructor(cells: map<string, Cell>)
      ensures this.cells == cells
    {
      this.cells := cells;
    }

    /**
     * detectCycles: true exactly when a reference cycle can be reached from a formula cell.
     * The cells already in the map are left as they are; the only new ones are default cells.
     */
    method DetectCycles() returns (found: bool)
      modifies this
      ensures found <==> exists root :: root in old(cells) && old(cells)[root].kind == Formula && CycleFrom(old(cells), root)
      ensures forall id :: id in old(cells) ==> id in cells && cells[id] == old(cells)[id]
      ensures forall id :: id in cells && id !in old(cells) ==> cells[id] == DefaultCell
    {
      ghost var g := cells;
      ghost var U := Universe(g);
      UniverseShut(g);
      var todo := cells.Keys;
      var visited: set<string> := {};
      var recStack: set<string> := {};
      ghost var rank: map<string, nat> := map[];
      ghost var clock: nat := 0;
      while todo != {}
        invariant todo <= g.Keys && recStack == {}
        invariant Extends(g, cells)
        invariant visited <= U
        invariant Closed(g, visited, recStack, rank) && Below(rank, clock)
        invariant forall root :: root in g && root !in todo && g[root].kind == Formula ==> root in visited
        decreases |todo|
      {
        var key :| key in todo;
        todo := todo - {key};
        if cells[key].kind == Formula {
          var cyclic;
          cyclic, visited, recStack, rank, clock := IsCyclic(key, visited, recStack, g, U, key, [], rank, clock);
          if cyclic {
            return true;
          }
        }
      }
      forall root | root in g && g[root].kind == Formula
        ensures !CycleFrom(g, root)
      {
        NoCycleFromFinished(g, visited, recStack, rank, root);
      }
      return false;
    }

    /**
     * isCyclic: true at once for an id on the recursion stack, false at once for a visited
     * one; otherwise the id is marked visited and pushed, its cell is read through cells[id],
     * its references are searched in order, and on a clean return it is popped again.
     */
    method IsCyclic(cellId: string, visited: set<string>, recStack: set<string>,
                    ghost g: map<string, Cell>, ghost U: set<string>, ghost root: string, ghost path: seq<string>,
                    ghost rank: map<string, nat>, ghost clock: nat)
      returns (cyclic: bool, visited': set<string>, recStack': set<string>, ghost rank': map<string, nat>, ghost clock': nat)
      modifies this
      requires Extends(g, cells)
      requires Shut(g, U) && cellId in U && visited <= U
      requires recStack <= visited
      requires Closed(g, visited, recStack, rank) && Below(rank, clock)
      requires path == [] ==> cellId == root && recStack == {}
      requires path != [] ==> Walk(g, path) && path[0] == root && cellId in Refs(g, path[|path| - 1])
      requires forall id :: id in recStack <==> id in path
      ensures Extends(g, cells) && Extends(old(cells), cells)
      ensures visited <= visited' <= U
      ensures cyclic ==> CycleFrom(g, root)
      ensures !cyclic ==> recStack' == recStack && cellId in visited' && cellId !in recStack'
      ensures !cyclic ==> Closed(g, visited', recStack', rank') && Below(rank', clock')
      ensures cellId in recStack ==> cyclic && visited' == visited && cells == old(cells)
      ensures cellId in visited && cellId !in recStack ==>
        !cyclic && visited' == visited && recStack' == recStack && cells == old(cells)
      decreases |U - visited|, 1
    {
      if cellId in recStack {
        CycleClosed(g, root, path, cellId);
        return true, visited, recStack, rank, clock;
      }
      if cellId in visited {
        return false, visited, recStack, rank, clock;
      }
      cyclic, visited', recStack', rank', clock' := Visit(cellId, visited, recStack, g, U, root, path, rank, clock);
    }

    /** isCyclic past its two early returns: the id is new, so it is pushed, searched from and popped. */
    method Visit(cellId: string, visited: set<string>, recStack: set<string>,
                 ghost g: map<string, Cell>, ghost U: set<string>, ghost root: string, ghost path: seq<string>,
                 ghost rank: map<string, nat>, ghost clock: nat)
      returns (cyclic: bool, visited': set<string>, recStack': set<string>, ghost rank': map<string, nat>, ghost clock': nat)
      modifies this
      requires Extends(g, cells)
      requires Shut(g, U) && cellId in U && visited <= U && cellId !in visited
      requires recStack <= visited
      requires Closed(g, visited, recStack, rank) && Below(rank, clock)
      requires path == [] ==> cellId == root && recStack == {}
      requires path != [] ==> Walk(g, path) && path[0] == root && cellId in Refs(g, path[|path| - 1])
      requires forall id :: id in recStack <==> id in path
      ensures Extends(g, cells) && Extends(old(cells), cells)
      ensures visited <= visited' <= U
      ensures cyclic ==> CycleFrom(g, root)
      ensures !cyclic ==> recStack' == recStack && cellId in visited' && cellId !in recStack'
      ensures !cyclic ==> Closed(g, visited', recStack', rank') && Below(rank', clock')
      decreases |U - visited|, 0
    {
      visited' := visited + {cellId};
      recStack' := recStack + {cellId};
      ghost var before := cells;
      if cellId !in cells {
        cells := cells[cellId := DefaultCell];
      }
      var cell := cells[cellId];
      ghost var mid := cells;
      assert Extends(before, mid);
      ExtendsTrans(g, before, mid);
      ExtendsRefs(g, mid, cellId);
      CardLess(U - visited', U - visited);
      Push(g, visited, recStack, rank, cellId);
      PathPush(g, root, path, recStack, cellId);
      cyclic, visited', recStack', rank', clock' := SearchReferences(cellId, cell.references, visited', recStack', g, U, root, path + [cellId], rank, clock);
      ExtendsTrans(before, mid, cells);
      if !cyclic {
        Pop(g, visited', recStack', rank', clock', cellId);
        recStack' := recStack' - {cellId};
        rank' := rank'[cellId := clock'];
        clock' := clock' + 1;
      }
    }

    /** The loop of isCyclic over the references of the id on top of the stack, in order. */
    method SearchReferences(cellId: string, refs: seq<string>, visited: set<string>, recStack: set<string>,
                            ghost g: map<string, Cell>, ghost U: set<string>, ghost root: string, ghost path: seq<string>,
                            ghost rank: map<string, nat>, ghost clock: nat)
      returns (cyclic: bool, visited': set<string>, recStack': set<string>, ghost rank': map<string, nat>, ghost clock': nat)
      modifies this
      requires Shut(g, U) && cellId in U && refs == Refs(g, cellId)
      requires Extends(g, cells)
      requires visited <= U && recStack <= visited
      requires Closed(g, visited, recStack, rank) && Below(rank, clock)
      requires Walk(g, path) && path[0] == root && path[|path| - 1] == cellId
      requires forall id :: id in recStack <==> id in path
      ensures Extends(g, cells) && Extends(old(cells), cells)
      ensures visited <= visited' <= U
      ensures cyclic ==> CycleFrom(g, root)
      ensures !cyclic ==> recStack' == recStack && forall v :: v in refs ==> v in visited' - recStack'
      ensures !cyclic ==> Closed(g, visited', recStack', rank') && Below(rank', clock')
      decreases |U - visited|, 2
    {
      visited', recStack', rank', clock' := visited, recStack, rank, clock;
      ghost var done: set<string> := {};
      var i := 0;
      while i < |refs|
        invariant 0 <= i <= |refs|
        invariant Extends(g, cells) && Extends(old(cells), cells)
        invariant visited <= visited' <= U
        invariant recStack' == recStack
        invariant Closed(g, visited', recStack', rank') && Below(rank', clock')
        invariant forall j :: 0 <= j < i ==> refs[j] in done
        invariant done <= visited' - recStack'
      {
        CardLe(U - visited', U - visited);
        ghost var seen := visited';
        ghost var before := cells;
        var found;
        found, visited', recStack', rank', clock' := IsCyclic(refs[i], visited', recStack', g, U, root, path, rank', clock');
        ExtendsTrans(old(cells), before, cells);
        if found {
          return true, visited', recStack', rank', clock';
        }
        Finishes(done, seen, visited', recStack', refs[i]);
        Searched(refs, i, done);
        done := done + {refs[i]};
        i := i + 1;
      }
      Searched(refs, i, done);
      return false, visited', recStack', rank', clock';
    }
  }

  /** The example of the content-parsing test: A1 references B1, B1 references C1, C1 references A1. */
  function Example(): map<string, Cell> {
    map["A1" := Cell(Formula, ["B1"]), "B1" := Cell(Formula, ["C1"]), "C1" := Cell(Formula, ["A1"])]
  }

  /** The chain A1, B1, C1 leads back to A1: a cycle reachable from a formula cell. */
  lemma ExampleIsCyclic()
    ensures "A1" in Example() && Example()["A1"].kind == Formula && CycleFrom(Example(), "A1")
  {
    var g := Example();
    var w := ["A1", "B1", "C1", "A1"];
    assert w[1] in Refs(g, w[0]) && w[2] in Refs(g, w[1]) && w[3] in Refs(g, w[2]);
    assert Walk(g, w);
    assert w[0] == w[3];
  }
}
