/** The cell dependency graph (cell.cpp), held in an arena: each cell is keyed by its position and
    its two edge sets hold positions. An edge A -> B in `dependents` means B reads A's value;
    `referenced` holds the reverse edges. This module states what a well-formed arena is, what
    reachability along `dependents` means, and what the arena looks like after a committed edit. */
module Graph {
  import opened Common
  import opened Formula
  import opened Content

  /** A cell of the arena: `referenced_cells_` and `dependent_cells_` as position sets. */
  datatype Cell = Cell(content: Content, referenced: set<Position>, dependents: set<Position>)

  /** A freshly constructed Cell: Empty content and no edges. */
  const EmptyCell: Cell := Cell(Empty, {}, {})

  type Arena = map<Position, Cell>

  /** A directed graph given by successor sets. */
  type Edges = map<Position, set<Position>>

  /** The `dependents` edges of an arena. */
  ghost function DependentEdges(cells: Arena): (g: Edges)
    ensures g.Keys == cells.Keys
    ensures forall k :: k in cells ==> g[k] == cells[k].dependents
  {
    map k | k in cells :: cells[k].dependents
  }

  /** A walk of one or more nodes along edges of `g`. */
  ghost predicate IsPath(g: Edges, p: seq<Position>) {
    && |p| > 0
    && (forall i :: 0 <= i < |p| ==> p[i] in g)
    && (forall i :: 0 <= i < |p| - 1 ==> p[i + 1] in g[p[i]])
  }

  /** `b` is reachable from `a` in zero or more steps. */
  ghost predicate Reachable(g: Edges, a: Position, b: Position) {
    exists p :: IsPath(g, p) && p[0] == a && p[|p| - 1] == b
  }

  /** Every node reachable from `a`, `a` included. */
  ghost function ReachSet(g: Edges, a: Position): set<Position> {
    set b | b in g && Reachable(g, a, b)
  }

  /** Every node from which `b` is reachable, `b` included. */
  ghost function Ancestors(g: Edges, b: Position): set<Position> {
    set a | a in g && Reachable(g, a, b)
  }

  /** Every edge ends at a node of the graph. */
  ghost predicate Closed(g: Edges) {
    forall a :: a in g ==> g[a] <= g.Keys
  }

  /** No edge closes a cycle: its target never reaches its source. */
  ghost predicate Acyclic(g: Edges) {
    forall a, b :: a in g && b in g[a] ==> !Reachable(g, b, a)
  }

  // ---------------------------------------------------------------------------------------------
  // Reachability facts

  lemma ReachRefl(g: Edges, a: Position)
    requires a in g
    ensures Reachable(g, a, a)
  {
    assert IsPath(g, [a]);
  }

  /** The dependents of a cell reachable from `a` are reachable from `a` too. */
  lemma ReachSetStep(cells: Arena, a: Position, b: Position)
    requires EdgesInside(cells) && b in cells && b in ReachSet(DependentEdges(cells), a)
    ensures cells[b].dependents <= ReachSet(DependentEdges(cells), a)
  {
    var g := DependentEdges(cells);
    forall c | c in cells[b].dependents ensures c in ReachSet(g, a) {
      ReachStep(g, a, b, c);
    }
  }

  /** A non-empty slice of a walk is a walk. */
  lemma PathSlice(g: Edges, p: seq<Position>, i: int, j: int)
    requires IsPath(g, p) && 0 <= i < j <= |p|
    ensures IsPath(g, p[i..j]) && p[i..j][0] == p[i] && p[i..j][j - i - 1] == p[j - 1]
  {
    forall k | 0 <= k < j - i - 1 ensures p[i..j][k + 1] in g[p[i..j][k]] {
      assert p[i..j][k] == p[i + k] && p[i..j][k + 1] == p[i + k + 1];
    }
  }

  lemma ReachStep(g: Edges, a: Position, b: Position, c: Position)
    requires Reachable(g, a, b) && b in g && c in g[b] && c in g
    ensures Reachable(g, a, c)
  {
    var p :| IsPath(g, p) && p[0] == a && p[|p| - 1] == b;
    var q := p + [c];
    assert IsPath(g, q);
  }

  lemma ReachPrepend(g: Edges, a: Position, b: Position, c: Position)
    requires a in g && b in g[a] && Reachable(g, b, c)
    ensures Reachable(g, a, c)
  {
    var p :| IsPath(g, p) && p[0] == b && p[|p| - 1] == c;
    var q := [a] + p;
    assert IsPath(g, q);
  }

  lemma ReachTrans(g: Edges, a: Position, b: Position, c: Position)
    requires Reachable(g, a, b) && Reachable(g, b, c)
    ensures Reachable(g, a, c)
  {
    var p :| IsPath(g, p) && p[0] == a && p[|p| - 1] == b;
    var q :| IsPath(g, q) && q[0] == b && q[|q| - 1] == c;
    var r := p + q[1..];
    assert IsPath(g, r);
  }

  /** A set that holds `a` and is closed under edges holds everything `a` reaches. */
  lemma ClosedSetHoldsReach(g: Edges, s: set<Position>, a: Position, b: Position)
    requires a in s
    requires forall v, d :: v in s && v in g && d in g[v] ==> d in s
    requires Reachable(g, a, b)
    ensures b in s
  {
    var p :| IsPath(g, p) && p[0] == a && p[|p| - 1] == b;
    var i := 0;
    while i < |p| - 1
      invariant 0 <= i < |p| && p[i] in s
    {
      i := i + 1;
    }
  }

  /** A node other than `a` reached from `a` is reached from one of `a`'s successors. */
  lemma ReachThroughSuccessor(g: Edges, a: Position, b: Position)
    requires Reachable(g, a, b) && b != a
    ensures exists d :: d in g[a] && Reachable(g, d, b)
  {
    var p :| IsPath(g, p) && p[0] == a && p[|p| - 1] == b;
    var q := p[1..];
    assert IsPath(g, q);
    assert p[1] in g[a];
  }

  /** Along an edge of an acyclic graph, the set of reachable nodes strictly shrinks. */
  lemma ReachSetShrinks(g: Edges, a: Position, d: Position)
    requires Closed(g) && Acyclic(g) && a in g && d in g[a]
    ensures ReachSet(g, d) < ReachSet(g, a)
  {
    forall b | b in ReachSet(g, d) ensures b in ReachSet(g, a) {
      ReachPrepend(g, a, d, b);
    }
    ReachRefl(g, a);
    assert a in ReachSet(g, a) && a !in ReachSet(g, d);
  }

  /** Against an edge of an acyclic graph, the set of ancestors strictly shrinks. */
  lemma AncestorsShrink(g: Edges, q: Position, b: Position)
    requires Closed(g) && Acyclic(g) && q in g && b in g[q]
    ensures Ancestors(g, q) < Ancestors(g, b)
  {
    forall a | a in Ancestors(g, q) ensures a in Ancestors(g, b) {
      ReachStep(g, a, q, b);
    }
    ReachRefl(g, b);
    assert b in Ancestors(g, b) && b !in Ancestors(g, q);
  }

  /** Every node some node of `s` reaches. */
  ghost function ReachFromAll(g: Edges, s: set<Position>): set<Position> {
    set b | b in g && exists d :: d in s && Reachable(g, d, b)
  }

  lemma ReachFromAllAdd(g: Edges, s: set<Position>, d: Position)
    ensures ReachFromAll(g, s + {d}) == ReachFromAll(g, s) + ReachSet(g, d)
  {
  }

  /** What a node reaches is itself plus what its successors reach. */
  lemma ReachSetUnfold(g: Edges, a: Position)
    requires Closed(g) && a in g
    ensures ReachSet(g, a) == {a} + ReachFromAll(g, g[a])
  {
    ReachRefl(g, a);
    forall b | b in ReachSet(g, a) && b != a ensures b in ReachFromAll(g, g[a]) {
      ReachThroughSuccessor(g, a, b);
    }
    forall b | b in ReachFromAll(g, g[a]) ensures b in ReachSet(g, a) {
      var d :| d in g[a] && Reachable(g, d, b);
      ReachPrepend(g, a, d, b);
    }
  }

  /** A node without successors reaches nothing but itself. */
  lemma SinkReachesOnlyItself(g: Edges, a: Position, b: Position)
    requires a in g && g[a] == {} && Reachable(g, a, b)
    ensures b == a
  {
    if b != a {
      ReachThroughSuccessor(g, a, b);
    }
  }

  // ---------------------------------------------------------------------------------------------
  // Well-formed arenas

  /** Both edge sets of every cell name cells of the arena. */
  ghost predicate EdgesInside(cells: Arena) {
    forall a :: a in cells ==> cells[a].referenced <= cells.Keys && cells[a].dependents <= cells.Keys
  }

  /** `referenced` and `dependents` are mutual back-edges. */
  ghost predicate Mutual(cells: Arena) {
    forall a, b :: a in cells && b in cells ==>
      (b in cells[a].referenced <==> a in cells[b].dependents)
  }

  /** A cell references exactly the positions its content lists. */
  ghost predicate RefsMatchContent(cells: Arena) {
    forall a :: a in cells ==> cells[a].referenced == SeqSet(Refs(cells[a].content))
  }

  /** The arena invariant the sheet keeps between client operations. */
  ghost predicate Wf(cells: Arena) {
    && EdgesInside(cells)
    && Mutual(cells)
    && RefsMatchContent(cells)
    && Acyclic(DependentEdges(cells))
  }

  lemma WfClosed(cells: Arena)
    requires EdgesInside(cells)
    ensures Closed(DependentEdges(cells))
  {
  }

  /** The cycle Cell::HasCircularDependence looks for: some proposed position names a cell that
      `pos` reaches along `dependents` in zero or more steps. */
  ghost predicate Cyclic(cells: Arena, pos: Position, refs: seq<Position>) {
    exists q :: q in refs && q in cells && Reachable(DependentEdges(cells), pos, q)
  }

  /** Two arenas that differ at most in formula caches. */
  ghost predicate SameShape(m1: Arena, m2: Arena) {
    && m1.Keys == m2.Keys
    && forall k :: k in m1 ==>
      && m1[k].referenced == m2[k].referenced
      && m1[k].dependents == m2[k].dependents
      && InvalidateCache(m1[k].content) == InvalidateCache(m2[k].content)
  }

  lemma SameShapeTrans(m1: Arena, m2: Arena, m3: Arena)
    requires SameShape(m1, m2) && SameShape(m2, m3)
    ensures SameShape(m1, m3)
  {
  }

  /** Caches play no part in well-formedness or in the graph. */
  lemma SameShapeWf(m1: Arena, m2: Arena)
    requires SameShape(m1, m2)
    ensures DependentEdges(m1) == DependentEdges(m2)
    ensures Wf(m1) ==> Wf(m2)
  {
    assert DependentEdges(m1) == DependentEdges(m2);
    forall a | a in m2 ensures Refs(m2[a].content) == Refs(m1[a].content) {
      assert Refs(InvalidateCache(m2[a].content)) == Refs(InvalidateCache(m1[a].content));
    }
  }

  /** A removed cell that nothing links to leaves a well-formed arena behind. */
  lemma RemoveUnlinkedWf(cells: Arena, pos: Position)
    requires Wf(cells) && pos in cells
    requires cells[pos].referenced == {} && cells[pos].dependents == {}
    ensures Wf(cells - {pos})
  {
    var m := cells - {pos};
    var g := DependentEdges(cells);
    var g2 := DependentEdges(m);
    forall a | a in m ensures m[a].referenced <= m.Keys && m[a].dependents <= m.Keys {
      assert pos !in m[a].referenced && pos !in m[a].dependents;
    }
    forall a, b | a in g2 && b in g2[a] ensures !Reachable(g2, b, a) {
      if Reachable(g2, b, a) {
        var p :| IsPath(g2, p) && p[0] == b && p[|p| - 1] == a;
        assert IsPath(g, p);
        assert false;
      }
    }
  }

  /** Adding a cell without edges at a new position keeps the arena well formed. */
  lemma AddIsolatedWf(cells: Arena, pos: Position)
    requires Wf(cells) && pos !in cells
    ensures Wf(cells[pos := EmptyCell])
  {
    var m := cells[pos := EmptyCell];
    var g := DependentEdges(cells);
    WfClosed(cells);
    assert DependentEdges(m) == g[pos := {}];
    AddIsolatedAcyclic(g, pos);
  }

  /** A new node without edges closes no cycle. */
  lemma AddIsolatedAcyclic(g: Edges, pos: Position)
    requires Closed(g) && Acyclic(g) && pos !in g
    ensures Acyclic(g[pos := {}])
  {
    var g2 := g[pos := {}];
    forall a, b | a in g2 && b in g2[a] ensures !Reachable(g2, b, a) {
      assert a != pos && b != pos && a in g && b in g[a];
      if Reachable(g2, b, a) {
        var p :| IsPath(g2, p) && p[0] == b && p[|p| - 1] == a;
        NoWalkThroughIsolated(g, g2, pos, p);
        assert false;
      }
    }
  }

  /** A walk of `g` plus an isolated node `pos` that does not start at `pos` never visits it. */
  lemma NoWalkThroughIsolated(g: Edges, g2: Edges, pos: Position, p: seq<Position>)
    requires Closed(g) && pos !in g && g2 == g[pos := {}]
    requires IsPath(g2, p) && p[0] != pos
    ensures IsPath(g, p)
  {
    var i := 0;
    while i < |p|
      invariant 0 <= i <= |p|
      invariant forall j :: 0 <= j < i ==> p[j] in g
    {
      if i > 0 {
        assert p[i] in g2[p[i - 1]];
      }
      i := i + 1;
    }
  }

  // ---------------------------------------------------------------------------------------------
  // Committing an edit

  /** Cell::UpdateCellsDependence as a whole: `pos` now references exactly `refs`, every other cell
      lists `pos` as a dependent exactly when it is in `refs`, and a position of `refs` that had no
      cell gets an Empty placeholder. */
  ghost function Relink(cells: Arena, pos: Position, refs: set<Position>): (r: Arena)
    ensures r.Keys == cells.Keys + refs
  {
    map k | k in cells.Keys + refs ::
      var c := if k in cells then cells[k] else EmptyCell;
      Cell(c.content,
           if k == pos then refs else c.referenced,
           (c.dependents - {pos}) + (if k in refs then {pos} else {}))
  }

  /** Linking one more referenced position `q`, after materialising it if it has no cell, is
      relinking with `q` added. */
  lemma RelinkAdd(m: Arena, pos: Position, s: set<Position>, q: Position)
    requires pos in m
    ensures
      var n0 := Relink(m, pos, s);
      var n := if q in n0 then n0 else n0[q := EmptyCell];
      var n1 := n[pos := n[pos].(referenced := n[pos].referenced + {q})];
      n1[q := n1[q].(dependents := n1[q].dependents + {pos})] == Relink(m, pos, s + {q})
  {
    var n0 := Relink(m, pos, s);
    var n := if q in n0 then n0 else n0[q := EmptyCell];
    var n1 := n[pos := n[pos].(referenced := n[pos].referenced + {q})];
    var n2 := n1[q := n1[q].(dependents := n1[q].dependents + {pos})];
    var r := Relink(m, pos, s + {q});
    assert n2.Keys == r.Keys;
    forall k | k in r ensures n2[k] == r[k] {
      RelinkAddAt(m, pos, s, q, k);
    }
    MapsEqual(n2, r);
  }

  /** One cell of RelinkAdd. */
  lemma RelinkAddAt(m: Arena, pos: Position, s: set<Position>, q: Position, k: Position)
    requires pos in m && k in Relink(m, pos, s + {q})
    ensures
      var n0 := Relink(m, pos, s);
      var n := if q in n0 then n0 else n0[q := EmptyCell];
      var n1 := n[pos := n[pos].(referenced := n[pos].referenced + {q})];
      var n2 := n1[q := n1[q].(dependents := n1[q].dependents + {pos})];
      k in n2 && n2[k] == Relink(m, pos, s + {q})[k]
  {
    RelinkAt(m, pos, s + {q}, k);
    if k in m || k in s {
      RelinkAt(m, pos, s, k);
    }
  }

  /** One cell of a relinked arena. */
  lemma RelinkAt(cells: Arena, pos: Position, refs: set<Position>, k: Position)
    requires k in cells || k in refs
    ensures k in Relink(cells, pos, refs)
    ensures var c := if k in cells then cells[k] else EmptyCell;
      Relink(cells, pos, refs)[k] ==
        Cell(c.content, if k == pos then refs else c.referenced,
             (c.dependents - {pos}) + (if k in refs then {pos} else {}))
  {
  }

  /** Relinking a cell that has no edges to nothing changes nothing. */
  lemma RelinkUnlinked(m: Arena, pos: Position)
    requires pos in m && m[pos].referenced == {}
    requires forall k :: k in m ==> pos !in m[k].dependents
    ensures Relink(m, pos, {}) == m
  {
    var r := Relink(m, pos, {});
    assert r.Keys == m.Keys;
    forall k | k in m ensures r[k] == m[k] {
      assert m[k].dependents - {pos} == m[k].dependents;
    }
  }

  /** Unlinking a cell before relinking it changes nothing. */
  lemma RelinkAfterUnlink(m: Arena, pos: Position, u: set<Position>)
    requires pos in m
    ensures Relink(Relink(m, pos, {}), pos, u) == Relink(m, pos, u)
  {
    var l := Relink(Relink(m, pos, {}), pos, u);
    var r := Relink(m, pos, u);
    assert l.Keys == r.Keys;
    forall k | k in r ensures l[k] == r[k] {
      RelinkAfterUnlinkAt(m, pos, u, k);
    }
  }

  /** One cell of RelinkAfterUnlink. */
  lemma RelinkAfterUnlinkAt(m: Arena, pos: Position, u: set<Position>, k: Position)
    requires k in m || k in u
    ensures k in Relink(Relink(m, pos, {}), pos, u) && k in Relink(m, pos, u)
    ensures Relink(Relink(m, pos, {}), pos, u)[k] == Relink(m, pos, u)[k]
  {
    var n := Relink(m, pos, {});
    RelinkAt(n, pos, u, k);
    RelinkAt(m, pos, u, k);
    if k in m {
      RelinkAt(m, pos, {}, k);
    }
  }

  /** `pos` taken out of the dependents of every cell of `s`. */
  ghost function DropDependent(cells: Arena, pos: Position, s: set<Position>): (r: Arena)
    ensures r.Keys == cells.Keys
  {
    map k | k in cells :: if k in s then cells[k].(dependents := cells[k].dependents - {pos}) else cells[k]
  }

  lemma DropDependentStep(cells: Arena, pos: Position, s: set<Position>, q: Position)
    requires q in cells
    ensures
      var m := DropDependent(cells, pos, s);
      DropDependent(cells, pos, s + {q}) == m[q := m[q].(dependents := m[q].dependents - {pos})]
  {
    var m := DropDependent(cells, pos, s);
    var l := DropDependent(cells, pos, s + {q});
    var r := m[q := m[q].(dependents := m[q].dependents - {pos})];
    assert l.Keys == r.Keys;
    forall k | k in l ensures l[k] == r[k] {
    }
  }

  /** Dropping `pos` from the dependents of the cells it references, then forgetting those
      references, is relinking `pos` to nothing. */
  lemma UnlinkIsRelinkNothing(cells: Arena, pos: Position)
    requires pos in cells && cells[pos].referenced <= cells.Keys
    requires forall k :: k in cells ==> (pos in cells[k].dependents <==> k in cells[pos].referenced)
    ensures
      var m := DropDependent(cells, pos, cells[pos].referenced);
      m[pos := m[pos].(referenced := {})] == Relink(cells, pos, {})
  {
    var m := DropDependent(cells, pos, cells[pos].referenced);
    var l := m[pos := m[pos].(referenced := {})];
    var r := Relink(cells, pos, {});
    assert l.Keys == r.Keys;
    forall k | k in r ensures l[k] == r[k] {
    }
  }

  /** The hook applied to every cell of `s`. */
  ghost function ClearCaches(cells: Arena, s: set<Position>): (r: Arena)
    ensures SameShape(cells, r)
    ensures forall k :: k in r ==>
      r[k].content == if k in s then InvalidateCache(cells[k].content) else cells[k].content
  {
    map k | k in cells ::
      if k in s then cells[k].(content := InvalidateCache(cells[k].content)) else cells[k]
  }

  lemma ClearCachesCompose(cells: Arena, s: set<Position>, t: set<Position>)
    ensures ClearCaches(ClearCaches(cells, s), t) == ClearCaches(cells, s + t)
  {
    var l := ClearCaches(ClearCaches(cells, s), t);
    var r := ClearCaches(cells, s + t);
    forall k | k in l ensures k in r && l[k] == r[k] {
      ClearCachesAt(cells, s, k);
      ClearCachesAt(ClearCaches(cells, s), t, k);
      ClearCachesAt(cells, s + t, k);
      InvalidateCacheIdempotent(cells[k].content);
    }
    MapsEqual(l, r);
  }

  /** The cell at `pos` with its content replaced (`impl_ = std::move(temp_impl)`). */
  ghost function Replace(cells: Arena, pos: Position, c: Content): Arena
    requires pos in cells
  {
    cells[pos := cells[pos].(content := c)]
  }

  /** Replacing the content keeps the edges of a well-formed arena in place. */
  lemma ReplaceKeepsEdges(cells: Arena, pos: Position, c: Content)
    requires Wf(cells) && pos in cells
    ensures Replace(cells, pos, c).Keys == cells.Keys
    ensures Replace(cells, pos, c)[pos].referenced == cells[pos].referenced <= cells.Keys
    ensures forall k :: k in Replace(cells, pos, c) ==>
      (pos in Replace(cells, pos, c)[k].dependents <==> k in Replace(cells, pos, c)[pos].referenced)
  {
  }

  /** The arena after the content and edges of `pos` are committed. */
  ghost function Linked(cells: Arena, pos: Position, c: Content): Arena
    requires pos in cells
  {
    Relink(Replace(cells, pos, c), pos, SeqSet(Refs(c)))
  }

  /** The arena after a committed Cell::Set: content replaced, edges relinked, then every cell
      that reaches-from `pos` along `dependents` (pos included) has its cache cleared. */
  ghost function Committed(cells: Arena, pos: Position, c: Content): Arena
    requires pos in cells
  {
    var linked := Linked(cells, pos, c);
    ClearCaches(linked, ReachSet(DependentEdges(linked), pos))
  }

  /** In a well-formed arena no cell depends on itself. */
  lemma NoSelfDependent(cells: Arena, pos: Position)
    requires Wf(cells) && pos in cells
    ensures pos !in cells[pos].dependents
  {
    ReachRefl(DependentEdges(cells), pos);
  }

  /** A cell the commit does not reach has ancestors that were already cells, other than `pos`,
      and that the commit does not reach either. */
  lemma UnreachedAncestorUnreached(cells: Arena, pos: Position, c: Content, k: Position, a: Position)
    requires pos in cells && k in cells
    requires k !in ReachSet(DependentEdges(Linked(cells, pos, c)), pos)
    requires a in Ancestors(DependentEdges(Linked(cells, pos, c)), k)
    ensures a in cells && a != pos && a !in ReachSet(DependentEdges(Linked(cells, pos, c)), pos)
  {
    var g2 := DependentEdges(Linked(cells, pos, c));
    LinkedAt(cells, pos, c, k);
    if a == pos {
      assert false;
    } else if a !in cells {
      LinkedAt(cells, pos, c, a);
      assert g2[a] == {pos};
      ReachThroughSuccessor(g2, a, k);
      assert false;
    } else if a in ReachSet(g2, pos) {
      ReachTrans(g2, pos, a, k);
      assert false;
    }
  }

  /** Committing Empty to a cell leaves it with no content and no references, still read by
      the cells that read it before, and every other cell where it was. */
  lemma ClearedCell(cells: Arena, pos: Position)
    requires pos in cells && pos !in cells[pos].dependents
    ensures Committed(cells, pos, Empty).Keys == cells.Keys
    ensures Committed(cells, pos, Empty)[pos] == Cell(Empty, {}, cells[pos].dependents)
  {
    var l := Linked(cells, pos, Empty);
    assert SeqSet(Refs(Empty)) == {};
    LinkedAt(cells, pos, Empty, pos);
    assert l.Keys == cells.Keys;
    assert l[pos] == Cell(Empty, {}, cells[pos].dependents);
    ClearCachesAt(l, ReachSet(DependentEdges(l), pos), pos);
  }

  /** One cell after clearing the caches of `s`. */
  lemma ClearCachesAt(cells: Arena, s: set<Position>, k: Position)
    requires k in cells
    ensures ClearCaches(cells, s).Keys == cells.Keys
    ensures ClearCaches(cells, s)[k] ==
      if k in s then cells[k].(content := InvalidateCache(cells[k].content)) else cells[k]
  {
  }

  /** `g2` is `g` with the edges into `pos` replaced by edges from each node of `r`
      (new nodes of `r` join the graph). */
  ghost predicate LinkedFrom(g: Edges, g2: Edges, pos: Position, r: set<Position>) {
    && g2.Keys == g.Keys + r
    && forall k :: k in g2 ==>
      g2[k] == (if k in g then g[k] else {}) - {pos} + (if k in r then {pos} else {})
  }

  /** A relinked walk that never comes back to `pos` is a walk of the old graph. */
  lemma {:induction false} AvoidingWalkIsOld(g: Edges, g2: Edges, pos: Position, r: set<Position>, p: seq<Position>)
    requires Closed(g) && LinkedFrom(g, g2, pos, r)
    requires IsPath(g2, p) && p[0] in g
    requires forall i :: 1 <= i < |p| ==> p[i] != pos
    ensures IsPath(g, p)
  {
    if |p| > 1 {
      var q := p[..|p| - 1];
      assert IsPath(g2, q);
      AvoidingWalkIsOld(g, g2, pos, r, q);
      var u, v := p[|p| - 2], p[|p| - 1];
      assert u in g && v in g2[u] && v != pos;
      assert v in g[u];
      assert forall i :: 0 <= i < |p| - 1 ==> p[i] == q[i];
    }
  }

  /** What `pos` reaches after relinking, it already reached before. */
  lemma {:induction false} WalkFromPosIsOld(g: Edges, g2: Edges, pos: Position, r: set<Position>, p: seq<Position>)
    requires Closed(g) && LinkedFrom(g, g2, pos, r) && pos in g
    requires IsPath(g2, p) && p[0] == pos
    ensures Reachable(g, pos, p[|p| - 1])
    decreases |p|
  {
    if exists j :: 1 <= j < |p| && p[j] == pos {
      var j :| 1 <= j < |p| && p[j] == pos;
      var s := p[j..];
      assert IsPath(g2, s);
      WalkFromPosIsOld(g, g2, pos, r, s);
    } else {
      AvoidingWalkIsOld(g, g2, pos, r, p);
    }
  }

  /** A relinked walk from an old node other than `pos` into `pos` enters it from a node of `r`
      that the old graph already reaches from the walk's start. */
  lemma {:induction false} WalkIntoPosEntersFromRefs(g: Edges, g2: Edges, pos: Position, r: set<Position>, p: seq<Position>)
    requires Closed(g) && LinkedFrom(g, g2, pos, r)
    requires IsPath(g2, p) && p[0] in g && p[0] != pos && p[|p| - 1] == pos
    ensures exists q :: q in r && Reachable(g, p[0], q)
    decreases |p|
  {
    assert |p| >= 2;
    if p[1] == pos {
      assert p[0] in r;
      ReachRefl(g, p[0]);
    } else {
      assert p[1] in g[p[0]];
      var s := p[1..];
      assert IsPath(g2, s);
      WalkIntoPosEntersFromRefs(g, g2, pos, r, s);
      var q :| q in r && Reachable(g, p[1], q);
      ReachPrepend(g, p[0], p[1], q);
    }
  }

  /** A relinked walk from an old node other than `pos` either is an old walk, or passes through
      `pos`: it then enters `pos` from some node of `r` that the start already reached, and
      `pos` already reached its end. */
  lemma RelinkedReach(g: Edges, g2: Edges, pos: Position, r: set<Position>, b: Position, a: Position)
    requires Closed(g) && LinkedFrom(g, g2, pos, r) && pos in g
    requires b in g && b != pos && Reachable(g2, b, a)
    ensures || Reachable(g, b, a)
            || (Reachable(g, pos, a) && exists q :: q in r && Reachable(g, b, q))
  {
    var p :| IsPath(g2, p) && p[0] == b && p[|p| - 1] == a;
    if forall i :: 1 <= i < |p| ==> p[i] != pos {
      AvoidingWalkIsOld(g, g2, pos, r, p);
      assert Reachable(g, b, a);
    } else {
      var j :| 1 <= j < |p| && p[j] == pos;
      WalkThroughPos(g, g2, pos, r, p, j);
    }
  }

  /** A relinked walk from an old node other than `pos` that visits `pos` at index `j`. */
  lemma WalkThroughPos(g: Edges, g2: Edges, pos: Position, r: set<Position>, p: seq<Position>, j: int)
    requires Closed(g) && LinkedFrom(g, g2, pos, r) && pos in g
    requires IsPath(g2, p) && p[0] in g && p[0] != pos && 1 <= j < |p| && p[j] == pos
    ensures Reachable(g, pos, p[|p| - 1]) && exists q :: q in r && Reachable(g, p[0], q)
  {
    var pre, suf := p[0..j + 1], p[j..|p|];
    PathSlice(g2, p, 0, j + 1);
    assert |pre| == j + 1 && pre[0] == p[0] && pre[|pre| - 1] == pos;
    WalkIntoPosEntersFromRefs(g, g2, pos, r, pre);
    PathSlice(g2, p, j, |p|);
    assert |suf| == |p| - j && suf[|suf| - 1] == p[|p| - 1] && suf[0] == pos;
    WalkFromPosIsOld(g, g2, pos, r, suf);
  }

  /** Relinking `pos` to positions it does not reach keeps the graph acyclic. */
  lemma LinkKeepsAcyclic(g: Edges, g2: Edges, pos: Position, r: set<Position>)
    requires Closed(g) && Acyclic(g) && pos in g && LinkedFrom(g, g2, pos, r)
    requires forall q :: q in r && q in g ==> !Reachable(g, pos, q)
    ensures Closed(g2) && Acyclic(g2)
  {
    ReachRefl(g, pos);
    assert pos !in r;
    forall a, b | a in g2 && b in g2[a] ensures !Reachable(g2, b, a) {
      if b == pos {
        assert a in r;
        if Reachable(g2, pos, a) {
          var p :| IsPath(g2, p) && p[0] == pos && p[|p| - 1] == a;
          WalkFromPosIsOld(g, g2, pos, r, p);
          assert false;
        }
      } else {
        assert a in g && b in g[a];
        if Reachable(g2, b, a) {
          RelinkedReach(g, g2, pos, r, b, a);
          if Reachable(g, b, a) {
            assert false;
          } else {
            var q :| q in r && Reachable(g, b, q);
            ReachStep(g, pos, a, b);
            ReachTrans(g, pos, b, q);
            assert false;
          }
        }
      }
    }
  }

  /** One cell of the relinked arena. */
  lemma LinkedAt(cells: Arena, pos: Position, c: Content, k: Position)
    requires pos in cells && k in cells.Keys + SeqSet(Refs(c))
    ensures k in Linked(cells, pos, c)
    ensures Linked(cells, pos, c)[k].referenced ==
      if k == pos then SeqSet(Refs(c)) else if k in cells then cells[k].referenced else {}
    ensures Linked(cells, pos, c)[k].dependents ==
      (if k in cells then cells[k].dependents else {}) - {pos}
      + (if k in SeqSet(Refs(c)) then {pos} else {})
    ensures Linked(cells, pos, c)[k].content ==
      if k == pos then c else if k in cells then cells[k].content else Empty
  {
  }

  /** Relinking keeps both edge sets inside the arena. */
  lemma LinkedEdgesInside(cells: Arena, pos: Position, c: Content)
    requires Wf(cells) && pos in cells
    ensures EdgesInside(Linked(cells, pos, c))
  {
    var n := Linked(cells, pos, c);
    forall a | a in n ensures n[a].referenced <= n.Keys && n[a].dependents <= n.Keys {
      LinkedAt(cells, pos, c, a);
    }
  }

  /** Relinking keeps `referenced` and `dependents` mutual. */
  lemma LinkedMutual(cells: Arena, pos: Position, c: Content)
    requires EdgesInside(cells) && Mutual(cells) && pos in cells
    ensures Mutual(Linked(cells, pos, c))
  {
    var n := Linked(cells, pos, c);
    forall a, b | a in n && b in n
      ensures b in n[a].referenced <==> a in n[b].dependents
    {
      LinkedAt(cells, pos, c, a);
      LinkedAt(cells, pos, c, b);
      if a != pos && a in cells && b in cells {
        assert b in cells[a].referenced <==> a in cells[b].dependents;
      }
    }
  }

  /** After relinking every cell references what its content lists. */
  lemma LinkedRefsMatch(cells: Arena, pos: Position, c: Content)
    requires Wf(cells) && pos in cells
    ensures RefsMatchContent(Linked(cells, pos, c))
  {
    var n := Linked(cells, pos, c);
    forall a | a in n ensures n[a].referenced == SeqSet(Refs(n[a].content)) {
      LinkedAt(cells, pos, c, a);
    }
  }

  /** Relinking changes the `dependents` graph exactly as LinkedFrom describes. */
  lemma LinkedGraph(cells: Arena, pos: Position, c: Content)
    requires pos in cells
    ensures LinkedFrom(DependentEdges(cells), DependentEdges(Linked(cells, pos, c)), pos, SeqSet(Refs(c)))
  {
  }

  /** A committed edit that passed the cycle check leaves a well-formed arena. */
  lemma CommitKeepsWf(cells: Arena, pos: Position, c: Content)
    requires Wf(cells) && pos in cells
    requires !Cyclic(cells, pos, Refs(c))
    ensures Wf(Linked(cells, pos, c)) && Wf(Committed(cells, pos, c))
    ensures Committed(cells, pos, c).Keys == cells.Keys + SeqSet(Refs(c))
  {
    var r := SeqSet(Refs(c));
    var n := Linked(cells, pos, c);
    var g := DependentEdges(cells);
    WfClosed(cells);
    LinkedGraph(cells, pos, c);
    forall q | q in r && q in g ensures !Reachable(g, pos, q) {
      assert q in Refs(c);
    }
    LinkKeepsAcyclic(g, DependentEdges(n), pos, r);
    LinkedEdgesInside(cells, pos, c);
    LinkedMutual(cells, pos, c);
    LinkedRefsMatch(cells, pos, c);
    SameShapeWf(n, Committed(cells, pos, c));
  }
}
