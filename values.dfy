/** What a cell's value is, independent of any cache (FormulaImpl::GetValue with an empty cache,
    applied all the way down), and the cache coherence that the sheet keeps: every formula cache
    that is present holds exactly that value. */
module Values {
  import opened Common
  import opened Formula
  import opened Content
  import opened Graph

  /** The positions a cell's content references are cells it reads, and each one has strictly
      fewer ancestors in the `dependents` graph. */
  lemma RefsHaveFewerAncestors(cells: Arena, pos: Position)
    requires Wf(cells) && pos in cells
    ensures forall q :: q in SeqSet(Refs(cells[pos].content)) ==>
      && q in cells && pos in cells[q].dependents
      && Ancestors(DependentEdges(cells), q) < Ancestors(DependentEdges(cells), pos)
  {
    var g := DependentEdges(cells);
    forall q | q in SeqSet(Refs(cells[pos].content))
      ensures q in cells && pos in cells[q].dependents && Ancestors(g, q) < Ancestors(g, pos)
    {
      assert q in cells[pos].referenced;
      AncestorsShrink(g, q, pos);
    }
  }

  /** The value of the cell at `pos` computed from scratch: Empty and Text contents give their
      literal value; a formula is evaluated on its Inputs. */
  ghost function ValueOf(env: Evaluator, cells: Arena, pos: Position): (v: Value)
    requires Wf(cells) && pos in cells
    ensures !cells[pos].content.FormulaContent? ==> v == LiteralValue(cells[pos].content)
    ensures cells[pos].content.FormulaContent? ==> v.Num? || v.Err?
    decreases Ancestors(DependentEdges(cells), pos), 1
  {
    var c := cells[pos].content;
    if c.FormulaContent? then Evaluate(env, c.ast, Inputs(env, cells, pos)) else LiteralValue(c)
  }

  /** What a formula at `pos` sees: every referenced position that Sheet::GetCell would return a
      cell for (a cell with non-empty text), at that cell's own value. */
  ghost function Inputs(env: Evaluator, cells: Arena, pos: Position): (m: map<Position, Value>)
    requires Wf(cells) && pos in cells
    ensures forall q :: q in m <==>
      q in SeqSet(Refs(cells[pos].content)) && q in cells && GetText(cells[q].content) != ""
    decreases Ancestors(DependentEdges(cells), pos), 0
  {
    RefsHaveFewerAncestors(cells, pos);
    map q | q in SeqSet(Refs(cells[pos].content)) && q in cells && GetText(cells[q].content) != "" ::
      ValueOf(env, cells, q)
  }

  /** A referenced cell is an ancestor, and so is everything it reads. */
  lemma RefAncestors(cells: Arena, k: Position, q: Position)
    requires Wf(cells) && k in cells && q in SeqSet(Refs(cells[k].content))
    ensures q in Ancestors(DependentEdges(cells), k)
    ensures Ancestors(DependentEdges(cells), q) <= Ancestors(DependentEdges(cells), k)
  {
    var g := DependentEdges(cells);
    RefsHaveFewerAncestors(cells, k);
    ReachRefl(g, k);
    ReachPrepend(g, q, k, k);
  }

  /** Every formula cache that is present holds the formula's current value. */
  ghost predicate Coherent(env: Evaluator, cells: Arena) {
    && Wf(cells)
    && forall k :: k in cells && cells[k].content.FormulaContent? && cells[k].content.cache.Some? ==>
      cells[k].content.cache.value == ValueOf(env, cells, k)
  }

  /** Two contents that differ at most in their cache. */
  ghost predicate SameModuloCache(a: Content, b: Content) {
    InvalidateCache(a) == InvalidateCache(b)
  }

  /** Two formulas with the same expression that see the same inputs have the same value. */
  lemma SameInputsSameValue(env: Evaluator, c1: Arena, c2: Arena, k: Position)
    requires Wf(c1) && Wf(c2) && k in c1 && k in c2
    requires c1[k].content.FormulaContent? && c2[k].content.FormulaContent?
    requires c1[k].content.ast == c2[k].content.ast
    requires forall q :: q in SeqSet(Refs(c1[k].content)) ==>
      && q in c1 && q in c2 && GetText(c1[q].content) == GetText(c2[q].content)
      && ValueOf(env, c1, q) == ValueOf(env, c2, q)
    ensures ValueOf(env, c1, k) == ValueOf(env, c2, k)
  {
    var i1, i2 := Inputs(env, c1, k), Inputs(env, c2, k);
    assert Refs(c1[k].content) == Refs(c2[k].content);
    forall q ensures q in i1 <==> q in i2 {
    }
    forall q | q in i1 ensures i1[q] == i2[q] {
      assert i1[q] == ValueOf(env, c1, q);
    }
    MapsEqual(i1, i2);
  }

  /** A cell's value depends only on the contents of its ancestors: the cells it reads,
      directly or through other formulas. */
  lemma {:induction false} ValueFrame(env: Evaluator, c1: Arena, c2: Arena, k: Position)
    requires Wf(c1) && Wf(c2) && k in c1
    requires forall a :: a in Ancestors(DependentEdges(c1), k) ==>
      a in c2 && SameModuloCache(c1[a].content, c2[a].content)
    ensures k in c2 && ValueOf(env, c1, k) == ValueOf(env, c2, k)
    decreases Ancestors(DependentEdges(c1), k)
  {
    var g1 := DependentEdges(c1);
    ReachRefl(g1, k);
    assert k in Ancestors(g1, k);
    var x, y := c1[k].content, c2[k].content;
    assert SameModuloCache(x, y);
    if x.FormulaContent? {
      forall q | q in SeqSet(Refs(x))
        ensures q in c2 && GetText(c1[q].content) == GetText(c2[q].content)
        ensures ValueOf(env, c1, q) == ValueOf(env, c2, q)
      {
        RefAncestors(c1, k, q);
        assert SameModuloCache(c1[q].content, c2[q].content);
        ValueFrame(env, c1, c2, q);
      }
      SameInputsSameValue(env, c1, c2, k);
    }
  }

  /** Caches play no part in any value. */
  lemma ValueIgnoresCaches(env: Evaluator, c1: Arena, c2: Arena)
    requires Wf(c1) && SameShape(c1, c2)
    ensures Wf(c2)
    ensures forall k :: k in c1 ==> ValueOf(env, c1, k) == ValueOf(env, c2, k)
  {
    SameShapeWf(c1, c2);
    forall k | k in c1 ensures ValueOf(env, c1, k) == ValueOf(env, c2, k) {
      ValueFrame(env, c1, c2, k);
    }
  }

  /** What the formula at `pos` finds when it reads the valid position `q` it lists, in an arena
      that differs from `start` only in caches: a cell of `start` with fewer ancestors, with the
      same text and the same value. */
  lemma ReadStep(env: Evaluator, start: Arena, now: Arena, pos: Position, q: Position)
    requires Wf(start) && SameShape(start, now) && pos in start
    requires start[pos].content.FormulaContent? && q in start[pos].content.ast.cells && q.IsValid()
    ensures Wf(now) && q in start && q in now
    ensures DependentEdges(now) == DependentEdges(start)
    ensures Ancestors(DependentEdges(now), q) < Ancestors(DependentEdges(start), pos)
    ensures GetText(now[q].content) == GetText(start[q].content)
    ensures ValueOf(env, now, q) == ValueOf(env, start, q)
  {
    RefsHaveFewerAncestors(start, pos);
    assert q in SeqSet(Refs(start[pos].content));
    SameShapeWf(start, now);
    ValueIgnoresCaches(env, start, now);
    assert InvalidateCache(start[q].content) == InvalidateCache(now[q].content);
  }

  /** The values of the cells among `ps` that Sheet::GetCell returns, read in order. */
  ghost function Collected(env: Evaluator, cells: Arena, ps: seq<Position>): (m: map<Position, Value>)
    requires Wf(cells)
    ensures forall q :: q in m <==> q in ps && q.IsValid() && q in cells && GetText(cells[q].content) != ""
    ensures forall q :: q in m ==> q in cells && m[q] == ValueOf(env, cells, q)
  {
    if ps == [] then map[]
    else
      var q := ps[|ps| - 1];
      var rest := Collected(env, cells, ps[..|ps| - 1]);
      assert forall x :: x in ps <==> x in ps[..|ps| - 1] || x == q by {
        assert ps == ps[..|ps| - 1] + [q];
      }
      if q.IsValid() && q in cells && GetText(cells[q].content) != "" then rest[q := ValueOf(env, cells, q)]
      else rest
  }

  /** Reading one more position adds its value when GetCell returns its cell, and nothing else. */
  lemma CollectedStep(env: Evaluator, cells: Arena, ps: seq<Position>, q: Position)
    requires Wf(cells)
    ensures Collected(env, cells, ps + [q]) ==
      if q.IsValid() && q in cells && GetText(cells[q].content) != ""
      then Collected(env, cells, ps)[q := ValueOf(env, cells, q)]
      else Collected(env, cells, ps)
  {
    assert (ps + [q])[..|ps|] == ps;
  }

  /** The lookups of a formula, collected over every position its expression lists, are its
      Inputs. */
  lemma InputsCollected(env: Evaluator, cells: Arena, pos: Position)
    requires Wf(cells) && pos in cells && cells[pos].content.FormulaContent?
    ensures Collected(env, cells, cells[pos].content.ast.cells) == Inputs(env, cells, pos)
  {
    var l := Collected(env, cells, cells[pos].content.ast.cells);
    var m := Inputs(env, cells, pos);
    var refs := SeqSet(Refs(cells[pos].content));
    forall q ensures q in l <==> q in m {
      assert q in refs <==> q in cells[pos].content.ast.cells && q.IsValid();
    }
    forall q | q in l ensures l[q] == m[q] {
      assert m[q] == ValueOf(env, cells, q);
    }
    MapsEqual(l, m);
  }

  /** Clearing caches never breaks coherence. */
  lemma ClearCachesKeepsCoherent(env: Evaluator, cells: Arena, s: set<Position>)
    requires Coherent(env, cells)
    ensures Coherent(env, ClearCaches(cells, s))
  {
    ValueIgnoresCaches(env, cells, ClearCaches(cells, s));
  }

  /** Storing a cell's own value in its cache keeps the arena coherent. */
  lemma StoreCacheKeepsCoherent(env: Evaluator, cells: Arena, pos: Position, ast: Ast)
    requires Coherent(env, cells) && pos in cells
    requires cells[pos].content.FormulaContent? && cells[pos].content.ast == ast
    ensures var c2 := cells[pos := cells[pos].(content := FormulaContent(ast, Some(ValueOf(env, cells, pos))))];
      Coherent(env, c2) && SameShape(cells, c2) && c2.Keys == cells.Keys
  {
    var v := ValueOf(env, cells, pos);
    var c2 := cells[pos := cells[pos].(content := FormulaContent(ast, Some(v)))];
    assert c2.Keys == cells.Keys;
    forall k | k in cells
      ensures InvalidateCache(cells[k].content) == InvalidateCache(c2[k].content)
    {
    }
    assert SameShape(cells, c2);
    ValueIgnoresCaches(env, cells, c2);
  }

  /** A new cell without edges is read by nobody, so every value stays as it was. */
  lemma AddIsolatedKeepsCoherent(env: Evaluator, cells: Arena, pos: Position)
    requires Coherent(env, cells) && pos !in cells
    ensures Coherent(env, cells[pos := EmptyCell])
  {
    var c2 := cells[pos := EmptyCell];
    AddIsolatedWf(cells, pos);
    var g2 := DependentEdges(c2);
    forall k | k in cells ensures ValueOf(env, c2, k) == ValueOf(env, cells, k) {
      forall a | a in Ancestors(g2, k) ensures a in cells && SameModuloCache(c2[a].content, cells[a].content) {
        if a == pos {
          SinkReachesOnlyItself(g2, pos, k);
        }
      }
      ValueFrame(env, c2, cells, k);
    }
  }

  /** Removing a cell that nothing reads leaves every other value as it was. */
  lemma RemoveUnlinkedKeepsCoherent(env: Evaluator, cells: Arena, pos: Position)
    requires Coherent(env, cells) && pos in cells
    requires cells[pos].referenced == {} && cells[pos].dependents == {}
    ensures Coherent(env, cells - {pos})
  {
    var c2 := cells - {pos};
    RemoveUnlinkedWf(cells, pos);
    forall k | k in c2 ensures ValueOf(env, c2, k) == ValueOf(env, cells, k) {
      ValueFrame(env, c2, cells, k);
    }
  }

  /** An ancestor, after a commit, of a cell that `pos` does not reach is an old cell whose content
      the commit left alone. */
  lemma UnreachedAncestorUntouched(cells: Arena, pos: Position, c: Content, k: Position, a: Position)
    requires Wf(cells) && pos in cells
    requires k in cells
    requires k !in ReachSet(DependentEdges(Linked(cells, pos, c)), pos)
    requires a in Ancestors(DependentEdges(Linked(cells, pos, c)), k)
    ensures a in cells && a != pos
    ensures Committed(cells, pos, c)[a].content == cells[a].content
  {
    var g2 := DependentEdges(Linked(cells, pos, c));
    UnreachedAncestorUnreached(cells, pos, c, k, a);
    LinkedAt(cells, pos, c, a);
    ClearCachesAt(Linked(cells, pos, c), ReachSet(g2, pos), a);
  }

  /** A cache the commit kept belongs to a cell the commit did not reach, so it still holds that
      cell's value. */
  lemma CommitKeepsCachedValue(env: Evaluator, cells: Arena, pos: Position, c: Content, k: Position)
    requires Coherent(env, cells) && pos in cells
    requires Wf(Committed(cells, pos, c))
    requires k in Committed(cells, pos, c)
    requires Committed(cells, pos, c)[k].content.FormulaContent?
    requires Committed(cells, pos, c)[k].content.cache.Some?
    ensures Committed(cells, pos, c)[k].content.cache.value == ValueOf(env, Committed(cells, pos, c), k)
  {
    var l := Linked(cells, pos, c);
    var g2 := DependentEdges(l);
    var n := Committed(cells, pos, c);
    SameShapeWf(l, n);
    ReachRefl(g2, pos);
    assert k in l;
    assert k !in ReachSet(g2, pos) && k != pos;
    assert n[k].content == l[k].content;
    LinkedAt(cells, pos, c, k);
    assert k in cells;
    forall a | a in Ancestors(g2, k)
      ensures a in cells && SameModuloCache(n[a].content, cells[a].content)
    {
      UnreachedAncestorUntouched(cells, pos, c, k, a);
    }
    ValueFrame(env, n, cells, k);
  }

  /** After a committed edit every cache that survived still holds its cell's value: the cells
      whose value can have changed are exactly those `pos` reaches, and those lost their cache. */
  lemma CommitKeepsCoherent(env: Evaluator, cells: Arena, pos: Position, c: Content)
    requires Coherent(env, cells) && pos in cells
    requires !Cyclic(cells, pos, Refs(c))
    ensures Coherent(env, Committed(cells, pos, c))
  {
    CommitKeepsWf(cells, pos, c);
    var n := Committed(cells, pos, c);
    forall k | k in n && n[k].content.FormulaContent? && n[k].content.cache.Some?
      ensures n[k].content.cache.value == ValueOf(env, n, k)
    {
      CommitKeepsCachedValue(env, cells, pos, c, k);
    }
  }
}
