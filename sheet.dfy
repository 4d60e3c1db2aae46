/** The Sheet of sheet.cpp together with the cell operations of cell.cpp. A Cell's methods act
    on the sheet's arena through the cell's own position: `Set(pos, …)` is `cells_[pos]->Set(…)`. */
module Spreadsheet {
  import opened Common
  import opened Formula
  import opened Content
  import opened Counters
  import opened Graph
  import opened Values

  /** The arena with a cell at `pos`: the one already there, or a fresh Empty one. */
  ghost function Materialized(cells: Arena, pos: Position): (r: Arena)
    ensures pos in r && r.Keys == cells.Keys + {pos}
  {
    if pos in cells then cells else cells[pos := EmptyCell]
  }

  /** A brand-new cell has no dependents, so the only cycle it can close is a self-reference. */
  lemma NewCellCycleIsSelfReference(cells: Arena, pos: Position, refs: seq<Position>)
    requires Wf(cells) && pos !in cells
    ensures Cyclic(Materialized(cells, pos), pos, refs) <==> pos in refs
  {
    var m := Materialized(cells, pos);
    var g := DependentEdges(m);
    if pos in refs {
      ReachRefl(g, pos);
    }
    forall q | q in refs && q in m && Reachable(g, pos, q) ensures q == pos {
      SinkReachesOnlyItself(g, pos, q);
    }
  }

  /** What PrintTexts shows at `pos`: the cell's text when there is a cell, nothing otherwise
      (an Empty cell's text is already empty, so this is what GetCell lets through). */
  function Field(cells: Arena, pos: Position): (f: string)
    ensures pos !in cells ==> f == ""
    ensures pos in cells && cells[pos].content.Text? ==> f == cells[pos].content.text
    ensures pos in cells && cells[pos].content.FormulaContent? ==> |f| > 0 && f[0] == '='
    ensures f != "" ==> pos in cells && !cells[pos].content.Empty?
  {
    if pos in cells then GetText(cells[pos].content) else ""
  }

  /** The first `cols` fields of line `row`. */
  function GridRow(cells: Arena, row: int, cols: nat): (r: seq<string>)
    ensures |r| == cols
  {
    if cols == 0 then [] else GridRow(cells, row, cols - 1) + [Field(cells, Position(row, cols - 1))]
  }

  /** Field `c` of a line shows position (row, c). */
  lemma {:induction false} GridRowAt(cells: Arena, row: int, cols: nat, c: int)
    requires 0 <= c < cols
    ensures GridRow(cells, row, cols)[c] == Field(cells, Position(row, c))
  {
    if c < cols - 1 {
      GridRowAt(cells, row, cols - 1, c);
    }
  }

  /** The printable rectangle of texts, line by line. */
  function Grid(cells: Arena, rows: nat, cols: nat): (g: seq<seq<string>>)
    ensures |g| == rows && forall r :: 0 <= r < rows ==> |g[r]| == cols
  {
    if rows == 0 then [] else Grid(cells, rows - 1, cols) + [GridRow(cells, rows - 1, cols)]
  }

  /** Line `r` of the rectangle is line `r` of the sheet. */
  lemma {:induction false} GridAt(cells: Arena, rows: nat, cols: nat, r: int)
    requires 0 <= r < rows
    ensures Grid(cells, rows, cols)[r] == GridRow(cells, r, cols)
  {
    if r < rows - 1 {
      GridAt(cells, rows - 1, cols, r);
    }
  }

  /** Fields separated by tabs. */
  function Join(fields: seq<string>): string {
    if fields == [] then ""
    else Join(fields[..|fields| - 1]) + (if |fields| > 1 then "\t" else "") + fields[|fields| - 1]
  }

  /** A tab goes before every field but the first. */
  lemma JoinStep(fields: seq<string>, last: string)
    ensures fields == [] ==> Join(fields + [last]) == last
    ensures fields != [] ==> Join(fields + [last]) == Join(fields) + "\t" + last
  {
    assert (fields + [last])[..|fields|] == fields;
  }

  /** Appending the next field, after a tab unless it is the first, extends the printed line. */
  lemma LineStep(cells: Arena, row: int, col: nat, line: string, text: string)
    requires line == Join(GridRow(cells, row, col)) && text == Field(cells, Position(row, col))
    ensures col == 0 ==> line + text == Join(GridRow(cells, row, col + 1))
    ensures col > 0 ==> line + "\t" + text == Join(GridRow(cells, row, col + 1))
  {
    JoinStep(GridRow(cells, row, col), text);
    if col == 0 {
      assert line == [];
    }
  }

  /** Every line joined and ended by a newline. */
  function Render(grid: seq<seq<string>>): string {
    if grid == [] then "" else Render(grid[..|grid| - 1]) + Join(grid[|grid| - 1]) + "\n"
  }

  lemma RenderStep(grid: seq<seq<string>>, line: seq<string>)
    ensures Render(grid + [line]) == Render(grid) + Join(line) + "\n"
  {
    assert (grid + [line])[..|grid|] == grid;
  }

  class Sheet {
    /** `cells_`: every cell of the sheet, placeholders included. */
    var cells: Arena
    /** `max_rows_` and `max_cols_`: how many cells lie on each occupied row and column. */
    var maxRows: map<int, int>
    var maxCols: map<int, int>
    /** The formula parser and number parser the sheet's formulas use. */
    const env: Evaluator

    /** The counters count exactly the cells of `keys`. */
    ghost predicate Counts(keys: set<Position>)
      reads this
    {
      CountersMatch(maxRows, keys, Row) && CountersMatch(maxCols, keys, Col)
    }

    /** The arena is well formed, every cache holds its cell's value, and every cell sits at a
        valid position. */
    ghost predicate Core()
      reads this
    {
      Coherent(env, cells) && forall p :: p in cells ==> p.IsValid()
    }

    ghost predicate Valid()
      reads this
    {
      Core() && Counts(cells.Keys)
    }

    /** CreateSheet: an empty sheet. */
    constructor(env: Evaluator)
      ensures Valid() && this.env == env
      ensures cells == map[] && maxRows == map[] && maxCols == map[]
    {
      this.env := env;
      cells := map[];
      maxRows := map[];
      maxCols := map[];
    }

    /** Sheet::GetCellPtr: any existing cell, placeholders included. */
    function GetCellPtr(pos: Position): (r: Result<Option<Cell>, SheetError>)
      reads this
      ensures r.Failure? <==> !pos.IsValid()
      ensures r.Failure? ==> r.error == InvalidPosition
      ensures r.Success? ==> (r.value.Some? <==> pos in cells)
      ensures r.Success? && r.value.Some? ==> r.value.value == cells[pos]
    {
      if !pos.IsValid() then Failure(InvalidPosition)
      else if pos !in cells then Success(None)
      else Success(Some(cells[pos]))
    }

    /** Sheet::GetCell: a cell whose text is non-empty; a missing cell and an Empty one, such as a
        placeholder, both read as absent. */
    function GetCell(pos: Position): (r: Result<Option<Cell>, SheetError>)
      reads this
      ensures r.Failure? <==> !pos.IsValid()
      ensures r.Failure? ==> r.error == InvalidPosition
      ensures r.Success? ==> (r.value.Some? <==> pos in cells && GetText(cells[pos].content) != "")
      ensures r.Success? && r.value.Some? ==> r.value.value == cells[pos]
    {
      if !pos.IsValid() then Failure(InvalidPosition)
      else if pos in cells && |GetText(cells[pos].content)| != 0 then Success(Some(cells[pos]))
      else Success(None)
    }

    /** A formula's inputs are exactly the referenced cells that GetCell returns. */
    lemma InputsAreVisibleCells(pos: Position)
      requires Core() && pos in cells
      ensures forall q :: q in Inputs(env, cells, pos) <==>
        q in SeqSet(Refs(cells[pos].content)) && GetCell(q).Success? && GetCell(q).value.Some?
    {
    }

    /** Cell::IsReferenced. */
    function IsReferenced(pos: Position): (r: bool)
      reads this
      requires pos in cells
      ensures Core() ==> (r <==> exists k :: k in cells && pos in cells[k].referenced)
    {
      cells[pos].dependents != {}
    }

    /** Sheet::GetPrintableSize. */
    function GetPrintableSize(): (s: Size)
      reads this
      ensures maxRows.Keys == {} || maxCols.Keys == {} ==> s == Size(0, 0)
      ensures maxRows.Keys != {} && maxCols.Keys != {} ==>
        && s.rows - 1 in maxRows && (forall k :: k in maxRows ==> k < s.rows)
        && s.cols - 1 in maxCols && (forall k :: k in maxCols ==> k < s.cols)
    {
      PrintableSize(maxRows, maxCols)
    }

    /** The printable size is the smallest rectangle anchored at (0, 0) holding every cell. */
    lemma PrintableSizeIsBoundingBox()
      requires Valid()
      ensures GetPrintableSize() == Size(0, 0) <==> cells == map[]
      ensures forall p :: p in cells ==> p.row < GetPrintableSize().rows && p.col < GetPrintableSize().cols
      ensures cells != map[] ==>
        && (exists p :: p in cells && p.row == GetPrintableSize().rows - 1)
        && (exists p :: p in cells && p.col == GetPrintableSize().cols - 1)
    {
      PrintableSizeFitsCells(maxRows, maxCols, cells.Keys);
      assert cells == map[] <==> cells.Keys == {};
    }

    /** Sheet::SetCell(q, "") on a position with no cell, as Cell::UpdateCellsDependence uses it:
        an Empty cell without edges is stored and counted on its row and column (setting it to
        the empty text finds no cycle, links nothing and invalidates only itself). */
    method AddPlaceholder(q: Position, ghost uncounted: set<Position>)
      requires q.IsValid() && q !in cells && q !in uncounted
      requires Counts(cells.Keys - uncounted)
      modifies this
      ensures cells == old(cells)[q := EmptyCell]
      ensures maxCols == Increment(old(maxCols), q.col) && maxRows == Increment(old(maxRows), q.row)
      ensures Counts(cells.Keys - uncounted)
    {
      ghost var keys := cells.Keys - uncounted;
      cells := cells[q := EmptyCell];
      maxCols := Increment(maxCols, q.col);
      maxRows := Increment(maxRows, q.row);
      IncrementMatches(old(maxRows), keys, Row, q);
      IncrementMatches(old(maxCols), keys, Col, q);
      assert cells.Keys - uncounted == keys + {q};
    }

    /** The first half of Cell::UpdateCellsDependence: drop `pos` from the dependents of every
        cell it referenced, then forget those references. */
    method Unlink(pos: Position)
      requires pos in cells && cells[pos].referenced <= cells.Keys
      requires forall k :: k in cells ==> (pos in cells[k].dependents <==> k in cells[pos].referenced)
      modifies this`cells
      ensures cells == Relink(old(cells), pos, {})
    {
      var stale := cells[pos].referenced;
      ghost var all := stale;
      assert all - stale == {};
      assert cells == DropDependent(old(cells), pos, {});
      while stale != {}
        invariant stale <= all
        invariant cells == DropDependent(old(cells), pos, all - stale)
        decreases stale
      {
        PositionSetHasElement(stale);
        var q :| q in stale;
        DropDependentStep(old(cells), pos, all - stale, q);
        cells := cells[q := cells[q].(dependents := cells[q].dependents - {pos})];
        assert all - (stale - {q}) == (all - stale) + {q};
        stale := stale - {q};
      }
      assert all - stale == all;
      UnlinkIsRelinkNothing(old(cells), pos);
      cells := cells[pos := cells[pos].(referenced := {})];
    }

    /** One step of the linking loop of Cell::UpdateCellsDependence: `pos` references `q` and `q`
        lists `pos` among its dependents, after a placeholder is created at `q` if needed. */
    method LinkOne(pos: Position, q: Position, ghost m: Arena, ghost s: set<Position>, ghost uncounted: set<Position>)
      requires pos in m && cells == Relink(m, pos, s) && q.IsValid()
      requires (forall p :: p in cells ==> p.IsValid())
      requires uncounted <= cells.Keys && Counts(cells.Keys - uncounted)
      modifies this
      ensures cells == Relink(m, pos, s + {q})
      ensures (forall p :: p in cells ==> p.IsValid()) && Counts(cells.Keys - uncounted)
    {
      ghost var n0 := cells;
      if q !in cells {
        AddPlaceholder(q, uncounted);
      }
      assert cells == (if q in n0 then n0 else n0[q := EmptyCell]);
      var linked := cells;
      linked := linked[pos := linked[pos].(referenced := linked[pos].referenced + {q})];
      linked := linked[q := linked[q].(dependents := linked[q].dependents + {pos})];
      assert linked.Keys == cells.Keys;
      assert linked.Keys - uncounted == cells.Keys - uncounted;
      RelinkAdd(m, pos, s, q);
      cells := linked;
    }

    /** The second half of Cell::UpdateCellsDependence: link each proposed position in turn. */
    method Link(pos: Position, refs: seq<Position>, ghost uncounted: set<Position>)
      requires pos in cells && cells[pos].referenced == {}
      requires forall k :: k in cells ==> pos !in cells[k].dependents
      requires (forall p :: p in cells ==> p.IsValid()) && forall q :: q in refs ==> q.IsValid()
      requires uncounted <= cells.Keys && Counts(cells.Keys - uncounted)
      modifies this
      ensures cells == Relink(old(cells), pos, SeqSet(refs))
      ensures (forall p :: p in cells ==> p.IsValid()) && Counts(cells.Keys - uncounted)
    {
      RelinkUnlinked(cells, pos);
      assert SeqSet(refs[..0]) == {};
      var i := 0;
      while i < |refs|
        invariant 0 <= i <= |refs|
        invariant cells == Relink(old(cells), pos, SeqSet(refs[..i]))
        invariant uncounted <= cells.Keys
        invariant (forall p :: p in cells ==> p.IsValid()) && Counts(cells.Keys - uncounted)
      {
        SeqSetPrefix(refs, i);
        LinkOne(pos, refs[i], old(cells), SeqSet(refs[..i]), uncounted);
        i := i + 1;
      }
      assert refs[..i] == refs;
    }

    /** Cell::UpdateCellsDependence for the cell at `pos`: afterwards `pos` references exactly the
        proposed positions, each of them has a cell that lists `pos` among its dependents, and no
        other cell lists `pos`. */
    method UpdateCellsDependence(pos: Position, refs: seq<Position>, ghost uncounted: set<Position>)
      requires pos in cells && cells[pos].referenced <= cells.Keys
      requires forall k :: k in cells ==> (pos in cells[k].dependents <==> k in cells[pos].referenced)
      requires (forall p :: p in cells ==> p.IsValid()) && forall q :: q in refs ==> q.IsValid()
      requires uncounted <= cells.Keys && Counts(cells.Keys - uncounted)
      modifies this
      ensures cells == Relink(old(cells), pos, SeqSet(refs))
      ensures (forall p :: p in cells ==> p.IsValid()) && Counts(cells.Keys - uncounted)
    {
      Unlink(pos);
      assert cells.Keys - uncounted == old(cells).Keys - uncounted;
      RelinkAfterUnlink(old(cells), pos, SeqSet(refs));
      Link(pos, refs, uncounted);
    }

    /** Cell::InvalidateCellCache for the cell at `pos`: run the cache hook on this cell and then,
        recursively with `flag` false, on every dependent. HasCache holds for every content, so the
        walk always continues. It terminates because each step follows a `dependents` edge of an
        acyclic graph, so fewer cells stay reachable. */
    method InvalidateCellCache(pos: Position, flag: bool)
      requires Wf(cells) && pos in cells
      modifies this`cells
      decreases ReachSet(DependentEdges(cells), pos)
      ensures cells == ClearCaches(old(cells), ReachSet(DependentEdges(old(cells)), pos))
    {
      if HasCache(cells[pos].content) || flag {
        ghost var g := DependentEdges(cells);
        WfClosed(cells);
        cells := cells[pos := cells[pos].(content := InvalidateCache(cells[pos].content))];
        InvalidateFirst(old(cells), g, pos, cells);
        var pending := cells[pos].dependents;
        assert g[pos] - pending == {};
        while pending != {}
          invariant pending <= g[pos]
          invariant cells == ClearCaches(old(cells), {pos} + ReachFromAll(g, g[pos] - pending))
          decreases pending
        {
          PositionSetHasElement(pending);
          var d :| d in pending;
          ghost var prev := cells;
          SameShapeWf(old(cells), cells);
          assert Wf(cells) && DependentEdges(cells) == g;
          ReachSetShrinks(g, pos, d);
          InvalidateCellCache(d, false);
          InvalidateNext(old(cells), g, pos, pending, d, prev, cells);
          pending := pending - {d};
        }
        assert g[pos] - pending == g[pos];
        ReachSetUnfold(g, pos);
        assert g == DependentEdges(old(cells));
        assert {pos} + ReachFromAll(g, g[pos]) == ReachSet(DependentEdges(old(cells)), pos);
      }
    }

    /** The part of Cell::Set after the checks: install `c` at `pos`, relink, invalidate. */
    method Commit(pos: Position, c: Content, ghost uncounted: set<Position>)
      requires Core() && pos in cells && !Cyclic(cells, pos, Refs(c))
      requires uncounted <= {pos} && Counts(cells.Keys - uncounted)
      modifies this
      ensures cells == Committed(old(cells), pos, c)
      ensures Core() && Counts(cells.Keys - uncounted)
    {
      ghost var before := cells;
      ReplaceKeepsEdges(before, pos, c);
      cells := cells[pos := cells[pos].(content := c)];
      assert cells == Replace(before, pos, c);
      UpdateCellsDependence(pos, Refs(c), uncounted);
      assert cells == Linked(before, pos, c);
      CommitKeepsWf(before, pos, c);
      InvalidateCellCache(pos, true);
      CommitKeepsCoherent(env, before, pos, c);
    }

    /** Cell::Set for the cell at `pos`: classify the text, refuse it when one of the positions
        it references names a cell that `pos` already reaches, otherwise install the content,
        relink the edges and invalidate every cache that can see the change. The cell `pos` and
        every placeholder created on the way are counted as before, except `uncounted`. */
    method Set(pos: Position, text: string, ghost uncounted: set<Position>) returns (status: Status)
      requires Core() && pos in cells && uncounted <= {pos} && Counts(cells.Keys - uncounted)
      modifies this
      ensures Core() && Counts(cells.Keys - uncounted)
      ensures status == Failed(FormulaSyntax) <==> Classify(env, text).Failure?
      ensures status == Failed(CircularDependency) <==>
        Classify(env, text).Success? && Cyclic(old(cells), pos, Refs(Classify(env, text).value))
      ensures status.Done? <==>
        Classify(env, text).Success? && !Cyclic(old(cells), pos, Refs(Classify(env, text).value))
      ensures status.Failed? ==> cells == old(cells) && maxRows == old(maxRows) && maxCols == old(maxCols)
      ensures status.Done? ==> cells == Committed(old(cells), pos, Classify(env, text).value)
    {
      var parsed := Classify(env, text);
      if parsed.Failure? {
        return Failed(FormulaSyntax);
      }
      var c := parsed.value;
      var refs := Refs(c);
      var cyclic := HasCircularDependence(cells, pos, refs);
      if cyclic {
        return Failed(CircularDependency);
      }
      Commit(pos, c, uncounted);
      status := Done;
    }

    /** Sheet::ChangePrintableSize: uncount one cell on its row and its column. */
    method ChangePrintableSize(pos: Position)
      modifies this
      ensures maxCols == Decrement(old(maxCols), pos.col) && maxRows == Decrement(old(maxRows), pos.row)
      ensures cells == old(cells)
      ensures pos !in cells && old(Counts(cells.Keys + {pos})) ==> Counts(cells.Keys)
    {
      var cols := if pos.col in maxCols then maxCols[pos.col] else 0;
      if cols - 1 <= 0 {
        maxCols := maxCols - {pos.col};
      } else {
        maxCols := maxCols[pos.col := cols - 1];
      }
      var rows := if pos.row in maxRows then maxRows[pos.row] else 0;
      if rows - 1 <= 0 {
        maxRows := maxRows - {pos.row};
      } else {
        maxRows := maxRows[pos.row := rows - 1];
      }
      if pos !in cells && old(Counts(cells.Keys + {pos})) {
        DecrementMatches(old(maxRows), cells.Keys + {pos}, Row, pos);
        DecrementMatches(old(maxCols), cells.Keys + {pos}, Col, pos);
        assert cells.Keys + {pos} - {pos} == cells.Keys;
      }
    }

    /** Sheet::SetCell. An invalid position is refused. An existing cell is set in place. At a
        position with no cell a fresh Empty cell is set and, once that succeeds, counted on its row
        and column; when it fails the fresh cell is removed again (see Findings). */
    method SetCell(pos: Position, text: string) returns (status: Status)
      requires Valid()
      modifies this
      ensures Valid()
      ensures status == Failed(InvalidPosition) <==> !pos.IsValid()
      ensures pos.IsValid() ==> (status == Failed(FormulaSyntax) <==> Classify(env, text).Failure?)
      ensures pos.IsValid() ==> (status == Failed(CircularDependency) <==>
        Classify(env, text).Success? &&
        Cyclic(Materialized(old(cells), pos), pos, Refs(Classify(env, text).value)))
      ensures status.Failed? ==> cells == old(cells) && maxRows == old(maxRows) && maxCols == old(maxCols)
      ensures status.Done? ==>
        cells == Committed(Materialized(old(cells), pos), pos, Classify(env, text).value)
    {
      if !pos.IsValid() {
        return Failed(InvalidPosition);
      }
      if pos in cells {
        assert cells.Keys - {} == cells.Keys;
        status := Set(pos, text, {});
        assert cells.Keys - {} == cells.Keys;
      } else {
        status := SetFresh(pos, text);
      }
    }

    /** The branch of Sheet::SetCell for a position with no cell. */
    method SetFresh(pos: Position, text: string) returns (status: Status)
      requires Valid() && pos.IsValid() && pos !in cells
      modifies this
      ensures Valid()
      ensures status == Failed(FormulaSyntax) <==> Classify(env, text).Failure?
      ensures status == Failed(CircularDependency) <==>
        Classify(env, text).Success? &&
        Cyclic(old(cells)[pos := EmptyCell], pos, Refs(Classify(env, text).value))
      ensures status.Done? <==>
        Classify(env, text).Success? &&
        !Cyclic(old(cells)[pos := EmptyCell], pos, Refs(Classify(env, text).value))
      ensures status.Failed? ==> cells == old(cells) && maxRows == old(maxRows) && maxCols == old(maxCols)
      ensures status.Done? ==>
        cells == Committed(old(cells)[pos := EmptyCell], pos, Classify(env, text).value)
    {
      AddIsolatedKeepsCoherent(env, cells, pos);
      AddThenRemove(cells, pos, EmptyCell);
      cells := cells[pos := EmptyCell];
      status := Set(pos, text, {pos});
      if status.Failed? {
        cells := cells - {pos};
      } else {
        ghost var c := Classify(env, text).value;
        ghost var start := old(cells)[pos := EmptyCell];
        assert Linked(start, pos, c).Keys == Committed(start, pos, c).Keys;
        Count(pos);
      }
    }

    /** The counting step of Sheet::SetCell (`max_cols_[pos.col] += 1; max_rows_[pos.row] += 1`):
        the one cell not yet counted becomes counted. */
    method Count(pos: Position)
      requires pos in cells && Counts(cells.Keys - {pos})
      modifies this
      ensures maxCols == Increment(old(maxCols), pos.col) && maxRows == Increment(old(maxRows), pos.row)
      ensures cells == old(cells) && Counts(cells.Keys)
    {
      ghost var keys := cells.Keys - {pos};
      IncrementMatches(maxCols, keys, Col, pos);
      IncrementMatches(maxRows, keys, Row, pos);
      maxCols := Increment(maxCols, pos.col);
      maxRows := Increment(maxRows, pos.row);
      assert keys + {pos} == cells.Keys;
    }

    /** Cell::Clear: Set with the empty text, which always succeeds. The cell keeps its place and
        its dependents but has no content and references nothing. */
    method Clear(pos: Position)
      requires Valid() && pos in cells
      modifies this
      ensures Valid()
      ensures cells == Committed(old(cells), pos, Empty)
      ensures cells.Keys == old(cells).Keys && cells[pos] == Cell(Empty, {}, old(cells)[pos].dependents)
      ensures maxRows == old(maxRows) && maxCols == old(maxCols)
    {
      assert cells.Keys - {} == cells.Keys;
      NoSelfDependent(cells, pos);
      ClearedCell(cells, pos);
      var status := Set(pos, "", {});
      assert status.Done?;
      CountersDetermined(old(maxRows), maxRows, cells.Keys, Row);
      CountersDetermined(old(maxCols), maxCols, cells.Keys, Col);
    }

    /** The removal step of Sheet::ClearCell (`cells_.erase(pos); ChangePrintableSize(pos)`) for
        a cell with no edges. */
    method Remove(pos: Position)
      requires Valid() && pos in cells && cells[pos].referenced == {} && cells[pos].dependents == {}
      modifies this
      ensures Valid()
      ensures cells == old(cells) - {pos}
      ensures maxCols == Decrement(old(maxCols), pos.col) && maxRows == Decrement(old(maxRows), pos.row)
    {
      RemoveUnlinkedKeepsCoherent(env, cells, pos);
      cells := cells - {pos};
      assert cells.Keys + {pos} == old(cells).Keys;
      ChangePrintableSize(pos);
    }

    /** Sheet::ClearCell. An invalid position is refused and a missing cell is left alone.
        Otherwise the cell is cleared and, unless some formula still references it, removed and
        uncounted; a referenced cell stays behind as an Empty placeholder (see Findings).
        Either way GetCell no longer returns it. */
    method ClearCell(pos: Position) returns (status: Status)
      requires Valid()
      modifies this
      ensures Valid()
      ensures status == Failed(InvalidPosition) <==> !pos.IsValid()
      ensures status.Failed? || pos !in old(cells) ==>
        cells == old(cells) && maxRows == old(maxRows) && maxCols == old(maxCols)
      ensures status.Done? ==> GetCell(pos) == Success(None)
      ensures status.Done? && pos in old(cells) ==>
        var cleared := Committed(old(cells), pos, Empty);
        cells == if old(cells)[pos].dependents == {} then cleared - {pos} else cleared
    {
      if !pos.IsValid() {
        return Failed(InvalidPosition);
      }
      status := Done;
      if pos in cells {
        Clear(pos);
        if !IsReferenced(pos) {
          Remove(pos);
        }
      }
    }

    /** Cell::GetValue for the cell at `pos`. Empty and Text give their literal value. A formula
        returns its cache when present; otherwise it is evaluated (Formula::Evaluate), reading the
        value of each referenced cell that GetCell returns in the same way, and the result is
        cached. Whatever the caches held, the value is the one computed from scratch, and the
        sheet only gains caches that hold their cell's value. */
    method GetValue(pos: Position) returns (v: Value)
      requires Valid() && pos in cells
      modifies this`cells
      decreases Ancestors(DependentEdges(cells), pos), 2
      ensures Valid() && SameShape(old(cells), cells)
      ensures v == ValueOf(env, old(cells), pos)
      ensures cells[pos].content.FormulaContent? ==> cells[pos].content.cache == Some(v)
    {
      var c := cells[pos].content;
      if !c.FormulaContent? {
        return LiteralValue(c);
      }
      if c.cache.Some? {
        return c.cache.value;
      }
      var ast := c.ast;
      var visible := ReadInputs(pos, ast.cells, cells);
      InputsCollected(env, old(cells), pos);
      v := Evaluate(env, ast, visible);
      ghost var mid := cells;
      assert InvalidateCache(old(cells)[pos].content) == InvalidateCache(mid[pos].content);
      assert v == ValueOf(env, old(cells), pos);
      ValueIgnoresCaches(env, old(cells), mid);
      StoreCache(pos, ast, v);
      SameShapeTrans(old(cells), mid, cells);
    }

    /** `cache_ = …` in FormulaImpl::GetValue: the formula at `pos` keeps its value. */
    method StoreCache(pos: Position, ast: Ast, v: Value)
      requires Valid() && pos in cells
      requires cells[pos].content.FormulaContent? && cells[pos].content.ast == ast
      requires v == ValueOf(env, cells, pos)
      modifies this`cells
      ensures Valid() && SameShape(old(cells), cells)
      ensures cells == old(cells)[pos := old(cells)[pos].(content := FormulaContent(ast, Some(v)))]
    {
      var updated := cells[pos := cells[pos].(content := FormulaContent(ast, Some(v)))];
      StoreCacheKeepsCoherent(env, cells, pos, ast);
      assert Coherent(env, updated) && SameShape(cells, updated) && updated.Keys == cells.Keys;
      cells := updated;
    }

    /** The lookups of Formula::Evaluate for the formula at `pos`, over the positions `ps` its
        expression lists, in order: the value of each cell GetCell returns there. */
    method ReadInputs(pos: Position, ps: seq<Position>, ghost start: Arena) returns (visible: map<Position, Value>)
      requires Valid() && Wf(start) && SameShape(start, cells) && pos in start
      requires start[pos].content.FormulaContent? && forall q :: q in ps ==> q in start[pos].content.ast.cells
      modifies this`cells
      decreases Ancestors(DependentEdges(cells), pos), 1, |ps|
      ensures Valid() && SameShape(start, cells)
      ensures visible == Collected(env, start, ps)
    {
      if ps == [] {
        return map[];
      }
      var q := ps[|ps| - 1];
      SplitLast(ps);
      CollectedStep(env, start, ps[..|ps| - 1], q);
      SameShapeWf(start, cells);
      ghost var g := DependentEdges(cells);
      visible := ReadInputs(pos, ps[..|ps| - 1], start);
      SameShapeWf(start, cells);
      assert DependentEdges(cells) == g;
      var seen := ReadInput(pos, q, start);
      if seen.Some? {
        visible := visible[q := seen.value];
      }
    }

    /** One lookup of Formula::Evaluate, at a position `q` the formula at `pos` lists: the value of
        the cell Sheet::GetCell returns there, or None when it returns none or `q` is invalid. */
    method ReadInput(pos: Position, q: Position, ghost start: Arena) returns (seen: Option<Value>)
      requires Valid() && Wf(start) && SameShape(start, cells) && pos in start
      requires start[pos].content.FormulaContent? && q in start[pos].content.ast.cells
      modifies this`cells
      decreases Ancestors(DependentEdges(cells), pos), 0
      ensures Valid() && SameShape(start, cells)
      ensures seen == if q.IsValid() && q in start && GetText(start[q].content) != ""
        then Some(ValueOf(env, start, q)) else None
    {
      if !q.IsValid() {
        return None;
      }
      ReadStep(env, start, cells, pos, q);
      var found := GetCell(q);
      if found.Failure? || found.value.None? {
        return None;
      }
      ghost var mid := cells;
      var value := GetValue(q);
      SameShapeTrans(start, mid, cells);
      return Some(value);
    }

    /** Sheet::PrintTexts: for each line of the printable size, the texts of its cells separated
        by tabs, then a newline. */
    method PrintTexts() returns (out: string)
      requires Valid()
      ensures GetPrintableSize().rows >= 0 && GetPrintableSize().cols >= 0
      ensures out == Render(Grid(cells, GetPrintableSize().rows, GetPrintableSize().cols))
    {
      PrintableSizeIsValid();
      var size := GetPrintableSize();
      out := PrintRows(size.rows, size.cols);
    }

    /** The loop of PrintTexts: one tab-separated line per row of the rectangle. */
    method PrintRows(rows: int, cols: int) returns (out: string)
      requires 0 <= rows <= MaxRows && 0 <= cols <= MaxCols
      ensures out == Render(Grid(cells, rows, cols))
    {
      out := "";
      var row := 0;
      while row < rows
        invariant 0 <= row <= rows
        invariant out == Render(Grid(cells, row, cols))
      {
        var line := PrintLine(row, cols);
        RenderStep(Grid(cells, row, cols), GridRow(cells, row, cols));
        out := out + line + "\n";
        row := row + 1;
      }
    }

    /** What PrintTexts writes for one position: the text of the cell GetCell returns, if any. */
    method TextAt(pos: Position) returns (text: string)
      requires pos.IsValid()
      ensures text == Field(cells, pos)
    {
      var cell := GetCell(pos);
      text := "";
      if cell.Success? && cell.value.Some? {
        text := GetText(cell.value.value.content);
      }
    }

    /** One line of Sheet::PrintTexts: the texts of the first `cols` cells of line `row`,
        separated by tabs. */
    method PrintLine(row: int, cols: int) returns (line: string)
      requires 0 <= row < MaxRows && 0 <= cols <= MaxCols
      ensures line == Join(GridRow(cells, row, cols))
    {
      line := "";
      var col := 0;
      var isFirst := true;
      while col < cols
        invariant 0 <= col <= cols
        invariant isFirst <==> col == 0
        invariant line == Join(GridRow(cells, row, col))
      {
        var text := TextAt(Position(row, col));
        LineStep(cells, row, col, line, text);
        if !isFirst {
          line := line + "\t";
        }
        isFirst := false;
        line := line + text;
        col := col + 1;
      }
    }

    /** The printable size is never negative, and every position inside it is valid. */
    lemma PrintableSizeIsValid()
      requires Valid()
      ensures 0 <= GetPrintableSize().rows <= MaxRows && 0 <= GetPrintableSize().cols <= MaxCols
    {
      PrintableSizeIsBoundingBox();
      if cells != map[] {
        var p :| p in cells && p.row == GetPrintableSize().rows - 1;
        var q :| q in cells && q.col == GetPrintableSize().cols - 1;
      }
    }

    /** The table PrintTexts renders holds every cell's text at the cell's own row and column,
        and a non-empty entry only where there is a cell. */
    lemma TextsShowEveryCell()
      requires Valid()
      ensures GetPrintableSize().rows >= 0 && GetPrintableSize().cols >= 0
      ensures GridShows(cells, GetPrintableSize().rows, GetPrintableSize().cols)
    {
      var size := CellsFitPrintableSize();
      GridShowsCells(cells, size.rows, size.cols);
    }

    /** The printable size, and every cell inside it. */
    lemma CellsFitPrintableSize() returns (size: Size)
      requires Valid()
      ensures size == GetPrintableSize() && size.rows >= 0 && size.cols >= 0
      ensures forall p :: p in cells ==> 0 <= p.row < size.rows && 0 <= p.col < size.cols
    {
      PrintableSizeIsValid();
      PrintableSizeIsBoundingBox();
      size := GetPrintableSize();
      forall p | p in cells ensures 0 <= p.row {
        assert p.IsValid();
      }
    }
  }

  /** The rectangle holds every cell, showing its text at its position, and shows nothing where
      there is no cell. */
  ghost predicate GridShows(cells: Arena, rows: nat, cols: nat) {
    && (forall p :: p in cells ==>
          0 <= p.row < rows && 0 <= p.col < cols && Grid(cells, rows, cols)[p.row][p.col] == GetText(cells[p].content))
    && (forall r, c :: 0 <= r < rows && 0 <= c < cols ==>
          (Grid(cells, rows, cols)[r][c] != "" ==> Position(r, c) in cells))
  }

  /** A rectangle that holds every cell shows each cell's text at its position, and nothing where
      there is no cell. */
  lemma GridShowsCells(cells: Arena, rows: nat, cols: nat)
    requires forall p :: p in cells ==> 0 <= p.row < rows && 0 <= p.col < cols
    ensures GridShows(cells, rows, cols)
  {
    var g := Grid(cells, rows, cols);
    forall p | p in cells ensures g[p.row][p.col] == GetText(cells[p].content) {
      GridAt(cells, rows, cols, p.row);
      GridRowAt(cells, p.row, cols, p.col);
    }
    forall r, c | 0 <= r < rows && 0 <= c < cols && g[r][c] != "" ensures Position(r, c) in cells {
      GridAt(cells, rows, cols, r);
      GridRowAt(cells, r, cols, c);
    }
  }

  /** The hook run on `pos` alone clears the cache of `pos` alone. */
  lemma InvalidateFirst(c0: Arena, g: Edges, pos: Position, c1: Arena)
    requires pos in c0 && c1 == c0[pos := c0[pos].(content := InvalidateCache(c0[pos].content))]
    ensures c1 == ClearCaches(c0, {pos} + ReachFromAll(g, {}))
  {
    assert {pos} + ReachFromAll(g, {}) == {pos};
    var r := ClearCaches(c0, {pos});
    assert c1.Keys == r.Keys;
    forall k | k in c1 ensures c1[k] == r[k] {
    }
  }

  /** Invalidating one more dependent `d` extends the cleared set by what `d` reaches. */
  lemma InvalidateNext(c0: Arena, g: Edges, pos: Position, pending: set<Position>, d: Position, c1: Arena, c2: Arena)
    requires pos in g && d in pending && pending <= g[pos]
    requires c1 == ClearCaches(c0, {pos} + ReachFromAll(g, g[pos] - pending))
    requires c2 == ClearCaches(c1, ReachSet(g, d))
    ensures c2 == ClearCaches(c0, {pos} + ReachFromAll(g, g[pos] - (pending - {d})))
  {
    var done := g[pos] - pending;
    ClearCachesCompose(c0, {pos} + ReachFromAll(g, done), ReachSet(g, d));
    ReachFromAllAdd(g, done, d);
    assert g[pos] - (pending - {d}) == done + {d};
    assert {pos} + ReachFromAll(g, done) + ReachSet(g, d) == {pos} + ReachFromAll(g, done + {d});
  }

  /** The cells at the given positions (`GetCellPtr` of each; a missing cell contributes
      nothing that can match). */
  method CellsAt(cells: Arena, refs: seq<Position>) returns (targets: set<Position>)
    ensures forall q :: q in targets <==> q in refs && q in cells
  {
    targets := {};
    var i := 0;
    while i < |refs|
      invariant 0 <= i <= |refs|
      invariant forall q :: q in targets <==> q in refs[..i] && q in cells
    {
      if refs[i] in cells {
        targets := targets + {refs[i]};
      }
      i := i + 1;
    }
    assert refs[..i] == refs;
  }

  /** Cell::HasCircularDependence for the cell at `pos`: a depth-first walk along `dependents`
      from `pos` that stops as soon as it meets a cell at one of the proposed positions. */
  method HasCircularDependence(cells: Arena, pos: Position, refs: seq<Position>) returns (cyclic: bool)
    requires EdgesInside(cells) && pos in cells
    ensures cyclic <==> Cyclic(cells, pos, refs)
  {
    if |refs| == 0 {
      return false;
    }
    var targets := CellsAt(cells, refs);
    var visited: set<Position> := {};
    var stack := [pos];
    ReachRefl(DependentEdges(cells), pos);
    while stack != []
      invariant Walking(cells, pos, targets, visited, stack)
      decreases cells.Keys - visited, |stack|
    {
      var current := stack[|stack| - 1];
      if current in targets {
        WalkHit(cells, pos, targets, visited, stack);
        return true;
      }
      var pushed := PushUnvisited(cells[current].dependents, visited + {current}, stack[..|stack| - 1]);
      WalkAdvance(cells, pos, targets, visited, stack, pushed);
      visited := visited + {current};
      stack := pushed;
    }
    WalkFindsEverything(cells, visited, pos);
    return false;
  }

  /** The inner loop of the walk: push every dependent of the current cell not yet visited. */
  method PushUnvisited(deps: set<Position>, visited: set<Position>, stack: seq<Position>)
    returns (r: seq<Position>)
    ensures |stack| <= |r| && r[..|stack|] == stack
    ensures forall j :: |stack| <= j < |r| ==> r[j] in deps && r[j] !in visited
    ensures forall d :: d in deps && d !in visited ==> d in r[|stack|..]
    ensures deps <= visited ==> r == stack
  {
    r := stack;
    var pending := deps;
    while pending != {}
      invariant pending <= deps
      invariant |stack| <= |r| && r[..|stack|] == stack
      invariant forall j :: |stack| <= j < |r| ==> r[j] in deps && r[j] !in visited
      invariant forall d :: d in deps && d !in visited && d !in pending ==> d in r[|stack|..]
      invariant deps <= visited ==> r == stack
      decreases pending
    {
      PositionSetHasElement(pending);
      var d :| d in pending;
      if d !in visited {
        assert (r + [d])[|stack|..] == r[|stack|..] + [d];
        r := r + [d];
      }
      pending := pending - {d};
    }
  }

  /** The invariant of the walk from `pos`: everything seen is reachable from `pos`, no target has
      been popped, and every popped cell has its dependents popped or waiting. */
  ghost predicate Walking(cells: Arena, pos: Position, targets: set<Position>, visited: set<Position>,
                          stack: seq<Position>)
  {
    && visited <= cells.Keys && SeqSet(stack) <= cells.Keys
    && visited + SeqSet(stack) <= ReachSet(DependentEdges(cells), pos)
    && visited !! targets
    && pos in visited + SeqSet(stack)
    && Explored(cells, visited, stack)
    && Frontier(cells, visited, stack)
  }

  /** A target on top of the stack is reachable from the start. */
  lemma WalkHit(cells: Arena, pos: Position, targets: set<Position>, visited: set<Position>, stack: seq<Position>)
    requires Walking(cells, pos, targets, visited, stack) && stack != []
    ensures stack[|stack| - 1] in ReachSet(DependentEdges(cells), pos)
  {
    assert stack[|stack| - 1] in SeqSet(stack);
  }

  /** Popping the top cell, marking it visited and pushing its unvisited dependents keeps the walk's
      invariant; a cell popped a second time pushes nothing, so the stack shrinks. */
  lemma WalkAdvance(cells: Arena, pos: Position, targets: set<Position>, visited: set<Position>,
                    stack: seq<Position>, pushed: seq<Position>)
    requires EdgesInside(cells) && Walking(cells, pos, targets, visited, stack) && stack != []
    requires stack[|stack| - 1] !in targets
    requires var base := stack[..|stack| - 1];
      var current := stack[|stack| - 1];
      && |base| <= |pushed| && pushed[..|base|] == base
      && (forall j :: |base| <= j < |pushed| ==>
            pushed[j] in cells[current].dependents && pushed[j] !in visited + {current})
      && (forall d :: d in cells[current].dependents && d !in visited + {current} ==> d in pushed[|base|..])
      && (cells[current].dependents <= visited + {current} ==> pushed == base)
    ensures stack[|stack| - 1] in cells
    ensures Walking(cells, pos, targets, visited + {stack[|stack| - 1]}, pushed)
    ensures stack[|stack| - 1] in visited ==> |pushed| < |stack|
  {
    var current := stack[|stack| - 1];
    var base := stack[..|stack| - 1];
    SplitLast(stack);
    assert current in SeqSet(stack);
    assert SeqSet(stack) == SeqSet(base) + {current};
    WalkStep(cells, visited, base, current, pushed);
    ReachSetStep(cells, pos, current);
  }

  /** Every visited cell has each dependent visited or waiting on the stack. */
  ghost predicate Explored(cells: Arena, visited: set<Position>, stack: seq<Position>) {
    forall v :: v in visited && v in cells ==> cells[v].dependents <= visited + SeqSet(stack)
  }

  /** A visited cell still on the stack has its unvisited dependents above it. */
  ghost predicate Frontier(cells: Arena, visited: set<Position>, stack: seq<Position>) {
    forall j :: 0 <= j < |stack| && stack[j] in visited && stack[j] in cells ==>
      cells[stack[j]].dependents <= visited + SeqSet(stack[j + 1..])
  }

  /** A walk that ends with an empty stack has visited everything its start reaches. */
  lemma WalkFindsEverything(cells: Arena, visited: set<Position>, pos: Position)
    requires visited <= cells.Keys && pos in visited && Explored(cells, visited, [])
    ensures ReachSet(DependentEdges(cells), pos) <= visited
  {
    var g := DependentEdges(cells);
    forall q | q in ReachSet(g, pos) ensures q in visited {
      ClosedSetHoldsReach(g, visited, pos, q);
    }
  }

  /** One step of the walk: popping `current` off `base + [current]`, marking it visited and pushing
      its unvisited dependents keeps both invariants; a cell popped twice pushes nothing. */
  lemma WalkStep(cells: Arena, visited: set<Position>, base: seq<Position>, current: Position, stack: seq<Position>)
    requires current in cells
    requires Explored(cells, visited, base + [current]) && Frontier(cells, visited, base + [current])
    requires |base| <= |stack| && stack[..|base|] == base
    requires forall j :: |base| <= j < |stack| ==> stack[j] in cells[current].dependents && stack[j] !in visited + {current}
    requires forall d :: d in cells[current].dependents && d !in visited + {current} ==> d in stack[|base|..]
    requires cells[current].dependents <= visited + {current} ==> stack == base
    ensures Explored(cells, visited + {current}, stack) && Frontier(cells, visited + {current}, stack)
    ensures current in visited ==> stack == base
    ensures SeqSet(stack) <= SeqSet(base) + cells[current].dependents
  {
    var old_ := base + [current];
    var v2 := visited + {current};
    assert SeqSet(stack) == SeqSet(base) + SeqSet(stack[|base|..]) by {
      assert stack == base + stack[|base|..];
    }
    if current in visited {
      assert old_[|base|] == current && old_[|base| + 1..] == [];
      assert cells[current].dependents <= visited;
    }
    forall j | 0 <= j < |stack| && stack[j] in v2 && stack[j] in cells
      ensures cells[stack[j]].dependents <= v2 + SeqSet(stack[j + 1..])
    {
      assert j < |base|;
      assert stack[j + 1..] == base[j + 1..] + stack[|base|..];
      forall d | d in cells[stack[j]].dependents ensures d in v2 + SeqSet(stack[j + 1..]) {
        if stack[j] == current {
          if d !in v2 {
            assert d in stack[|base|..];
          }
        } else {
          assert old_[j] == stack[j] && stack[j] in visited;
          assert old_[j + 1..] == base[j + 1..] + [current];
          assert d in visited + SeqSet(old_[j + 1..]);
        }
      }
    }
  }
}
