/** Four places where the code as written breaks an invariant the rest of the design relies on.
    Each is modelled here as written, with a lemma showing the breakage; the rest of the model uses
    the corrected behaviour (Sheet.ClearCell, the cache-clearing InvalidateCache, the lookup that
    raises its errors as FormulaError objects, Sheet.SetCell). */
module Findings {
  import opened Common
  import opened Formula
  import opened Content
  import opened Graph
  import opened Values
  import opened Counters

  // ---------------------------------------------------------------------------------------------
  // Sheet::ClearCell erases the cell even when other formulas still read it (sheet.cpp)

  /** Sheet::ClearCell as written on an existing cell: Cell::Clear, which runs the cache hook as
      written (so no reader loses its cache), then `cells_.erase(pos)`. */
  ghost function ClearCellAsWritten(cells: Arena, pos: Position): (r: Arena)
    requires pos in cells
    ensures r.Keys == cells.Keys - {pos}
  {
    CommitAsWrittenClearsNothing(cells, pos, Empty);
    CommittedAsWritten(cells, pos, Empty) - {pos}
  }

  /** Clearing a cell that some formula reads leaves that formula referencing a cell that no
      longer exists. */
  lemma ClearingReadCellDangles(cells: Arena, pos: Position, d: Position)
    requires Wf(cells) && pos in cells && d in cells[pos].dependents
    ensures pos !in ClearCellAsWritten(cells, pos)
    ensures d in ClearCellAsWritten(cells, pos) && pos in ClearCellAsWritten(cells, pos)[d].referenced
    ensures !EdgesInside(ClearCellAsWritten(cells, pos)) && !Wf(ClearCellAsWritten(cells, pos))
  {
    NoSelfDependent(cells, pos);
    assert d in cells && pos in cells[d].referenced;
    LinkedAt(cells, pos, Empty, d);
    var after := ClearCellAsWritten(cells, pos);
    assert after[d].referenced == cells[d].referenced;
    assert !(after[d].referenced <= after.Keys);
  }

  // ---------------------------------------------------------------------------------------------
  // Impl::InvalidateCache is empty and no variant overrides it (cell.h)

  /** The cache hook as written: it changes nothing. */
  function InvalidateCacheAsWritten(c: Content): (r: Content)
    ensures r == c && (c.FormulaContent? ==> r.cache == c.cache)
  {
    c
  }

  /** Cell::Set with the hook as written: the walk over the dependents runs, but clears nothing. */
  ghost function CommittedAsWritten(cells: Arena, pos: Position, c: Content): (r: Arena)
    requires pos in cells
    ensures r.Keys == Linked(cells, pos, c).Keys
    ensures forall k :: k in r ==> r[k].content == Linked(cells, pos, c)[k].content
  {
    var linked := Linked(cells, pos, c);
    var reach := ReachSet(DependentEdges(linked), pos);
    map k | k in linked ::
      if k in reach then linked[k].(content := InvalidateCacheAsWritten(linked[k].content)) else linked[k]
  }

  /** With the hook as written, the commit is the relinking alone: no cache anywhere is cleared. */
  lemma CommitAsWrittenClearsNothing(cells: Arena, pos: Position, c: Content)
    requires pos in cells
    ensures CommittedAsWritten(cells, pos, c) == Linked(cells, pos, c)
  {
  }

  /** After an edit, a formula that read the edited cell keeps its old cache, while its value is
      the one the corrected commit gives: the sheet stays coherent only if the edit happened not to
      change that formula's value. */
  lemma StaleCacheSurvivesEdit(env: Evaluator, cells: Arena, pos: Position, c: Content, d: Position)
    requires Wf(cells) && pos in cells && !Cyclic(cells, pos, Refs(c))
    requires d in cells[pos].dependents
    ensures Wf(CommittedAsWritten(cells, pos, c)) && Wf(Committed(cells, pos, c))
    ensures d in CommittedAsWritten(cells, pos, c) && d in Committed(cells, pos, c)
    ensures CommittedAsWritten(cells, pos, c)[d].content == cells[d].content
    ensures ValueOf(env, CommittedAsWritten(cells, pos, c), d) == ValueOf(env, Committed(cells, pos, c), d)
    ensures (Coherent(env, CommittedAsWritten(cells, pos, c)) && cells[d].content.FormulaContent?
             && cells[d].content.cache.Some?) ==>
      cells[d].content.cache.value == ValueOf(env, Committed(cells, pos, c), d)
  {
    CommitAsWrittenClearsNothing(cells, pos, c);
    CommitKeepsWf(cells, pos, c);
    NoSelfDependent(cells, pos);
    assert d in cells;
    LinkedAt(cells, pos, c, d);
    ValueIgnoresCaches(env, Linked(cells, pos, c), Committed(cells, pos, c));
  }

  // ---------------------------------------------------------------------------------------------
  // The lookup lambda of Formula::Evaluate throws bare FormulaError::Category values (formula.cpp)

  /** What Cell::GetValue gives a reader, as written: the value, or a bare category that escaped
      the evaluation of that cell. */
  type Read = Result<Value, FormulaError>

  /** The reader's view of what GetCell returned, with an escaped category dropped. */
  function Plain(seen: Option<Read>): Option<Value>
    requires seen.Some? ==> seen.value.Success?
  {
    if seen.Some? then Some(seen.value.value) else None
  }

  /** The lookup lambda as written: an invalid position and a non-numeric text throw a bare
      category; a cell whose own GetValue let a category escape passes it on; a cell's
      FormulaError is thrown as a FormulaError object. */
  function LookupAsWritten(ev: Evaluator, pos: Position, seen: Option<Read>): (r: Outcome)
    ensures !pos.IsValid() ==> r == Thrown(RefError)
    ensures pos.IsValid() && seen.Some? && seen.value.Failure? ==> r == Thrown(seen.value.error)
    // where nothing escaped from the cell read, only the Ref and Value errors differ from the
    // intended lookup, and only in being thrown as bare categories
    ensures (seen.Some? ==> seen.value.Success?) ==>
      && (!r.Thrown? ==> r == Lookup(ev, pos, Plain(seen)))
      && (r.Thrown? ==> Lookup(ev, pos, Plain(seen)) == Raised(r.category) && r.category in {RefError, ValueError})
  {
    if !pos.IsValid() then Thrown(RefError)
    else match seen
      case None => Ok(0.0)
      case Some(Failure(c)) => Thrown(c)
      case Some(Success(Num(n))) => Ok(n)
      case Some(Success(Str(text))) =>
        if text == "" then Ok(0.0)
        else (match ev.parseNumber(text)
              case Some(n) => Ok(n)
              case None => Thrown(ValueError))
      case Some(Success(Err(e))) => Raised(e)
  }

  /** The lookups handed to Execute, as written. */
  function ArgsAsWritten(ev: Evaluator, ast: Ast, seen: map<Position, Read>): map<Position, Outcome> {
    map q | q in ast.cells :: LookupAsWritten(ev, q, if q in seen then Some(seen[q]) else None)
  }

  /** Formula::Evaluate as written: `catch (const FormulaError&)` captures a thrown FormulaError,
      while a bare category escapes (Failure). */
  function EvaluateAsWritten(ev: Evaluator, ast: Ast, seen: map<Position, Read>): (r: Read)
    ensures r.Failure? <==> ast.execute(ArgsAsWritten(ev, ast, seen)).Thrown?
    ensures r.Success? ==> r.value.Num? || r.value.Err?
  {
    match ast.execute(ArgsAsWritten(ev, ast, seen))
    case Ok(n) => Success(Num(n))
    case Raised(e) => Success(Err(e))
    case Thrown(c) => Failure(c)
  }

  /** The visible cells' values as written. */
  function PlainMap(seen: map<Position, Read>): map<Position, Value>
    requires forall q :: q in seen ==> seen[q].Success?
  {
    map q | q in seen :: seen[q].value
  }

  /** Execute raises its own errors as FormulaError objects: a bare category comes out of it only
      when a lookup threw one. */
  ghost predicate OwnErrorsAreObjects(ast: Ast) {
    forall args: map<Position, Outcome> ::
      (forall q :: q in args ==> !args[q].Thrown?) ==> !ast.execute(args).Thrown?
  }

  /** When no lookup throws a bare category, the code as written and the intended Evaluate agree. */
  lemma EvaluateAgreesWithoutCategories(ev: Evaluator, ast: Ast, seen: map<Position, Read>)
    requires OwnErrorsAreObjects(ast)
    requires forall q :: q in seen ==> seen[q].Success?
    requires forall q :: q in ast.cells ==> !ArgsAsWritten(ev, ast, seen)[q].Thrown?
    ensures EvaluateAsWritten(ev, ast, seen) == Success(Evaluate(ev, ast, PlainMap(seen)))
  {
    var a, b := ArgsAsWritten(ev, ast, seen), Args(ev, ast, PlainMap(seen));
    forall q | q in a ensures a[q] == b[q] {
      var s := if q in seen then Some(seen[q]) else None;
      assert Plain(s) == if q in PlainMap(seen) then Some(PlainMap(seen)[q]) else None;
    }
    MapsEqual(a, b);
    assert !ast.execute(a).Thrown?;
  }

  /** Cell::GetValue as written, computed from scratch: a formula evaluates its expression with
      the as-written lookups over the cells GetCell returns, and a category that escapes the
      evaluation of a cell escapes the lookup of every formula reading it. */
  ghost function ValueOfAsWritten(env: Evaluator, cells: Arena, pos: Position): (r: Read)
    requires Wf(cells) && pos in cells
    ensures !cells[pos].content.FormulaContent? ==> r == Success(LiteralValue(cells[pos].content))
    decreases Ancestors(DependentEdges(cells), pos), 1
  {
    var c := cells[pos].content;
    if c.FormulaContent? then EvaluateAsWritten(env, c.ast, InputsAsWritten(env, cells, pos))
    else Success(LiteralValue(c))
  }

  /** The cells a formula reads as written: the same positions as Inputs. */
  ghost function InputsAsWritten(env: Evaluator, cells: Arena, pos: Position): (m: map<Position, Read>)
    requires Wf(cells) && pos in cells
    ensures m.Keys == Inputs(env, cells, pos).Keys
    decreases Ancestors(DependentEdges(cells), pos), 0
  {
    RefsHaveFewerAncestors(cells, pos);
    map q | q in SeqSet(Refs(cells[pos].content)) && q in cells && GetText(cells[q].content) != "" ::
      ValueOfAsWritten(env, cells, q)
  }

  /** A formula that is a single cell reference, `=` followed by `name`: Execute hands back the
      lookup of that cell, a throw included. */
  function RefAst(q: Position, name: string): (ast: Ast)
    ensures ast.cells == [q]
  {
    Ast([q], name, (args: map<Position, Outcome>) => if q in args then args[q] else Ok(0.0))
  }

  /** A reference to an invalid position (formula.cpp:29): as written the Ref category escapes the
      cell's GetValue, while the intended value is the Ref error. */
  lemma InvalidReferenceEscapes(env: Evaluator, cells: Arena, pos: Position, q: Position, name: string)
    requires Wf(cells) && pos in cells && !q.IsValid()
    requires cells[pos].content.FormulaContent? && cells[pos].content.ast == RefAst(q, name)
    ensures ValueOfAsWritten(env, cells, pos) == Failure(RefError)
    ensures ValueOf(env, cells, pos) == Err(RefError)
  {
    var ast := RefAst(q, name);
    assert ArgsAsWritten(env, ast, InputsAsWritten(env, cells, pos))[q] == Thrown(RefError);
    assert Args(env, ast, Inputs(env, cells, pos))[q] == Raised(RefError);
  }

  /** A reference to a cell whose text is not a number (formula.cpp:54): as written the Value
      category escapes the reading cell's GetValue, while the intended value is the Value error. */
  lemma TextReadEscapes(env: Evaluator, cells: Arena, pos: Position, q: Position, name: string)
    requires Wf(cells) && pos in cells && q.IsValid() && q in cells
    requires cells[pos].content.FormulaContent? && cells[pos].content.ast == RefAst(q, name)
    requires cells[q].content.Text? && TextValue(cells[q].content.text) != ""
    requires env.parseNumber(TextValue(cells[q].content.text)).None?
    ensures ValueOfAsWritten(env, cells, pos) == Failure(ValueError)
    ensures ValueOf(env, cells, pos) == Err(ValueError)
  {
    var ast := RefAst(q, name);
    var t := cells[q].content.text;
    assert q in SeqSet(Refs(cells[pos].content));
    assert GetText(cells[q].content) != "";
    assert InputsAsWritten(env, cells, pos)[q] == Success(Str(TextValue(t)));
    assert Inputs(env, cells, pos)[q] == Str(TextValue(t));
    assert ArgsAsWritten(env, ast, InputsAsWritten(env, cells, pos))[q] == Thrown(ValueError);
    assert Args(env, ast, Inputs(env, cells, pos))[q] == Raised(ValueError);
  }

  /** As written, a category that escapes one formula escapes every formula that reads it. */
  lemma EscapeReachesReaders(env: Evaluator, cells: Arena, pos: Position, q: Position, name: string)
    requires Wf(cells) && pos in cells && q.IsValid() && q in cells
    requires cells[pos].content.FormulaContent? && cells[pos].content.ast == RefAst(q, name)
    requires cells[q].content.FormulaContent? && ValueOfAsWritten(env, cells, q).Failure?
    ensures ValueOfAsWritten(env, cells, pos) == ValueOfAsWritten(env, cells, q)
  {
    var ast := RefAst(q, name);
    assert q in SeqSet(Refs(cells[pos].content));
    assert GetText(cells[q].content) != "";
    var c := ValueOfAsWritten(env, cells, q).error;
    assert InputsAsWritten(env, cells, pos)[q] == Failure(c);
    assert ArgsAsWritten(env, ast, InputsAsWritten(env, cells, pos))[q] == Thrown(c);
  }

  // ---------------------------------------------------------------------------------------------
  // Sheet::SetCell on a new position whose Cell::Set throws (sheet.cpp)

  /** Sheet::SetCell as written on a position with no cell, when Cell::Set throws: the Empty cell
      it inserted stays in `cells_`, and the counter updates after the call never run. */
  ghost function SetCellFailedAsWritten(cells: Arena, pos: Position): (r: Arena)
    requires pos !in cells
    ensures r.Keys == cells.Keys + {pos} && r[pos] == EmptyCell
    ensures forall k :: k in cells ==> r[k] == cells[k]
  {
    cells[pos := EmptyCell]
  }

  /** Counters that matched the cells before no longer match them: the left-over cell is
      uncounted, and a later successful SetCell on it finds it present and does not count it
      either. */
  lemma FailedSetLeavesUncountedCell(cells: Arena, pos: Position, m: map<int, int>, axis: Axis)
    requires pos !in cells && CountersMatch(m, cells.Keys, axis)
    ensures SetCellFailedAsWritten(cells, pos).Keys == cells.Keys + {pos}
    ensures !CountersMatch(m, SetCellFailedAsWritten(cells, pos).Keys, axis)
  {
    var keys := cells.Keys;
    var k := Coord(pos, axis);
    LineGrows(keys, pos, axis);
    assert SetCellFailedAsWritten(cells, pos).Keys == keys + {pos};
    if k in m {
      assert m[k] == |Line(keys, axis, k)|;
    }
  }

  /** The line of a new cell holds one cell more. */
  lemma LineGrows(keys: set<Position>, pos: Position, axis: Axis)
    requires pos !in keys
    ensures Line(keys + {pos}, axis, Coord(pos, axis)) != {}
    ensures |Line(keys + {pos}, axis, Coord(pos, axis))| == |Line(keys, axis, Coord(pos, axis))| + 1
  {
    var k := Coord(pos, axis);
    assert pos in Line(keys + {pos}, axis, k);
    assert Line(keys + {pos}, axis, k) == Line(keys, axis, k) + {pos};
  }

  /** On an empty sheet, a failed first SetCell leaves a cell behind while the printable size
      stays (0, 0). */
  lemma FailedFirstSetIsInvisible(pos: Position)
    ensures SetCellFailedAsWritten(map[], pos).Keys == {pos}
    ensures PrintableSize(map[], map[]) == Size(0, 0)
    ensures !CountersMatch(map[], SetCellFailedAsWritten(map[], pos).Keys, Row)
  {
    FailedSetLeavesUncountedCell(map[], pos, map[], Row);
  }
}
