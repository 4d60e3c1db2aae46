/** The formula glue of formula.cpp: parse-error wrapping, the cell lookup rule that decides what a
    formula sees when it reads another cell, error capture in Evaluate, and the filtering of
    referenced positions. The expression grammar itself (FormulaAST) is an external collaborator. */
module Formula {
  import opened Common

  /** What the lookup callback gives the expression evaluator for one position, and what Execute
      gives back: a number, a thrown FormulaError object, or a bare FormulaError::Category enum
      value thrown on its own (which a handler for FormulaError does not catch). */
  datatype Outcome = Ok(n: Number) | Raised(e: FormulaError) | Thrown(category: FormulaError)

  /** A parsed FormulaAST, seen through what the core asks of it:
      - `cells`: FormulaAST::GetCells, every position written in the expression (valid or not);
      - `expression`: FormulaAST::PrintFormula, the canonical re-print;
      - `execute`: FormulaAST::Execute, given the lookup outcome of every listed position;
        it yields a number or throws a FormulaError (its own arithmetic errors included). */
  datatype Ast = Ast(
    cells: seq<Position>,
    expression: string,
    execute: map<Position, Outcome> -> Outcome)

  /** The collaborators the core consumes: ParseFormulaAST (None when it throws) and the
      `istringstream >> double` plus `eof()` full-string number parse (None when it fails). */
  datatype Evaluator = Evaluator(
    parseAst: string -> Option<Ast>,
    parseNumber: string -> Option<Number>)

  /** FormulaException: the syntax error a malformed formula surfaces as. */
  datatype FormulaException = FormulaException

  /** ParseFormula: every failure of the parser comes out as a FormulaException. */
  function ParseFormula(ev: Evaluator, expression: string): (r: Result<Ast, FormulaException>)
    ensures r.Failure? <==> ev.parseAst(expression).None?
    ensures r.Success? ==> ev.parseAst(expression) == Some(r.value)
  {
    match ev.parseAst(expression)
    case None => Failure(FormulaException)
    case Some(ast) => Success(ast)
  }

  /** The lookup lambda of Formula::Evaluate, as the design intends it: every error it reports is
      a FormulaError the handler of Evaluate catches (the code as written throws bare categories
      for Ref and Value, see Findings). `seen` is the value of the cell that Sheet::GetCell
      returns at `pos`, or None when GetCell returns no cell (no cell at all, or a cell whose
      text is empty). */
  function Lookup(ev: Evaluator, pos: Position, seen: Option<Value>): (r: Outcome)
    // no bare category escapes the lookup
    ensures !r.Thrown?
    // an invalid position is a Ref error
    ensures !pos.IsValid() ==> r == Raised(RefError)
    // nothing visible there reads as zero
    ensures pos.IsValid() && seen.None? ==> r == Ok(0.0)
    // numbers pass unchanged; errors propagate unchanged, never re-wrapped
    ensures pos.IsValid() && seen.Some? && seen.value.Num? ==> r == Ok(seen.value.number)
    ensures pos.IsValid() && seen.Some? && seen.value.Err? ==> r == Raised(seen.value.error)
    // text: empty is zero, a full numeric parse is that number, anything else a Value error
    ensures pos.IsValid() && seen == Some(Str("")) ==> r == Ok(0.0)
    ensures pos.IsValid() && seen.Some? && seen.value.Str? && seen.value.text != "" ==>
      r == (match ev.parseNumber(seen.value.text)
            case Some(n) => Ok(n)
            case None => Raised(ValueError))
    // provenance: a raised error is Ref, Value, or the referenced cell's own error
    ensures r.Raised? ==> r.e == RefError || r.e == ValueError || seen == Some(Err(r.e))
  {
    if !pos.IsValid() then Raised(RefError)
    else match seen
      case None => Ok(0.0)
      case Some(Num(n)) => Ok(n)
      case Some(Str(text)) =>
        if text == "" then Ok(0.0)
        else (match ev.parseNumber(text)
              case Some(n) => Ok(n)
              case None => Raised(ValueError))
      case Some(Err(e)) => Raised(e)
  }

  /** The lookups handed to Execute: one per position the expression lists. `visible` maps each
      position GetCell would return a cell for to that cell's value. */
  function Args(ev: Evaluator, ast: Ast, visible: map<Position, Value>): map<Position, Outcome> {
    map q | q in ast.cells :: Lookup(ev, q, if q in visible then Some(visible[q]) else None)
  }

  /** Formula::Evaluate, as the design intends it: every error raised during execution becomes
      the result, and nothing escapes. */
  function Evaluate(ev: Evaluator, ast: Ast, visible: map<Position, Value>): (r: Value)
    ensures r.Num? || r.Err?
    ensures r.Num? <==> ast.execute(Args(ev, ast, visible)).Ok?
    ensures r.Num? ==> ast.execute(Args(ev, ast, visible)) == Ok(r.number)
    ensures r.Err? ==> ast.execute(Args(ev, ast, visible)) in {Raised(r.error), Thrown(r.error)}
  {
    match ast.execute(Args(ev, ast, visible))
    case Ok(n) => Num(n)
    case Raised(e) => Err(e)
    case Thrown(c) => Err(c)
  }

  /** What a formula evaluates to depends only on the cells its expression lists. */
  lemma EvaluateReadsOnlyListedCells(ev: Evaluator, ast: Ast, v1: map<Position, Value>, v2: map<Position, Value>)
    requires forall q :: q in ast.cells ==> (q in v1 <==> q in v2)
    requires forall q :: q in ast.cells && q in v1 ==> v1[q] == v2[q]
    ensures Evaluate(ev, ast, v1) == Evaluate(ev, ast, v2)
  {
    assert Args(ev, ast, v1) == Args(ev, ast, v2);
  }

  /** The filter of Formula::GetReferencedCells: the valid positions, in their original order. */
  function ValidCells(ps: seq<Position>): (r: seq<Position>)
    ensures forall p :: p in r <==> p in ps && p.IsValid()
    ensures |r| <= |ps|
  {
    if ps == [] then []
    else (if ps[0].IsValid() then [ps[0]] else []) + ValidCells(ps[1..])
  }

  /** Filtering commutes with concatenation, so the AST's order is kept. */
  lemma {:induction false} ValidCellsAppend(a: seq<Position>, b: seq<Position>)
    ensures ValidCells(a + b) == ValidCells(a) + ValidCells(b)
  {
    if a == [] {
      assert a + b == b;
    } else {
      assert (a + b)[0] == a[0];
      assert (a + b)[1..] == a[1..] + b;
      ValidCellsAppend(a[1..], b);
    }
  }

  /** A sequence of valid positions passes the filter unchanged. */
  lemma {:induction false} ValidCellsKeepsValid(ps: seq<Position>)
    requires forall p :: p in ps ==> p.IsValid()
    ensures ValidCells(ps) == ps
  {
    if ps != [] {
      ValidCellsKeepsValid(ps[1..]);
    }
  }

  /** Formula::GetReferencedCells. */
  function GetReferencedCells(ast: Ast): (r: seq<Position>)
    ensures forall p :: p in r <==> p in ast.cells && p.IsValid()
  {
    ValidCells(ast.cells)
  }
}
