# cpp-spreadsheet: the cell graph and sheet storage, in Dafny

This project models the core of a small spreadsheet engine.

A `Sheet` stores cells by position. It also keeps, for every row and every column, how many cells
lie on it; the printable size is derived from those counters. A cell holds one of three contents:
- Empty;
- Text (a leading `'` escapes it);
- a Formula with a lazily filled value cache.

A formula's references are kept as two mutual edge sets:
- `referenced`: the cells it reads;
- `dependents`: the cells that read it.

Every edit runs the same steps:
1. Classify the input text as Empty, Text or Formula.
2. Refuse it if it would close a cycle in the `dependents` graph.
3. Install the new content.
4. Relink the edges, creating an Empty placeholder for a referenced position that has no cell.
5. Invalidate the cache of the edited cell and of every cell that transitively depends on it.

Reading a formula's value works as follows:
- It evaluates the formula on the values of the cells it references.
- Each value is coerced to a number by a fixed lookup rule.
- A formula error is meant to be captured as the cell's value. As written, the Ref and Value errors
  of the lookup escape instead (see "## Findings"); the model computes the intended values and
  models the escape separately in `findings.dfy`.

The files:
- `common.dfy`: positions, values, errors, `Option` and `Result`.
- `formula.dfy`: `ParseFormula`, the lookup rule, `Evaluate` and the reference filter.
  - The expression grammar (FormulaAST) is kept abstract: an `Ast` carries the positions it lists, its re-print, and an execute function.
  - Parsing and the full-string number parse are parameters of an `Evaluator`.
- `content.dfy`: the content variants, text classification and literal values.
- `graph.dfy`: the cell arena `map<Position, Cell>` and reachability along `dependents`.
  - It defines the well-formedness invariant `Wf`: edges stay inside the arena, the two edge sets are mutual, references match content, and the graph is acyclic.
  - It defines the state after a committed edit (`Linked`, `Committed`).
- `values.dfy`: `ValueOf`, the value of a cell computed from scratch, and `Coherent`: every present cache equals that value.
- `counters.dfy`: the row and column counters and the printable size.
- `sheet.dfy`: the class `Sheet` with the operations of `Sheet` and of `Cell`. A cell's method acts on the arena through the cell's position.
- `findings.dfy`: the four places where the code breaks the invariants, as written.

The sheet's invariant `Valid()` has three parts:
- the arena is well formed and coherent;
- every cell sits at a valid position;
- the counters count exactly the cells.

Every state-changing operation preserves `Valid()`.

Apart from the four places listed under "## Findings", where the main model takes the corrected
behaviour and `findings.dfy` keeps the code as written, the model follows the code. In particular,
the printable size counts every cell, Empty placeholders included, rather than only the cells with
non-empty text.

## Model

| member | source | states |
|---|---|---|
| Formula.ParseFormula | spreadsheet/formula.cpp:86-93 | fails with a FormulaException exactly when the parser rejects the expression, and otherwise yields the parser's tree |
| Formula.Lookup | spreadsheet/formula.cpp:26-58 | an invalid position raises Ref; no visible cell reads as 0; a number passes unchanged; empty text is 0; text that parses completely is that number and any other text raises Value; a cell's error propagates unchanged; a raised error is only ever Ref, Value or the cell's own error; it never throws a bare category (the intended lookup; see Findings.LookupAsWritten) |
| Formula.Evaluate | spreadsheet/formula.cpp:60-64 | the intended evaluation: the result is a number or an error, a number exactly when execution returned that number, and an error exactly when execution raised or threw that error |
| Formula.EvaluateReadsOnlyListedCells | spreadsheet/formula.cpp:24-65 | two sheets that agree on the positions the expression lists give the same result |
| Formula.GetReferencedCells | spreadsheet/formula.cpp:67-73 | holds exactly the listed positions that are valid |
| Formula.ValidCellsAppend | spreadsheet/formula.cpp:69-71 | the filter distributes over concatenation, so the listed order is kept |
| Formula.ValidCellsKeepsValid | spreadsheet/formula.cpp:69-71 | a list of valid positions passes the filter unchanged |
| Content.GetText | spreadsheet/cell.h:53-104 | Empty prints "", Text prints its text verbatim, a formula prints `=` followed by its expression |
| Content.HasCache | spreadsheet/cell.h:37-39 | every content reports a cache |
| Content.TextValue | spreadsheet/cell.h:64-70 | a leading `'` is stripped from the value; any other text is its own value |
| Content.LiteralValue | spreadsheet/cell.h:43-84 | Empty has value "" and text ""; Text has the stripped text as its value |
| Content.Refs | spreadsheet/cell.h:34-36 | Empty and Text reference nothing; a formula references exactly its valid listed positions |
| Content.InvalidateCache | spreadsheet/cell.h:40 | the intended hook: a formula loses its cache while its variant, text and references are unchanged; Empty and Text are untouched |
| Content.Classify | spreadsheet/cell.cpp:15-24 | `=` plus at least one character is a formula parsed from the rest, with an empty cache, re-printed as `=` plus its expression; the empty text is Empty; anything else, a lone `=` included, is Text kept verbatim; it fails exactly when the formula does not parse |
| Content.EscapedTextRoundTrip | spreadsheet/cell.h:64-71 | an escaped entry is Text whose value drops the `'` and whose text is the entry as typed |
| Counters.Increment | spreadsheet/sheet.cpp:32-33 | the counter of `k` grows by one, starting from 0 when absent, and no other counter changes |
| Counters.Decrement | spreadsheet/sheet.cpp:67-79 | the counter of `k` drops by one; a count that would reach 0 or less is erased instead; no other counter changes; it never stores a non-positive count |
| Counters.CountersDetermined | spreadsheet/sheet.h:41-42 | two counter maps that both count the same cells are equal |
| Counters.IncrementMatches | spreadsheet/sheet.cpp:32-33 | counting a new cell keeps the counters exact |
| Counters.DecrementMatches | spreadsheet/sheet.cpp:67-79 | uncounting a removed cell keeps the counters exact |
| Counters.MaxKey | spreadsheet/sheet.cpp:84-85 | the last key of a non-empty map: present, and no key is larger |
| Counters.PrintableSize | spreadsheet/sheet.cpp:81-88 | (0, 0) when either map is empty; otherwise each dimension is one more than the largest key, and that key is present |
| Counters.PrintableSizeFitsCells | spreadsheet/sheet.cpp:81-88 | with exact counters, the size is (0, 0) exactly when there are no cells; every cell lies inside it; some cell is on its last row and some on its last column |
| Graph.ReachSetShrinks | spreadsheet/cell.cpp:60-62 | along a dependents edge of an acyclic graph, strictly fewer cells are reachable (the invalidation recursion terminates) |
| Graph.ClosedSetHoldsReach | spreadsheet/cell.cpp:81-94 | a set closed under dependents that holds the start holds everything the start reaches |
| Graph.RelinkAfterUnlink | spreadsheet/cell.cpp:98-113 | unlinking a cell and then linking it to `u` is the same as relinking it to `u` |
| Graph.UnlinkIsRelinkNothing | spreadsheet/cell.cpp:99-102 | dropping the cell from the dependents of everything it references, then clearing its references, is relinking it to nothing |
| Graph.RelinkAdd | spreadsheet/cell.cpp:104-112 | linking one more position, after adding a placeholder there if needed, is relinking with that position added |
| Graph.LinkKeepsAcyclic | spreadsheet/cell.cpp:26-31 | relinking a cell only to positions it does not reach keeps the dependents graph acyclic |
| Graph.CommitKeepsWf | spreadsheet/cell.cpp:26-33 | an edit that passed the cycle check leaves a well-formed arena, whose cells are the old ones plus the new placeholders |
| Graph.ClearedCell | spreadsheet/cell.cpp:36-38 | after Clear the cell stays, with no content and no references, and keeps its dependents |
| Graph.NoSelfDependent | spreadsheet/cell.cpp:66-95 | in a well-formed arena no cell depends on itself |
| Graph.AddIsolatedWf | spreadsheet/sheet.cpp:28 | inserting a new Empty cell keeps the arena well formed |
| Graph.RemoveUnlinkedWf | spreadsheet/sheet.cpp:61 | erasing a cell with no edges keeps the arena well formed |
| Values.ValueOf | spreadsheet/cell.h:92-100 | Empty and Text give their literal value; a formula gives a number or an error |
| Values.Inputs | spreadsheet/formula.cpp:32-36 | a formula sees exactly the referenced cells whose text is non-empty |
| Values.ValueIgnoresCaches | spreadsheet/cell.h:92-100 | caches play no part in any value |
| Values.InputsCollected | spreadsheet/formula.cpp:26-61 | looking up every listed position in order collects exactly the formula's inputs |
| Values.ReadStep | spreadsheet/formula.cpp:32-40 | a cell a formula reads exists, has fewer ancestors, and has the same text and value whatever the caches hold |
| Values.StoreCacheKeepsCoherent | spreadsheet/cell.h:93-95 | storing a formula's own value in its cache keeps every cache correct |
| Values.ClearCachesKeepsCoherent | spreadsheet/cell.cpp:56-64 | clearing any caches keeps every cache correct |
| Values.AddIsolatedKeepsCoherent | spreadsheet/sheet.cpp:28 | a new Empty cell changes no value |
| Values.RemoveUnlinkedKeepsCoherent | spreadsheet/sheet.cpp:61 | erasing a cell nobody reads changes no other value |
| Values.CommitKeepsCachedValue | spreadsheet/cell.cpp:31-33 | a cache that survives an edit belongs to a cell whose value did not change |
| Values.CommitKeepsCoherent | spreadsheet/cell.cpp:26-33 | after an edit that passed the cycle check, every cache still present holds its cell's value |
| Spreadsheet.Materialized | spreadsheet/sheet.cpp:22-28 | the arena with a cell at the position: the existing one or a fresh Empty one |
| Spreadsheet.NewCellCycleIsSelfReference | spreadsheet/cell.cpp:66-95 | for a brand-new cell, a cycle is found exactly when the formula references its own position |
| Spreadsheet.Field | spreadsheet/sheet.cpp:121-126 | no cell prints nothing; a Text cell prints its text; a formula prints `=` first; a non-empty field comes from a cell that is not Empty |
| Spreadsheet.GridRow | spreadsheet/sheet.cpp:116-127 | a printed line has one field per column |
| Spreadsheet.GridRowAt | spreadsheet/sheet.cpp:116-127 | field `c` of a printed line holds the text of the cell at that column, or nothing |
| Spreadsheet.Grid | spreadsheet/sheet.cpp:114-129 | one printed line per row of the printable size, each with one field per column |
| Spreadsheet.GridAt | spreadsheet/sheet.cpp:114-129 | line `r` of the grid is the printed line of row `r` |
| Spreadsheet.JoinStep | spreadsheet/sheet.cpp:117-120 | a tab goes before every field except the first |
| Spreadsheet.RenderStep | spreadsheet/sheet.cpp:128 | every line ends with a newline |
| Spreadsheet.GridShowsCells | spreadsheet/sheet.cpp:112-130 | a rectangle holding every cell shows each cell's text at its position and nothing where there is no cell |
| Spreadsheet.WalkFindsEverything | spreadsheet/cell.cpp:81-95 | when the worklist empties, every cell reachable from the start has been visited |
| Spreadsheet.WalkHit | spreadsheet/cell.cpp:82-88 | a proposed cell found on top of the worklist is reachable from the start, so `true` is a real cycle |
| Spreadsheet.WalkAdvance | spreadsheet/cell.cpp:81-93 | one loop turn keeps the walk's invariant (everything seen is reachable, no target popped, every popped cell has its dependents popped or waiting), and a cell popped a second time shrinks the worklist |
| Spreadsheet.WalkStep | spreadsheet/cell.cpp:82-93 | one pop-and-push step keeps the walk's invariants; a cell popped a second time pushes nothing |
| Spreadsheet.PushUnvisited | spreadsheet/cell.cpp:89-93 | keeps the stack, and pushes exactly the dependents not yet visited |
| Spreadsheet.InvalidateFirst | spreadsheet/cell.cpp:57-58 | the hook on the cell itself clears exactly its cache |
| Spreadsheet.InvalidateNext | spreadsheet/cell.cpp:60-62 | invalidating one more dependent extends the cleared set by everything that dependent reaches |
| Spreadsheet.Sheet.constructor | spreadsheet/sheet.cpp:132-134 | a new sheet is empty and valid |
| Spreadsheet.Sheet.GetCellPtr | spreadsheet/sheet.cpp:136-146 | an invalid position is an InvalidPosition error; otherwise it returns the cell there, placeholders included, or nothing |
| Spreadsheet.Sheet.GetCell | spreadsheet/sheet.cpp:37-47 | an invalid position is an InvalidPosition error; otherwise it returns the cell exactly when one exists with non-empty text |
| Spreadsheet.Sheet.InputsAreVisibleCells | spreadsheet/formula.cpp:32-36 | a formula's inputs are exactly the referenced cells GetCell returns |
| Spreadsheet.Sheet.IsReferenced | spreadsheet/cell.cpp:52-54 | true exactly when some cell references this one |
| Spreadsheet.Sheet.GetPrintableSize | spreadsheet/sheet.cpp:81-88 | the printable size of the current counters |
| Spreadsheet.Sheet.PrintableSizeIsBoundingBox | spreadsheet/sheet.cpp:81-88 | in a valid sheet the size is the smallest rectangle at (0, 0) holding every cell, and (0, 0) exactly when there are none |
| Spreadsheet.CellsAt | spreadsheet/cell.cpp:75-77 | collects exactly the proposed positions that have a cell |
| Spreadsheet.HasCircularDependence | spreadsheet/cell.cpp:66-95 | true exactly when some proposed position names a cell reachable from this one in zero or more dependents steps (so false for no proposal and true for a self-reference) |
| Spreadsheet.Sheet.AddPlaceholder | spreadsheet/cell.cpp:107-110 | inserts an Empty cell without edges and counts it on its row and column |
| Spreadsheet.Sheet.Unlink | spreadsheet/cell.cpp:99-102 | the cell references nothing, nobody lists it as a dependent, and the counters are unchanged |
| Spreadsheet.Sheet.LinkOne | spreadsheet/cell.cpp:104-112 | one more position is linked both ways, with a placeholder created if needed |
| Spreadsheet.Sheet.Link | spreadsheet/cell.cpp:104-113 | the cell references exactly the proposed positions, each lists it as a dependent, and new placeholders are counted |
| Spreadsheet.Sheet.UpdateCellsDependence | spreadsheet/cell.cpp:98-113 | afterwards the cell references exactly the proposed positions, each has a cell listing it, no other cell lists it, and the counters stay exact |
| Spreadsheet.Sheet.InvalidateCellCache | spreadsheet/cell.cpp:56-64 | the hook has run on exactly the cell and every cell it transitively reaches; the counters are unchanged |
| Spreadsheet.Sheet.Commit | spreadsheet/cell.cpp:29-33 | the arena becomes the committed state, well formed and coherent |
| Spreadsheet.Sheet.Set | spreadsheet/cell.cpp:15-34 | fails with a syntax error exactly when parsing fails; fails with a cycle error exactly when the cycle check fires; a failure changes nothing; success yields the committed state |
| Spreadsheet.Sheet.ChangePrintableSize | spreadsheet/sheet.cpp:67-79 | decrements the row and column counters, erasing non-positive ones; after a cell's removal the counters are exact again |
| Spreadsheet.Sheet.SetCell | spreadsheet/sheet.cpp:16-35 | an invalid position is refused; the error cases match Set's on the cell that is there or a fresh one; any failure changes nothing; success yields the committed state, with a new cell counted; validity is kept |
| Spreadsheet.Sheet.SetFresh | spreadsheet/sheet.cpp:26-34 | the branch for a position with no cell: the same outcomes, and the new cell is counted only on success |
| Spreadsheet.Sheet.Count | spreadsheet/sheet.cpp:32-33 | counting the one uncounted cell makes the counters exact |
| Spreadsheet.Sheet.Clear | spreadsheet/cell.cpp:36-38 | Set with the empty text: it always succeeds, and the cell stays with no content and no references but keeps its dependents; the counters are unchanged |
| Spreadsheet.Sheet.Remove | spreadsheet/sheet.cpp:61-63 | erases a cell without edges and uncounts it, keeping the sheet valid |
| Spreadsheet.Sheet.ClearCell | spreadsheet/sheet.cpp:53-65 | an invalid position is refused; a missing position changes nothing; otherwise GetCell returns nothing there afterwards; the cell is erased when nobody reads it and kept as a placeholder otherwise; validity is kept |
| Spreadsheet.Sheet.GetValue | spreadsheet/cell.h:92-100 | returns the value computed from scratch whatever the caches held; afterwards the formula's cache holds it; only caches change; the sheet stays valid |
| Spreadsheet.Sheet.StoreCache | spreadsheet/cell.h:93-95 | the formula's cache becomes its value and nothing else changes |
| Spreadsheet.Sheet.ReadInputs | spreadsheet/formula.cpp:26-61 | the lookups over the listed positions collect exactly the values of the visible cells |
| Spreadsheet.Sheet.ReadInput | spreadsheet/formula.cpp:28-40 | one lookup yields the value of the cell GetCell returns, or nothing for an invalid position or no visible cell |
| Spreadsheet.Sheet.PrintTexts | spreadsheet/sheet.cpp:112-130 | the output is the rendered grid of texts over the printable size |
| Spreadsheet.Sheet.PrintRows | spreadsheet/sheet.cpp:114-129 | one rendered line per row |
| Spreadsheet.Sheet.PrintLine | spreadsheet/sheet.cpp:115-128 | a line is its fields joined by tabs |
| Spreadsheet.Sheet.TextAt | spreadsheet/sheet.cpp:121-126 | a field is the text of the cell GetCell returns, or nothing |
| Spreadsheet.Sheet.PrintableSizeIsValid | spreadsheet/sheet.cpp:81-88 | the printable size is within the sheet's bounds |
| Spreadsheet.Sheet.TextsShowEveryCell | spreadsheet/sheet.cpp:112-130 | the printed grid shows every cell's text at its place, and nothing where there is no cell |
| Spreadsheet.Sheet.CellsFitPrintableSize | spreadsheet/sheet.cpp:81-88 | every cell lies inside the printable size |
| Findings.ClearCellAsWritten | spreadsheet/sheet.cpp:58-62 | ClearCell as written: the cell is cleared and then erased, whatever reads it |
| Findings.ClearingReadCellDangles | spreadsheet/sheet.cpp:58-64 | as written, clearing a cell that a formula reads erases it while the formula still references it, so the arena is no longer well formed |
| Findings.InvalidateCacheAsWritten | spreadsheet/cell.h:40 | the hook as written leaves every content, a formula's cache included, unchanged |
| Findings.CommittedAsWritten | spreadsheet/cell.cpp:26-33 | an edit as written has the cells and contents of the relinked arena |
| Findings.CommitAsWrittenClearsNothing | spreadsheet/cell.h:40 | with the hook as written, an edit relinks the edges but clears no cache |
| Findings.StaleCacheSurvivesEdit | spreadsheet/cell.cpp:33 | as written, a dependent keeps its old cache after an edit, so the sheet stays coherent only if its value did not change |
| Findings.LookupAsWritten | spreadsheet/formula.cpp:26-58 | as written, an invalid position throws a bare Ref category and a category escaping a read cell passes on; where no read escaped, it agrees with the intended lookup except that Ref and Value are thrown as bare categories |
| Findings.EvaluateAsWritten | spreadsheet/formula.cpp:60-64 | as written, a bare category escapes exactly when execution threw one; otherwise the result is a number or an error |
| Findings.EvaluateAgreesWithoutCategories | spreadsheet/formula.cpp:24-65 | when no lookup throws a bare category, the code as written gives the intended result |
| Findings.ValueOfAsWritten | spreadsheet/cell.h:92-100 | as written, Empty and Text give their literal value; a formula may let a category escape |
| Findings.InputsAsWritten | spreadsheet/formula.cpp:32-36 | the as-written reads cover exactly the intended inputs |
| Findings.InvalidReferenceEscapes | spreadsheet/formula.cpp:28-30 | `=` with an invalid reference: as written the Ref category escapes GetValue, while the intended value is the Ref error |
| Findings.TextReadEscapes | spreadsheet/formula.cpp:42-55 | a formula reading a non-numeric text: as written the Value category escapes GetValue, while the intended value is the Value error |
| Findings.EscapeReachesReaders | spreadsheet/cell.cpp:40-42 | as written, a category escaping one formula escapes every formula that reads it |
| Findings.SetCellFailedAsWritten | spreadsheet/sheet.cpp:28-30 | a failed Set on a new position as written keeps the inserted Empty cell and changes no other cell |
| Findings.FailedSetLeavesUncountedCell | spreadsheet/sheet.cpp:28-33 | as written, a failed Set on a new position leaves a cell that the counters do not count |
| Findings.FailedFirstSetIsInvisible | spreadsheet/sheet.cpp:28-33 | on an empty sheet the left-over cell exists while the printable size stays (0, 0) |

## Left out

- FormulaAST: the parsing, execution, cell listing and printing of expressions are not part of this model. An `Ast` carries the listed positions, the re-print and an execute function. The parser is a parameter.
- Floating point: numbers are `real`. The `istringstream >> double` full-string parse is an uninterpreted parameter `parseNumber`.
- `Sheet::PrintValues` streams doubles and errors to an output stream. It is not modelled; `PrintTexts` is modelled as the string it writes.
- `Position`, `IsValid`, `Size` and the sheet bounds come from common.h, which is not part of this model. Valid positions are taken to be 0 ≤ row < 16384 and 0 ≤ col < 16384.
- `CellHasher` and `Position::ToString` are hashing details and are left out.
- C++ ownership (`unique_ptr`, raw `Cell*` sets, `const_cast`) is replaced by position keys in the arena.
- Spreadsheet.Sheet.ReadInputs: Execute may look up the listed positions lazily, in any order, or more than once. The model reads every valid listed position once, in order, before executing. The results agree because a read changes only caches.
- Spreadsheet.Sheet.InvalidateCellCache: the recursion can revisit a dependent shared by two paths. The model states the set of cells whose hook has run, not how many times it ran.
- Spreadsheet.HasCircularDependence: a cell pushed from two parents may be popped twice. The model proves termination and the result, not a bound on the number of pops.
- Exceptions are modelled as a returned `Status` (`Failed(InvalidPosition)`, `Failed(CircularDependency)`, `Failed(FormulaSyntax)`).
- Formula.Lookup: models the intended lookup, which raises Ref and Value as FormulaError objects. As written it throws them as bare categories (formula.cpp:29, :54); see Findings.LookupAsWritten.
- Formula.Evaluate: models the intended capture of every lookup error as the result. As written a bare category escapes the `catch (const FormulaError&)`; see Findings.EvaluateAsWritten.
- Values.ValueOf: gives the intended value of every cell. As written a formula whose lookup throws a bare category has no value: the category escapes `Cell::GetValue`; see Findings.ValueOfAsWritten.
- Values.Inputs: holds the intended values of the visible cells; the as-written reads, which may carry an escaped category, are Findings.InputsAsWritten.
- Spreadsheet.Sheet.GetValue: returns and caches the intended value. As written an escaping category leaves the cache empty and propagates to the caller (see "## Findings").
- Spreadsheet.Sheet.ReadInputs: collects the intended values; as written the first read that lets a category escape ends the evaluation of the reader.
- Spreadsheet.Sheet.ReadInput: yields the intended value of the read cell. As written `cell->GetValue()` (formula.cpp:38) may itself throw a bare category escaping from that cell's evaluation, and the lookup passes it on; see Findings.EscapeReachesReaders.
- Findings.OwnErrorsAreObjects: the as-written side takes Execute to raise its own errors (division by zero and the like) as FormulaError objects, since FormulaAST is not part of this model.
- The recursive `InvalidateCellCache()` call passes no argument. It is modelled with `flag` false. `HasCache` is true for every content, so the flag never decides anything.

## Findings

| source | as written | input that shows it | evidently intended | confidence | as-written member | corrected member |
|---|---|---|---|---|---|---|
| spreadsheet/sheet.cpp:58-64 | ClearCell erases the cell even when formulas still reference it; IsReferenced is never consulted | SetCell(A1, "=B1"), then ClearCell(B1): A1 still references B1, which no longer exists | a referenced cell stays behind as an Empty placeholder; only an unreferenced cell is erased and uncounted | not executed | Findings.ClearingReadCellDangles | Spreadsheet.Sheet.ClearCell |
| spreadsheet/cell.h:40 | InvalidateCache is empty and FormulaImpl does not override it, so the invalidation walk clears nothing | SetCell(A1, "=B1"), read A1 (cache 0), SetCell(B1, "7"): A1 still returns 0 | the hook clears a formula's cache, so every cell the edit can affect is recomputed | not executed | Findings.StaleCacheSurvivesEdit | Values.CommitKeepsCoherent |
| spreadsheet/formula.cpp:26-64 | the lookup throws a bare `FormulaError::Category` at lines 29 and 54, which `catch (const FormulaError&)` at line 62 does not match, so the error escapes Evaluate, Cell::GetValue (leaving the cache empty) and every formula reading the cell | SetCell(B1, "abc"), SetCell(A1, "=B1"), GetValue(A1): Category::Value is thrown; likewise a formula referencing a position beyond the sheet's bounds throws Category::Ref | the cell's value is the Value or Ref error, and readers see it as that error | not executed | Findings.TextReadEscapes | Formula.Evaluate |
| spreadsheet/sheet.cpp:28-33 | when Set throws for a new position, the Empty cell inserted first stays in the map but is never counted | SetCell(A1, "=A1") throws, then SetCell(A1, "5"): A1 holds "5" and the printable size is (0, 0) | a failed SetCell leaves the sheet as it was; the new cell is removed again | not executed | Findings.FailedSetLeavesUncountedCell | Spreadsheet.Sheet.SetCell |
