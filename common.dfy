/** Positions, cell values and the error types shared by the spreadsheet engine. */
module Common {

  /** Grid bounds used by Position::IsValid (declared in common.h, which is not part of this model). */
  const MaxRows: int := 16384
  const MaxCols: int := 16384

  /** A cell address: zero-based row and column. */
  datatype Position = Position(row: int, col: int) {
    predicate IsValid() {
      0 <= row < MaxRows && 0 <= col < MaxCols
    }
  }

  /** The evaluator's `double`; its arithmetic lives in the expression evaluator, outside this model. */
  type Number = real

  /** FormulaError categories: a bad reference, a non-numeric text operand, or an arithmetic fault
      raised by the expression evaluator itself. */
  datatype FormulaError = RefError | ValueError | ArithmeticError

  /** CellInterface::Value: what reading a cell yields. */
  datatype Value = Str(text: string) | Num(number: Number) | Err(error: FormulaError)

  /** The structural failures the sheet reports to its client. */
  datatype SheetError = InvalidPosition | CircularDependency | FormulaSyntax

  /** Outcome of a mutating sheet operation: done, or rejected with the exception it throws. */
  datatype Status = Done | Failed(error: SheetError)

  datatype Option<+T> = None | Some(value: T)

  datatype Result<+T, +E> = Success(value: T) | Failure(error: E)

  /** The printable rectangle, anchored at (0, 0). */
  datatype Size = Size(rows: int, cols: int)

  /** A non-empty set of positions has an element (stated per element type: the solver needs
      the non-generic form to pick one). */
  lemma PositionSetHasElement(s: set<Position>)
    requires s != {}
    ensures exists p :: p in s
  {
    assert !(forall p :: p !in s);
  }

  lemma IntSetHasElement(s: set<int>)
    requires s != {}
    ensures exists k :: k in s
  {
    if forall k :: k !in s {
      assert false;
    }
  }

  /** The set of elements of a sequence. */
  ghost function SeqSet<T>(s: seq<T>): set<T> {
    set x | x in s
  }

  /** Two maps with the same keys and the same value at each key are equal. */
  lemma MapsEqual<K, V>(a: map<K, V>, b: map<K, V>)
    requires a.Keys == b.Keys && forall k :: k in a ==> a[k] == b[k]
    ensures a == b
  {
  }

  /** Adding a new key and removing it again gives back the map. */
  lemma AddThenRemove<K, V>(m: map<K, V>, k: K, v: V)
    requires k !in m
    ensures m[k := v].Keys - {k} == m.Keys
    ensures m[k := v] - {k} == m
  {
    assert (m[k := v] - {k}).Keys == m.Keys;
    MapsEqual(m[k := v] - {k}, m);
  }

  /** A non-empty sequence is its prefix followed by its last element. */
  lemma SplitLast<T>(s: seq<T>)
    requires |s| > 0
    ensures s == s[..|s| - 1] + [s[|s| - 1]]
  {
  }

  lemma SeqSetPrefix<T>(s: seq<T>, i: int)
    requires 0 <= i < |s|
    ensures SeqSet(s[..i + 1]) == SeqSet(s[..i]) + {s[i]}
    ensures SeqSet(s[..0]) == {} && s[..|s|] == s
  {
    assert s[..i + 1] == s[..i] + [s[i]];
  }
}
