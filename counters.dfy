/** The occupancy counters of Sheet (`max_rows_`, `max_cols_`: line index -> number of cells on
    that line) and the printable size derived from them (sheet.cpp). */
module Counters {
  import opened Common

  datatype Axis = Row | Col

  function Coord(p: Position, axis: Axis): int {
    match axis
    case Row => p.row
    case Col => p.col
  }

  /** The cells of `keys` that lie on line `k` of `axis`. */
  ghost function Line(keys: set<Position>, axis: Axis, k: int): set<Position> {
    set p | p in keys && Coord(p, axis) == k
  }

  /** The counter map records exactly the occupied lines, each with its number of cells. */
  ghost predicate CountersMatch(m: map<int, int>, keys: set<Position>, axis: Axis) {
    && (forall k :: k in m <==> Line(keys, axis, k) != {})
    && (forall k :: k in m ==> m[k] == |Line(keys, axis, k)|)
  }

  /** `counter[k] += 1` on a std::map (a missing key starts at 0). */
  function Increment(m: map<int, int>, k: int): (r: map<int, int>)
    ensures r.Keys == m.Keys + {k}
    ensures r[k] == (if k in m then m[k] else 0) + 1
    ensures forall j :: j in m && j != k ==> r[j] == m[j]
  {
    m[k := (if k in m then m[k] else 0) + 1]
  }

  /** One step of Sheet::ChangePrintableSize on one map: a count that would drop to 0 or below
      erases its key instead. */
  function Decrement(m: map<int, int>, k: int): (r: map<int, int>)
    ensures r.Keys <= m.Keys && forall j :: j in m && j != k ==> j in r && r[j] == m[j]
    ensures k in r <==> k in m && m[k] > 1
    ensures k in r ==> r[k] == m[k] - 1
    // no stored counter is ever 0 or negative
    ensures (forall j :: j in m ==> m[j] > 0) ==> forall j :: j in r ==> r[j] > 0
  {
    var count := if k in m then m[k] else 0;
    if count - 1 <= 0 then m - {k} else m[k := count - 1]
  }

  /** Matching counters are determined by the cells. */
  lemma CountersDetermined(m1: map<int, int>, m2: map<int, int>, keys: set<Position>, axis: Axis)
    requires CountersMatch(m1, keys, axis) && CountersMatch(m2, keys, axis)
    ensures m1 == m2
  {
    assert forall k :: k in m1 <==> k in m2;
    assert m1.Keys == m2.Keys;
    forall k | k in m1 ensures m1[k] == m2[k] {
    }
  }

  /** Counting a new cell keeps the counters matching. */
  lemma IncrementMatches(m: map<int, int>, keys: set<Position>, axis: Axis, p: Position)
    requires CountersMatch(m, keys, axis) && p !in keys
    ensures CountersMatch(Increment(m, Coord(p, axis)), keys + {p}, axis)
  {
    var k0 := Coord(p, axis);
    var r := Increment(m, k0);
    assert Line(keys + {p}, axis, k0) == Line(keys, axis, k0) + {p};
    forall k | k != k0 ensures Line(keys + {p}, axis, k) == Line(keys, axis, k) {
    }
    forall k ensures k in r <==> Line(keys + {p}, axis, k) != {} {
      if k == k0 {
        assert p in Line(keys + {p}, axis, k);
      }
    }
  }

  /** Uncounting a removed cell keeps the counters matching. */
  lemma DecrementMatches(m: map<int, int>, keys: set<Position>, axis: Axis, p: Position)
    requires CountersMatch(m, keys, axis) && p in keys
    ensures CountersMatch(Decrement(m, Coord(p, axis)), keys - {p}, axis)
  {
    var k0 := Coord(p, axis);
    var r := Decrement(m, k0);
    assert p in Line(keys, axis, k0);
    assert Line(keys - {p}, axis, k0) == Line(keys, axis, k0) - {p};
    forall k | k != k0 ensures Line(keys - {p}, axis, k) == Line(keys, axis, k) {
    }
    assert |Line(keys - {p}, axis, k0)| == |Line(keys, axis, k0)| - 1;
    forall k ensures k in r <==> Line(keys - {p}, axis, k) != {} {
      if k == k0 {
        assert |Line(keys - {p}, axis, k)| == 0 <==> Line(keys - {p}, axis, k) == {};
      }
    }
  }

  /** Every finite non-empty set of integers has a greatest element. */
  lemma {:induction false} MaxExists(s: set<int>)
    requires s != {}
    ensures exists m :: m in s && forall x :: x in s ==> x <= m
  {
    IntSetHasElement(s);
    var x :| x in s;
    if s != {x} {
      MaxExists(s - {x});
      var m :| m in s - {x} && forall y :: y in s - {x} ==> y <= m;
      assert forall y :: y in s ==> y == x || y in s - {x};
      if x > m {
        assert forall y :: y in s ==> y <= x;
      } else {
        assert forall y :: y in s ==> y <= m;
      }
    } else {
      assert forall y :: y in s ==> y <= x;
    }
  }

  /** The last key of a non-empty std::map (`rbegin()->first`). */
  function MaxKey(m: map<int, int>): (r: int)
    requires m.Keys != {}
    ensures r in m && forall k :: k in m ==> k <= r
  {
    MaxExists(m.Keys);
    var r :| r in m.Keys && forall k :: k in m.Keys ==> k <= r;
    r
  }

  /** Sheet::GetPrintableSize on the counters: (0, 0) when either map is empty, otherwise one more
      than the last occupied row and column. */
  function PrintableSize(maxRows: map<int, int>, maxCols: map<int, int>): (s: Size)
    ensures maxRows.Keys == {} || maxCols.Keys == {} ==> s == Size(0, 0)
    ensures maxRows.Keys != {} && maxCols.Keys != {} ==>
      && s.rows - 1 in maxRows && (forall k :: k in maxRows ==> k < s.rows)
      && s.cols - 1 in maxCols && (forall k :: k in maxCols ==> k < s.cols)
  {
    if maxCols.Keys != {} && maxRows.Keys != {} then
      Size(MaxKey(maxRows) + 1, MaxKey(maxCols) + 1)
    else
      Size(0, 0)
  }

  /** When the counters match a set of valid cells, the printable size is the smallest rectangle
      anchored at (0, 0) holding every one of them: (0, 0) exactly when there is none, and otherwise
      every cell fits and some cell lies on the last row and some on the last column. */
  lemma PrintableSizeFitsCells(maxRows: map<int, int>, maxCols: map<int, int>, keys: set<Position>)
    requires CountersMatch(maxRows, keys, Row) && CountersMatch(maxCols, keys, Col)
    requires forall p :: p in keys ==> p.IsValid()
    ensures PrintableSize(maxRows, maxCols) == Size(0, 0) <==> keys == {}
    ensures forall p :: p in keys ==>
      p.row < PrintableSize(maxRows, maxCols).rows && p.col < PrintableSize(maxRows, maxCols).cols
    ensures keys != {} ==>
      && (exists p :: p in keys && p.row == PrintableSize(maxRows, maxCols).rows - 1)
      && (exists p :: p in keys && p.col == PrintableSize(maxRows, maxCols).cols - 1)
  {
    var s := PrintableSize(maxRows, maxCols);
    if keys == {} {
      forall k ensures k !in maxRows {
        assert Line(keys, Row, k) == {};
      }
      assert maxRows.Keys == {};
    } else {
      PositionSetHasElement(keys);
      var p :| p in keys;
      assert p in Line(keys, Row, p.row) && p in Line(keys, Col, p.col);
      assert p.row in maxRows && p.col in maxCols;
      assert s.rows >= 1;
      forall q | q in keys ensures q.row < s.rows && q.col < s.cols {
        assert q in Line(keys, Row, q.row) && q in Line(keys, Col, q.col);
      }
      var lastRow := Line(keys, Row, s.rows - 1);
      var lastCol := Line(keys, Col, s.cols - 1);
      assert lastRow != {} && lastCol != {};
      PositionSetHasElement(lastRow);
      PositionSetHasElement(lastCol);
      var a :| a in lastRow;
      var b :| b in lastCol;
    }
  }
}
