/** The orders in which the nested loops of the LP builder push their items:
    a cadet-major grid of (cadet, AFSC) cells, a column over the cadets for one
    AFSC, and a concatenation of equal-width blocks, one per AFSC. The cell and
    block contents are parameters, so the positional facts hold for every
    family of terms and constraints at once. */
module Layout {

  /** `i * m`, as the sum of `i` rows of `m`: where row `i` of a grid starts. */
  function RowStart(i: nat, m: nat): nat {
    if i == 0 then 0 else RowStart(i - 1, m) + m
  }

  lemma {:induction false} RowStartIsProduct(i: nat, m: nat)
    ensures RowStart(i, m) == i * m
  {
    if i > 0 {
      RowStartIsProduct(i - 1, m);
      assert (i - 1) * m + m == i * m;
    }
  }

  /** Every position of row `i` comes before row `n` starts, for `i < n`. */
  lemma {:induction false} RowStartBound(i: nat, j: nat, n: nat, m: nat)
    requires i < n && j < m
    ensures RowStart(i, m) + j < RowStart(n, m)
  {
    if i < n - 1 {
      RowStartBound(i, j, n - 1, m);
    }
  }

  /** The cells an inner loop over `cols` pushes for the row item `r`. */
  function RowCells<R, C, T>(r: R, cols: seq<C>, cell: (R, C) -> T): (s: seq<T>)
    ensures |s| == |cols|
    ensures forall j :: 0 <= j < |cols| ==> s[j] == cell(r, cols[j])
  {
    if cols == [] then []
    else RowCells(r, cols[..|cols| - 1], cell) + [cell(r, cols[|cols| - 1])]
  }

  /** The cells an inner loop over `rows` pushes for the column item `c`. */
  function ColumnCells<R, C, T>(rows: seq<R>, c: C, cell: (R, C) -> T): (s: seq<T>)
    ensures |s| == |rows|
    ensures forall i :: 0 <= i < |rows| ==> s[i] == cell(rows[i], c)
  {
    if rows == [] then []
    else ColumnCells(rows[..|rows| - 1], c, cell) + [cell(rows[|rows| - 1], c)]
  }

  /** The cells of a row-major nested loop. */
  function Grid<R, C, T>(rows: seq<R>, cols: seq<C>, cell: (R, C) -> T): (s: seq<T>)
    ensures |s| == RowStart(|rows|, |cols|)
  {
    if rows == [] then []
    else Grid(rows[..|rows| - 1], cols, cell) + RowCells(rows[|rows| - 1], cols, cell)
  }

  /** One more step of the inner loop over columns. */
  lemma RowPush<R, C, T>(r: R, cols: seq<C>, cell: (R, C) -> T, j: nat)
    requires j < |cols|
    ensures RowCells(r, cols[..j + 1], cell) == RowCells(r, cols[..j], cell) + [cell(r, cols[j])]
  {
    assert cols[..j + 1][..j] == cols[..j];
  }

  /** One more step of the inner loop over rows. */
  lemma ColumnPush<R, C, T>(rows: seq<R>, c: C, cell: (R, C) -> T, i: nat)
    requires i < |rows|
    ensures ColumnCells(rows[..i + 1], c, cell) == ColumnCells(rows[..i], c, cell) + [cell(rows[i], c)]
  {
    assert rows[..i + 1][..i] == rows[..i];
  }

  /** One more step of the outer loop over rows. */
  lemma GridPush<R, C, T>(rows: seq<R>, cols: seq<C>, cell: (R, C) -> T, i: nat)
    requires i < |rows|
    ensures Grid(rows[..i + 1], cols, cell) == Grid(rows[..i], cols, cell) + RowCells(rows[i], cols, cell)
  {
    assert rows[..i + 1][..i] == rows[..i];
  }

  /** Cell number `RowStart(i, |cols|) + j` of the grid is the cell of row `i` and column `j`. */
  lemma {:induction false} GridAt<R, C, T>(rows: seq<R>, cols: seq<C>, cell: (R, C) -> T, i: nat, j: nat)
    requires i < |rows| && j < |cols|
    ensures RowStart(i, |cols|) + j < |Grid(rows, cols, cell)|
    ensures Grid(rows, cols, cell)[RowStart(i, |cols|) + j] == cell(rows[i], cols[j])
  {
    var n := |rows| - 1;
    var m := |cols|;
    var init := rows[..n];
    var g := Grid(init, cols, cell);
    var row := RowCells(rows[n], cols, cell);
    assert Grid(rows, cols, cell) == g + row;
    var pos := RowStart(i, m) + j;
    if i < n {
      RowStartBound(i, j, n, m);
      GridAt(init, cols, cell, i, j);
      assert init[i] == rows[i];
      assert (g + row)[pos] == g[pos];
    } else {
      assert (g + row)[pos] == row[j];
    }
  }

  /** The blocks an outer loop over `items` pushes, one after another. */
  function Blocks<A, T>(items: seq<A>, block: A -> seq<T>): seq<T> {
    if items == [] then []
    else Blocks(items[..|items| - 1], block) + block(items[|items| - 1])
  }

  /** One more step of the outer loop over items. */
  lemma BlocksPush<A, T>(items: seq<A>, block: A -> seq<T>, j: nat)
    requires j < |items|
    ensures Blocks(items[..j + 1], block) == Blocks(items[..j], block) + block(items[j])
  {
    assert items[..j + 1][..j] == items[..j];
  }

  /** Every block has `w` elements. */
  predicate SameWidth<A, T>(items: seq<A>, block: A -> seq<T>, w: nat) {
    forall k :: 0 <= k < |items| ==> |block(items[k])| == w
  }

  /** With blocks of width `w`, element `RowStart(j, w) + t` is element `t` of block `j`. */
  lemma {:induction false} BlocksAt<A, T>(items: seq<A>, block: A -> seq<T>, w: nat, j: nat, t: nat)
    requires SameWidth(items, block, w)
    requires j < |items| && t < w
    ensures |Blocks(items, block)| == RowStart(|items|, w)
    ensures RowStart(j, w) + t < |Blocks(items, block)|
    ensures Blocks(items, block)[RowStart(j, w) + t] == block(items[j])[t]
  {
    var n := |items| - 1;
    var init := items[..n];
    assert SameWidth(init, block, w) by {
      forall k | 0 <= k < |init| ensures |block(init[k])| == w {
        assert init[k] == items[k];
      }
    }
    BlocksLength(items, block, w);
    BlocksLength(init, block, w);
    var b := Blocks(init, block);
    var last := block(items[n]);
    assert Blocks(items, block) == b + last;
    var pos := RowStart(j, w) + t;
    if j < n {
      RowStartBound(j, t, n, w);
      BlocksAt(init, block, w, j, t);
      assert init[j] == items[j];
      assert (b + last)[pos] == b[pos];
    } else {
      assert (b + last)[pos] == last[t];
    }
  }

  /** Blocks of width `w` for `n` items fill `RowStart(n, w)` positions. */
  lemma {:induction false} BlocksLength<A, T>(items: seq<A>, block: A -> seq<T>, w: nat)
    requires SameWidth(items, block, w)
    ensures |Blocks(items, block)| == RowStart(|items|, w)
  {
    if items != [] {
      var n := |items| - 1;
      var init := items[..n];
      assert SameWidth(init, block, w) by {
        forall k | 0 <= k < |init| ensures |block(init[k])| == w {
          assert init[k] == items[k];
        }
      }
      BlocksLength(init, block, w);
    }
  }
}
