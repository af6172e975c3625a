/** The static board graph: a square grid of `w * w` tiles numbered row by row,
    each linked to the tiles above, below, left and right of it. */
module Grid {

  /** Appends `to` to `list` when the guard holds and `to` is a tile of an
      `n`-tile board: one call of AddAdjacentTile. */
  function AddIfOnBoard(list: seq<int>, to: int, condition: bool, n: int): seq<int>
  {
    if condition && 0 <= to < n then list + [to] else list
  }

  /** The adjacency list InitAdjacencyLists builds for tile `i` of a board with
      `w` tiles per row: up, down, left, right, with Controller.cs's own guards
      (bounds for up/down, `i % w != 0` for left, `(i + 1) % w != 0` for right). */
  function Neighbours(i: int, w: nat): seq<int>
    requires w >= 1 && 0 <= i
  {
    var n := w * w;
    var up := AddIfOnBoard([], i - w, true, n);
    var down := AddIfOnBoard(up, i + w, true, n);
    var left := AddIfOnBoard(down, i - 1, i % w != 0, n);
    AddIfOnBoard(left, i + 1, (i + 1) % w != 0, n)
  }

  /** The grid rule stated in rows and columns: with `r` the row and `c` the
      column of `i`, the neighbour above exists when `r > 0`, below when
      `r < w - 1`, left when `c > 0` and right when `c < w - 1`. */
  function RowColNeighbours(i: int, w: nat): seq<int>
    requires w >= 1 && 0 <= i
  {
    var r, c := i / w, i % w;
    (if r > 0 then [i - w] else [])
    + (if r < w - 1 then [i + w] else [])
    + (if c > 0 then [i - 1] else [])
    + (if c < w - 1 then [i + 1] else [])
  }

  /** Two tiles are neighbours when they are in the same row at columns one
      apart, or in the same column at rows one apart. */
  ghost predicate Touching(i: int, j: int, w: nat)
    requires w >= 1
  {
    || (i / w == j / w && (j == i - 1 || j == i + 1))
    || (i % w == j % w && (j == i - w || j == i + w))
  }

  /** `a * w` grows with `a`. */
  lemma MulMonotone(a: int, b: int, w: int)
    requires a <= b && 0 <= w
    ensures a * w <= b * w
  {
    assert b * w - a * w == (b - a) * w;
  }

  /** Quotient and remainder are determined by any decomposition `x == q * w + r`
      with `0 <= r < w`. */
  lemma DivModOf(x: int, w: int, q: int, r: int)
    requires w >= 1 && 0 <= r < w && x == q * w + r
    ensures x / w == q && x % w == r
  {
    var q' := x / w;
    if q' < q {
      MulMonotone(q' + 1, q, w);
    } else if q' > q {
      MulMonotone(q + 1, q', w);
    }
  }

  /** Row and column of a tile of a `w * w` board are both below `w`. */
  lemma RowColBounds(i: int, w: nat)
    requires w >= 1 && 0 <= i < w * w
    ensures 0 <= i / w < w && 0 <= i % w < w
  {
    if i / w >= w {
      MulMonotone(w, i / w, w);
    }
  }

  /** The up and down guards in Controller.cs, as conditions on the row. */
  lemma RowLimits(i: int, w: nat)
    requires w >= 1 && 0 <= i < w * w
    ensures (i - w >= 0) == (i / w > 0)
    ensures (i + w < w * w) == (i / w < w - 1)
  {
    var r, c := i / w, i % w;
    RowColBounds(i, w);
    if r > 0 {
      MulMonotone(1, r, w);
    }
    if r < w - 1 {
      MulMonotone(r + 2, w, w);
      assert (r + 2) * w == r * w + 2 * w;
    } else {
      MulMonotone(w - 1, r, w);
      assert (w - 1) * w == w * w - w;
    }
  }

  /** The tile in the same column and the next row of a tile not in the last row. */
  lemma NextRow(i: int, w: nat)
    requires w >= 1 && 0 <= i && i + w < w * w
    ensures (i + w) / w == i / w + 1 && (i + w) % w == i % w
  {
    DivModOf(i + w, w, i / w + 1, i % w);
  }

  /** The right guard `(i + 1) % w != 0` holds exactly when the column is not the
      last; the tile to the right is then in the same row. */
  lemma NextColumn(i: int, w: nat)
    requires w >= 1 && 0 <= i
    ensures ((i + 1) % w != 0) == (i % w < w - 1)
    ensures i % w < w - 1 ==> (i + 1) / w == i / w && (i + 1) % w == i % w + 1
  {
    if i % w < w - 1 {
      DivModOf(i + 1, w, i / w, i % w + 1);
    } else {
      DivModOf(i + 1, w, i / w + 1, 0);
    }
  }

  /** The guards in Controller.cs and the row/column rule select the same neighbours in
      the same order, for every tile of a `w * w` board. */
  lemma NeighboursByRowCol(i: int, w: nat)
    requires w >= 1 && 0 <= i < w * w
    ensures Neighbours(i, w) == RowColNeighbours(i, w)
  {
    RowLimits(i, w);
    NextColumn(i, w);
    RowColBounds(i, w);
  }

  /** Every neighbour is a distinct tile of the board, other than the tile
      itself, and touching it; a tile has at most four neighbours. */
  lemma NeighboursShape(i: int, w: nat)
    requires w >= 1 && 0 <= i < w * w
    ensures |Neighbours(i, w)| <= 4
    ensures forall k :: 0 <= k < |Neighbours(i, w)| ==>
      var j := Neighbours(i, w)[k]; 0 <= j < w * w && j != i && Touching(i, j, w)
    ensures forall k, l :: 0 <= k < l < |Neighbours(i, w)| ==> Neighbours(i, w)[k] != Neighbours(i, w)[l]
  {
    NeighboursByRowCol(i, w);
    RowLimits(i, w);
    NextColumn(i, w);
    RowColBounds(i, w);
    if i - w >= 0 {
      NextRow(i - w, w);
    }
    if i + w < w * w {
      NextRow(i, w);
    }
    if i % w > 0 {
      NextColumn(i - 1, w);
    }
  }

  /** Membership in an adjacency list is exactly the touching relation. */
  lemma NeighboursAreTouching(i: int, j: int, w: nat)
    requires w >= 1 && 0 <= i < w * w && 0 <= j < w * w
    ensures j in Neighbours(i, w) <==> Touching(i, j, w)
  {
    NeighboursShape(i, w);
    NeighboursByRowCol(i, w);
    RowLimits(i, w);
    NextColumn(i, w);
    RowColBounds(i, w);
    if Touching(i, j, w) {
      if j == i - 1 {
        NextColumn(j, w);
      }
    }
  }

  /** Adjacency is symmetric: `j` is listed as a neighbour of `i` exactly when
      `i` is listed as a neighbour of `j`. */
  lemma NeighboursSymmetric(i: int, j: int, w: nat)
    requires w >= 1 && 0 <= i < w * w && 0 <= j < w * w
    ensures j in Neighbours(i, w) <==> i in Neighbours(j, w)
  {
    NeighboursAreTouching(i, j, w);
    NeighboursAreTouching(j, i, w);
  }

  /** On a 3 x 3 board the corner has two neighbours and the centre four. */
  lemma ThreeByThree()
    ensures Neighbours(0, 3) == [3, 1]
    ensures Neighbours(4, 3) == [1, 7, 3, 5]
    ensures Neighbours(8, 3) == [5, 7]
  {
  }
}
