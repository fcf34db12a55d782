/** Row-major grid arithmetic shared by both drafts of the game: the index of a
    square, the (row, col) an index names, and the 3x3 window of squares around a
    square, enumerated row by row and column by column exactly as the drafts'
    nested `for (i = -1; i <= 1; i++) for (j = -1; j <= 1; j++)` loops do. The
    two drafts differ only in whether the square itself belongs to its window
    (`withCentre`). */
module Grid {

  /** Row-major index of the square at `row`, `col` on a grid `width` squares wide. */
  function Index(row: int, col: int, width: int): int
  {
    row * width + col
  }

  predicate InBounds(row: int, col: int, height: int, width: int)
  {
    0 <= row < height && 0 <= col < width
  }

  /** The row of index `i`: `Math.floor(i / width)`, which for `i >= 0` is Euclidean division. */
  function RowOf(i: nat, width: int): int
    requires width > 0
  {
    i / width
  }

  /** The column of index `i`: `i % width`, which for `i >= 0` is the Euclidean remainder. */
  function ColOf(i: nat, width: int): int
    requires width > 0
  {
    i % width
  }

  /** The indices of a grid of `n` squares. */
  function Cells(n: nat): (r: set<int>)
    ensures forall k :: k in r <==> 0 <= k < n
    ensures |r| == n
  {
    if n == 0 then {} else Cells(n - 1) + {n - 1}
  }

  /** A grid with a square on it is at least one square wide. */
  lemma WidthPositive(i: int, height: nat, width: nat)
    requires 0 <= i < height * width
    ensures width > 0
  {
  }

  /** A subset is no larger than its superset. */
  lemma SubsetCard(a: set<int>, b: set<int>)
    requires a <= b
    ensures |a| <= |b|
  {
    assert b == a + (b - a);
  }

  /** Two squares are adjacent-or-equal when they differ by at most one row and one column. */
  predicate Near(row1: int, col1: int, row2: int, col2: int)
  {
    -1 <= row1 - row2 <= 1 && -1 <= col1 - col2 <= 1
  }

  /** Multiplying by a positive width preserves strict order, with a gap of at
      least one width. */
  lemma {:induction false} MulMono(a: int, b: int, width: int)
    requires a < b && width >= 0
    ensures a * width + width <= b * width
    decreases b - a
  {
    assert (a + 1) * width == a * width + width;
    if a + 1 < b {
      MulMono(a + 1, b, width);
    }
  }

  /** A quotient/remainder pair is determined by the number it splits. */
  lemma {:induction false} DivModUnique(i: int, q: int, r: int, width: int)
    requires width > 0 && 0 <= r < width && i == q * width + r
    ensures i / width == q && i % width == r
  {
    var q' := i / width;
    assert i == q' * width + i % width;
    if q' > q {
      MulMono(q, q', width);
    } else if q' < q {
      MulMono(q', q, width);
    }
  }

  /** Going from (row, col) to an index and back gives (row, col) again, and the
      index lies in [0, height*width). */
  lemma {:induction false} IndexRoundTrip(row: int, col: int, height: int, width: int)
    requires InBounds(row, col, height, width)
    ensures 0 <= Index(row, col, width) < height * width
    ensures RowOf(Index(row, col, width), width) == row
    ensures ColOf(Index(row, col, width), width) == col
  {
    DivModUnique(Index(row, col, width), row, col, width);
    if row > 0 {
      MulMono(0, row, width);
    }
    MulMono(row, height, width);
  }

  /** Going from an index to (row, col) and back gives the index again, and
      (row, col) is on the grid. */
  lemma {:induction false} CoordsRoundTrip(i: nat, height: int, width: int)
    requires width > 0 && i < height * width
    ensures InBounds(RowOf(i, width), ColOf(i, width), height, width)
    ensures Index(RowOf(i, width), ColOf(i, width), width) == i
  {
    var q := i / width;
    assert i == q * width + i % width;
    if q < 0 {
      MulMono(q, 0, width);
    } else if q >= height {
      if q > height {
        MulMono(height, q, width);
      }
    }
  }

  // ---------------------------------------------------------------------------
  // The 3x3 window, built in the order of the nested loops.

  /** The one-or-zero element the loop body contributes for offset (dr, dc). */
  function Cell(row: int, col: int, dr: int, dc: int, height: int, width: int, withCentre: bool): seq<int>
  {
    if InBounds(row + dr, col + dc, height, width) && (withCentre || dr != 0 || dc != 0)
    then [Index(row + dr, col + dc, width)]
    else []
  }

  /** What the inner loop has collected for row offset `dr` once `j` has reached `upTo`. */
  function RowPrefix(row: int, col: int, dr: int, upTo: int, height: int, width: int, withCentre: bool): seq<int>
    requires -1 <= upTo <= 2
  {
    if upTo == -1 then []
    else if upTo == 0 then Cell(row, col, dr, -1, height, width, withCentre)
    else if upTo == 1 then Cell(row, col, dr, -1, height, width, withCentre) + Cell(row, col, dr, 0, height, width, withCentre)
    else Row(row, col, dr, height, width, withCentre)
  }

  /** What the outer loop has collected once `i` has reached `upTo`. */
  function WindowPrefix(row: int, col: int, upTo: int, height: int, width: int, withCentre: bool): seq<int>
    requires -1 <= upTo <= 2
  {
    if upTo == -1 then []
    else if upTo == 0 then Row(row, col, -1, height, width, withCentre)
    else if upTo == 1 then Row(row, col, -1, height, width, withCentre) + Row(row, col, 0, height, width, withCentre)
    else Window(row, col, height, width, withCentre)
  }

  /** The in-bounds squares of row offset `dr`, left to right. */
  function Row(row: int, col: int, dr: int, height: int, width: int, withCentre: bool): seq<int>
  {
    Cell(row, col, dr, -1, height, width, withCentre)
    + Cell(row, col, dr, 0, height, width, withCentre)
    + Cell(row, col, dr, 1, height, width, withCentre)
  }

  /** The indices of the in-bounds squares around (row, col), in row-major order. */
  function Window(row: int, col: int, height: int, width: int, withCentre: bool): seq<int>
  {
    Row(row, col, -1, height, width, withCentre)
    + Row(row, col, 0, height, width, withCentre)
    + Row(row, col, 1, height, width, withCentre)
  }


  predicate Increasing(s: seq<int>)
  {
    forall p, q :: 0 <= p < q < |s| ==> s[p] < s[q]
  }

  /** What the loop body contributes for offset (dr, dc): nothing, or the index
      of the square there, which lies in row row+dr and column col+dc. */
  lemma CellFacts(row: int, col: int, dr: int, dc: int, height: int, width: int, withCentre: bool)
    requires width > 0
    ensures var c := Cell(row, col, dr, dc, height, width, withCentre);
      && |c| <= 1
      && (c != [] ==> && c[0] == (row + dr) * width + (col + dc) && 0 <= col + dc < width
                      && 0 <= c[0] < height * width
                      && RowOf(c[0], width) == row + dr && ColOf(c[0], width) == col + dc
                      && (withCentre || dr != 0 || dc != 0))
  {
    if InBounds(row + dr, col + dc, height, width) {
      IndexRoundTrip(row + dr, col + dc, height, width);
    }
  }

  /** A square of the grid in row row+dr and column col+dc is what the loop body
      contributes for that offset. */
  lemma CellHolds(x: nat, row: int, col: int, dr: int, dc: int, height: int, width: int, withCentre: bool)
    requires width > 0 && x < height * width
    requires RowOf(x, width) == row + dr && ColOf(x, width) == col + dc
    requires withCentre || dr != 0 || dc != 0
    ensures Cell(row, col, dr, dc, height, width, withCentre) == [x]
  {
    CoordsRoundTrip(x, height, width);
  }

  /** Every square of one row of the window lies in grid row row+dr, within one
      column of `col`, and is not the centre when the centre is left out. */
  lemma RowSound(row: int, col: int, dr: int, height: int, width: int, withCentre: bool)
    requires width > 0
    ensures forall x :: x in Row(row, col, dr, height, width, withCentre) ==>
              && (row + dr) * width <= x < (row + dr) * width + width
              && 0 <= x < height * width && RowOf(x, width) == row + dr
              && -1 <= ColOf(x, width) - col <= 1
              && (withCentre || dr != 0 || ColOf(x, width) != col)
  {
    var a := Cell(row, col, dr, -1, height, width, withCentre);
    var b := Cell(row, col, dr, 0, height, width, withCentre);
    var c := Cell(row, col, dr, 1, height, width, withCentre);
    CellFacts(row, col, dr, -1, height, width, withCentre);
    CellFacts(row, col, dr, 0, height, width, withCentre);
    CellFacts(row, col, dr, 1, height, width, withCentre);
    forall x | x in a + b + c
      ensures (row + dr) * width <= x < (row + dr) * width + width
      ensures 0 <= x < height * width && RowOf(x, width) == row + dr
              && -1 <= ColOf(x, width) - col <= 1
              && (withCentre || dr != 0 || ColOf(x, width) != col)
    {
      if x in a {
        assert x == a[0];
      } else if x in b {
        assert x == b[0];
      } else {
        assert x == c[0];
      }
    }
  }

  /** One row of the window holds every square of the grid in row row+dr within
      one column of `col`, the centre only when `withCentre`. */
  lemma RowComplete(row: int, col: int, dr: int, height: int, width: int, withCentre: bool)
    requires width > 0
    ensures forall x: nat :: x < height * width && RowOf(x, width) == row + dr
                           && -1 <= ColOf(x, width) - col <= 1
                           && (withCentre || dr != 0 || ColOf(x, width) != col)
                           ==> x in Row(row, col, dr, height, width, withCentre)
  {
    forall x: nat | x < height * width && RowOf(x, width) == row + dr
                    && -1 <= ColOf(x, width) - col <= 1
                    && (withCentre || dr != 0 || ColOf(x, width) != col)
      ensures x in Row(row, col, dr, height, width, withCentre)
    {
      var dc := ColOf(x, width) - col;
      CellHolds(x, row, col, dr, dc, height, width, withCentre);
      if dc == -1 {
        assert x in Cell(row, col, dr, -1, height, width, withCentre);
      } else if dc == 0 {
        assert x in Cell(row, col, dr, 0, height, width, withCentre);
      } else {
        assert x in Cell(row, col, dr, 1, height, width, withCentre);
      }
    }
  }

  /** One row of the window lists its squares left to right, at most three of
      them, two in the centre row when the centre is left out. */
  lemma RowOrdered(row: int, col: int, dr: int, height: int, width: int, withCentre: bool)
    requires width > 0
    ensures Increasing(Row(row, col, dr, height, width, withCentre))
    ensures |Row(row, col, dr, height, width, withCentre)| <= (if !withCentre && dr == 0 then 2 else 3)
  {
    var a := Cell(row, col, dr, -1, height, width, withCentre);
    var b := Cell(row, col, dr, 0, height, width, withCentre);
    var c := Cell(row, col, dr, 1, height, width, withCentre);
    CellFacts(row, col, dr, -1, height, width, withCentre);
    CellFacts(row, col, dr, 0, height, width, withCentre);
    CellFacts(row, col, dr, 1, height, width, withCentre);
    var base := (row + dr) * width + col;
    IncreasingAppend(a, b, base);
    IncreasingAppend(a + b, c, base + 1);
  }

  /** One row of the window: its squares lie in grid row row+dr, left to right,
      at most three of them (two in the centre row when the centre is left out),
      and it holds every such square. */
  lemma RowFacts(row: int, col: int, dr: int, height: int, width: int, withCentre: bool)
    requires width > 0
    ensures var r := Row(row, col, dr, height, width, withCentre);
      && Increasing(r)
      && |r| <= (if !withCentre && dr == 0 then 2 else 3)
      && (forall x :: x in r ==> (row + dr) * width <= x < (row + dr) * width + width)
      && (forall x :: x in r ==> 0 <= x < height * width && RowOf(x, width) == row + dr
                                 && -1 <= ColOf(x, width) - col <= 1
                                 && (withCentre || dr != 0 || ColOf(x, width) != col))
      && (forall x: nat :: x < height * width && RowOf(x, width) == row + dr
                           && -1 <= ColOf(x, width) - col <= 1
                           && (withCentre || dr != 0 || ColOf(x, width) != col)
                           ==> x in r)
  {
    RowSound(row, col, dr, height, width, withCentre);
    RowComplete(row, col, dr, height, width, withCentre);
    RowOrdered(row, col, dr, height, width, withCentre);
  }

  lemma {:induction false} IncreasingAppend(a: seq<int>, b: seq<int>, m: int)
    requires Increasing(a) && Increasing(b)
    requires forall x :: x in a ==> x < m
    requires forall y :: y in b ==> m <= y
    ensures Increasing(a + b)
  {
    forall p, q | 0 <= p < q < |a + b| ensures (a + b)[p] < (a + b)[q] {
      if q < |a| {
        assert (a + b)[p] == a[p] && (a + b)[q] == a[q];
      } else if p >= |a| {
        assert (a + b)[p] == b[p - |a|] && (a + b)[q] == b[q - |a|];
      } else {
        assert (a + b)[p] == a[p] && (a + b)[q] == b[q - |a|];
        assert a[p] in a && b[q - |a|] in b;
      }
    }
  }

  /** The window lists its squares once each, in increasing order, and holds at
      most 9 of them (8 when the centre is left out), all on the grid. */
  lemma {:induction false} WindowFacts(row: int, col: int, height: int, width: int, withCentre: bool)
    requires width > 0
    ensures var w := Window(row, col, height, width, withCentre);
      && Increasing(w)
      && |w| <= (if withCentre then 9 else 8)
      && (forall x :: x in w ==> 0 <= x < height * width)
  {
    var r0 := Row(row, col, -1, height, width, withCentre);
    var r1 := Row(row, col, 0, height, width, withCentre);
    var r2 := Row(row, col, 1, height, width, withCentre);
    RowFacts(row, col, -1, height, width, withCentre);
    RowFacts(row, col, 0, height, width, withCentre);
    RowFacts(row, col, 1, height, width, withCentre);
    assert (row + -1) * width + width == row * width;
    assert (row + 0) * width + width == (row + 1) * width;
    IncreasingAppend(r0, r1, row * width);
    IncreasingAppend(r0 + r1, r2, (row + 1) * width);
  }

  /** The window of (row, col) holds exactly the squares of the grid that differ
      from it by at most one row and one column, with no wrap-around across the
      grid's edges; the square itself only when `withCentre`. */
  lemma {:induction false} WindowMembership(row: int, col: int, height: int, width: int, withCentre: bool)
    requires width > 0
    ensures forall x: nat :: x < height * width ==>
              (x in Window(row, col, height, width, withCentre) <==>
                 Near(RowOf(x, width), ColOf(x, width), row, col)
                 && (withCentre || RowOf(x, width) != row || ColOf(x, width) != col))
  {
    RowFacts(row, col, -1, height, width, withCentre);
    RowFacts(row, col, 0, height, width, withCentre);
    RowFacts(row, col, 1, height, width, withCentre);
  }

  /** Adjacency is symmetric: y is in the window of x exactly when x is in the window of y. */
  lemma {:induction false} WindowSymmetric(x: nat, y: nat, height: int, width: int, withCentre: bool)
    requires width > 0 && x < height * width && y < height * width
    ensures y in Window(RowOf(x, width), ColOf(x, width), height, width, withCentre)
        <==> x in Window(RowOf(y, width), ColOf(y, width), height, width, withCentre)
  {
    WindowMembership(RowOf(x, width), ColOf(x, width), height, width, withCentre);
    WindowMembership(RowOf(y, width), ColOf(y, width), height, width, withCentre);
  }

  /** The centre square belongs to its own window exactly when `withCentre`. */
  lemma {:induction false} WindowCentre(i: nat, height: int, width: int, withCentre: bool)
    requires width > 0 && i < height * width
    ensures i in Window(RowOf(i, width), ColOf(i, width), height, width, withCentre) <==> withCentre
  {
    WindowMembership(RowOf(i, width), ColOf(i, width), height, width, withCentre);
  }

  /** The window of the square with index `i`. */
  function Neighbours(i: nat, height: int, width: int, withCentre: bool): seq<int>
    requires width > 0
  {
    Window(RowOf(i, width), ColOf(i, width), height, width, withCentre)
  }

  /** The neighbour list of a square on the grid lists squares of the grid, once
      each, in increasing order, at most 9 of them (8 without the centre). */
  lemma NeighboursFacts(i: nat, height: int, width: int, withCentre: bool)
    requires width > 0
    ensures var w := Neighbours(i, height, width, withCentre);
      && Increasing(w)
      && |w| <= (if withCentre then 9 else 8)
      && (forall x :: x in w ==> 0 <= x < height * width)
      && IndicesIn(w, height * width)
  {
    WindowFacts(RowOf(i, width), ColOf(i, width), height, width, withCentre);
    var w := Neighbours(i, height, width, withCentre);
    assert forall k :: 0 <= k < |w| ==> w[k] in w;
  }

  // ---------------------------------------------------------------------------
  // Adding up per-square values over a list of squares.

  predicate IndicesIn(idx: seq<int>, n: int)
  {
    forall k :: 0 <= k < |idx| ==> 0 <= idx[k] < n
  }

  predicate ZeroOne(vals: seq<int>)
  {
    forall k :: 0 <= k < |vals| ==> 0 <= vals[k] <= 1
  }

  /** The sum of `vals` over the squares listed in `idx`, added up front to back. */
  function Sum(idx: seq<int>, vals: seq<int>): int
    requires IndicesIn(idx, |vals|)
  {
    if idx == [] then 0
    else Sum(idx[..|idx| - 1], vals) + vals[idx[|idx| - 1]]
  }

  /** Adding one more square at the end of the list adds its value. */
  lemma SumSnoc(idx: seq<int>, x: int, vals: seq<int>)
    requires IndicesIn(idx, |vals|) && 0 <= x < |vals|
    ensures IndicesIn(idx + [x], |vals|)
    ensures Sum(idx + [x], vals) == Sum(idx, vals) + vals[x]
  {
    assert (idx + [x])[..|idx|] == idx;
  }

  /** A sum of zeros and ones over a list is between 0 and the list's length. */
  lemma {:induction false} SumBound(idx: seq<int>, vals: seq<int>)
    requires IndicesIn(idx, |vals|) && ZeroOne(vals)
    ensures 0 <= Sum(idx, vals) <= |idx|
  {
    if idx != [] { SumBound(idx[..|idx| - 1], vals); }
  }

  /** A sum of values that are never negative is zero exactly when every listed value is. */
  lemma {:induction false} SumZero(idx: seq<int>, vals: seq<int>)
    requires IndicesIn(idx, |vals|) && forall k :: 0 <= k < |vals| ==> vals[k] >= 0
    ensures Sum(idx, vals) >= 0
    ensures Sum(idx, vals) == 0 <==> forall x :: x in idx ==> vals[x] == 0
  {
    if idx != [] {
      var init := idx[..|idx| - 1];
      SumZero(init, vals);
      assert forall x :: x in idx <==> x in init || x == idx[|idx| - 1];
    }
  }

  /** Summing over two lists one after the other adds their sums. */
  lemma {:induction false} SumAppend(a: seq<int>, b: seq<int>, vals: seq<int>)
    requires IndicesIn(a, |vals|) && IndicesIn(b, |vals|)
    ensures IndicesIn(a + b, |vals|)
    ensures Sum(a + b, vals) == Sum(a, vals) + Sum(b, vals)
    decreases |b|
  {
    if b == [] {
      assert a + b == a;
    } else {
      var b' := b[..|b| - 1];
      assert (a + b)[..|a + b| - 1] == a + b';
      assert (a + b)[|a + b| - 1] == b[|b| - 1];
      SumAppend(a, b', vals);
    }
  }

  /** Raising one square's value by one raises the sum over a list without
      repetitions by one exactly when the list holds that square. */
  lemma {:induction false} SumBump(idx: seq<int>, vals: seq<int>, k: int)
    requires IndicesIn(idx, |vals|) && 0 <= k < |vals| && Increasing(idx)
    ensures Sum(idx, vals[k := vals[k] + 1]) == Sum(idx, vals) + (if k in idx then 1 else 0)
  {
    if idx != [] {
      var init := idx[..|idx| - 1];
      assert Increasing(init);
      SumBump(init, vals, k);
      assert k in idx <==> k in init || k == idx[|idx| - 1];
      if k == idx[|idx| - 1] {
        assert k !in init;
      }
    }
  }

  /** Values that agree on every listed square give the same sum. */
  lemma {:induction false} SumAgree(idx: seq<int>, vals: seq<int>, vals': seq<int>)
    requires IndicesIn(idx, |vals|) && |vals'| == |vals|
    requires forall x :: x in idx ==> vals[x] == vals'[x]
    ensures Sum(idx, vals) == Sum(idx, vals')
  {
    if idx != [] {
      SumAgree(idx[..|idx| - 1], vals, vals');
    }
  }

  /** The squares of the window listed before the centre: the row above and the
      square to the left. */
  function BeforeCentre(row: int, col: int, height: int, width: int): seq<int>
  {
    Row(row, col, -1, height, width, true) + Cell(row, col, 0, -1, height, width, true)
  }

  /** The squares of the window listed after the centre: the square to the right
      and the row below. */
  function AfterCentre(row: int, col: int, height: int, width: int): seq<int>
  {
    Cell(row, col, 0, 1, height, width, true) + Row(row, col, 1, height, width, true)
  }

  /** Taking the centre out of its window leaves the squares before it and the
      squares after it. */
  lemma CentreSplit(i: nat, height: int, width: int) returns (before: seq<int>, after: seq<int>)
    requires width > 0 && i < height * width
    ensures Neighbours(i, height, width, true) == before + [i] + after
    ensures Neighbours(i, height, width, false) == before + after
  {
    CoordsRoundTrip(i, height, width);
    var row, col := RowOf(i, width), ColOf(i, width);
    WithCentre(row, col, height, width);
    WithoutCentre(row, col, height, width);
    before, after := BeforeCentre(row, col, height, width), AfterCentre(row, col, height, width);
  }

  /** A square on the grid sits in its window between the squares before it and those after it. */
  lemma WithCentre(row: int, col: int, height: int, width: int)
    requires InBounds(row, col, height, width)
    ensures Window(row, col, height, width, true)
         == BeforeCentre(row, col, height, width) + [Index(row, col, width)] + AfterCentre(row, col, height, width)
  {
    var top := Row(row, col, -1, height, width, true);
    var bottom := Row(row, col, 1, height, width, true);
    var left := Cell(row, col, 0, -1, height, width, true);
    var right := Cell(row, col, 0, 1, height, width, true);
    var i := Index(row, col, width);
    assert Cell(row, col, 0, 0, height, width, true) == [i];
    SeqAssoc(top, left, [i], right, bottom);
  }

  /** Leaving the centre out leaves the squares before it and those after it. */
  lemma WithoutCentre(row: int, col: int, height: int, width: int)
    ensures Window(row, col, height, width, false)
         == BeforeCentre(row, col, height, width) + AfterCentre(row, col, height, width)
  {
    var top := Row(row, col, -1, height, width, true);
    var bottom := Row(row, col, 1, height, width, true);
    var left := Cell(row, col, 0, -1, height, width, true);
    var right := Cell(row, col, 0, 1, height, width, true);
    OffRowIgnoresCentre(row, col, -1, height, width);
    OffRowIgnoresCentre(row, col, 1, height, width);
    assert Cell(row, col, 0, 0, height, width, false) == [];
    assert Cell(row, col, 0, -1, height, width, false) == left;
    assert Cell(row, col, 0, 1, height, width, false) == right;
    SeqAssoc(top, left, [], right, bottom);
  }

  lemma SeqAssoc(a: seq<int>, b: seq<int>, c: seq<int>, d: seq<int>, e: seq<int>)
    ensures a + (b + c + d) + e == (a + b) + c + (d + e)
  {
  }

  /** Rows above and below the centre do not depend on `withCentre`. */
  lemma OffRowIgnoresCentre(row: int, col: int, dr: int, height: int, width: int)
    requires dr != 0
    ensures Row(row, col, dr, height, width, true) == Row(row, col, dr, height, width, false)
  {
    assert Cell(row, col, dr, -1, height, width, true) == Cell(row, col, dr, -1, height, width, false);
    assert Cell(row, col, dr, 0, height, width, true) == Cell(row, col, dr, 0, height, width, false);
    assert Cell(row, col, dr, 1, height, width, true) == Cell(row, col, dr, 1, height, width, false);
  }

  /** The parts of a list of squares of the grid are lists of squares of the grid. */
  lemma IndicesInParts(a: seq<int>, b: seq<int>, n: int)
    requires IndicesIn(a + b, n)
    ensures IndicesIn(a, n) && IndicesIn(b, n)
  {
    assert forall k :: 0 <= k < |a| ==> a[k] == (a + b)[k];
    assert forall k :: 0 <= k < |b| ==> b[k] == (a + b)[|a| + k];
  }

  /** Leaving one square out of a list takes its value out of the sum. */
  lemma SumMiddle(before: seq<int>, i: int, after: seq<int>, vals: seq<int>)
    requires 0 <= i < |vals| && IndicesIn(before + [i] + after, |vals|)
    ensures IndicesIn(before + after, |vals|)
    ensures Sum(before + [i] + after, vals) == Sum(before + after, vals) + vals[i]
  {
    IndicesInParts(before + [i], after, |vals|);
    IndicesInParts(before, [i], |vals|);
    SumAppend(before, [i], vals);
    SumAppend(before + [i], after, vals);
    SumAppend(before, after, vals);
    assert [i][..0] == [];
  }

  /** Summing over the window with its centre counts the centre's own value on
      top of the sum over the true neighbours. */
  lemma SumWithCentre(i: nat, height: int, width: int, vals: seq<int>)
    requires width > 0 && i < height * width && |vals| == height * width
    ensures IndicesIn(Neighbours(i, height, width, true), |vals|)
    ensures IndicesIn(Neighbours(i, height, width, false), |vals|)
    ensures Sum(Neighbours(i, height, width, true), vals)
         == Sum(Neighbours(i, height, width, false), vals) + vals[i]
  {
    NeighboursFacts(i, height, width, true);
    var before, after := CentreSplit(i, height, width);
    SumMiddle(before, i, after, vals);
  }
}
