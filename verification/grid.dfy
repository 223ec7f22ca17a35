/**
 Board geometry: a flat array of rows*cols cells indexed row*cols+col, the
 neighbour list that mine placement and the flood fill walk, and the geometric
 8-adjacency that list is proved to match (no wrap-around between rows).
 */
module Grid {

  datatype Dims = Dims(rows: nat, cols: nat) {
    predicate Valid() {
      rows >= 1 && cols >= 1
    }

    function Cells(): nat {
      rows * cols
    }
  }

  /** The `cell >= 0` guard: a candidate above or to the left of the centre. */
  function IfNonNegative(cell: int): seq<nat> {
    if cell >= 0 then [cell] else []
  }

  /** The `cell < all_cells` guard: a candidate below or to the right of the centre. */
  function IfInGrid(d: Dims, cell: nat): seq<nat> {
    if cell < d.Cells() then [cell] else []
  }

  /**
   The neighbours of `p` in the order the source visits them: the left column
   (only when `p` is not in column 0), then the cells straight above and below,
   then the right column (only when `p` is not in the last column).
   */
  function Neighbours(d: Dims, p: nat): (r: seq<nat>)
    requires d.Valid()
    ensures |r| <= 8
  {
    var col := p % d.cols;
    var n := d.cols;
    (if col > 0 then IfNonNegative(p - n - 1) + IfNonNegative(p - 1) + IfInGrid(d, p + n - 1) else [])
    + IfNonNegative(p - n) + IfInGrid(d, p + n)
    + (if col < n - 1 then IfNonNegative(p - n + 1) + IfInGrid(d, p + n + 1) + IfInGrid(d, p + 1) else [])
  }

  /** Two distinct in-grid cells whose rows and columns each differ by at most one. */
  predicate Adjacent(d: Dims, a: int, b: int) {
    && d.Valid()
    && 0 <= a < d.Cells() && 0 <= b < d.Cells() && a != b
    && -1 <= a / d.cols - b / d.cols <= 1
    && -1 <= a % d.cols - b % d.cols <= 1
  }

  predicate Distinct(s: seq<nat>) {
    forall i, j :: 0 <= i < j < |s| ==> s[i] != s[j]
  }

  lemma MulAtLeast(a: int, b: int)
    requires a >= 1 && b > 0
    ensures a * b >= b
  {
    assert a * b == (a - 1) * b + b;
    assert (a - 1) * b >= 0;
  }

  /** Euclidean division is unique. */
  lemma DivModUnique(n: int, m: int, q: int, r: int)
    requires m > 0 && 0 <= r < m && n == q * m + r
    ensures n / m == q && n % m == r
  {
    var q', r' := n / m, n % m;
    assert n == q' * m + r' && 0 <= r' < m;
    if q' > q {
      MulAtLeast(q' - q, m);
    } else if q' < q {
      MulAtLeast(q - q', m);
    }
  }

  /** Moving by `dr` rows and `dc` columns without leaving the row's column range. */
  lemma Shift(d: Dims, p: nat, dr: int, dc: int)
    requires d.Valid() && -1 <= dr <= 1
    requires 0 <= p % d.cols + dc < d.cols
    ensures (p + dr * d.cols + dc) / d.cols == p / d.cols + dr
    ensures (p + dr * d.cols + dc) % d.cols == p % d.cols + dc
  {
    var n := d.cols;
    assert p == (p / n) * n + p % n;
    assert p + dr * n + dc == (p / n + dr) * n + (p % n + dc);
    DivModUnique(p + dr * n + dc, n, p / n + dr, p % n + dc);
  }

  /** A candidate at row offset `dr` and column offset `dc` that passed its guards. */
  lemma CandidateAdjacent(d: Dims, p: nat, dr: int, dc: int, m: int)
    requires d.Valid() && p < d.Cells() && -1 <= dr <= 1 && -1 <= dc <= 1 && (dr, dc) != (0, 0)
    requires 0 <= p % d.cols + dc < d.cols
    requires m == p + dr * d.cols + dc && 0 <= m < d.Cells()
    ensures Adjacent(d, p, m) && m % d.cols == p % d.cols + dc
  {
    Shift(d, p, dr, dc);
  }

  function LeftColumn(d: Dims, p: nat): seq<nat>
    requires d.Valid()
  {
    var n := d.cols;
    if p % n > 0 then IfNonNegative(p - n - 1) + IfNonNegative(p - 1) + IfInGrid(d, p + n - 1) else []
  }

  function MiddleColumn(d: Dims, p: nat): seq<nat>
    requires d.Valid()
  {
    IfNonNegative(p - d.cols) + IfInGrid(d, p + d.cols)
  }

  function RightColumn(d: Dims, p: nat): seq<nat>
    requires d.Valid()
  {
    var n := d.cols;
    if p % n < n - 1 then IfNonNegative(p - n + 1) + IfInGrid(d, p + n + 1) + IfInGrid(d, p + 1) else []
  }

  lemma NeighboursByColumn(d: Dims, p: nat)
    requires d.Valid()
    ensures Neighbours(d, p) == LeftColumn(d, p) + MiddleColumn(d, p) + RightColumn(d, p)
  {
  }

  lemma LeftColumnAdjacent(d: Dims, p: nat)
    requires d.Valid() && p < d.Cells()
    ensures forall m :: m in LeftColumn(d, p) ==> Adjacent(d, p, m) && m % d.cols == p % d.cols - 1
  {
    var n := d.cols;
    if p % n > 0 {
      forall m | m in LeftColumn(d, p)
        ensures Adjacent(d, p, m) && m % n == p % n - 1
      {
        if m in IfNonNegative(p - n - 1) {
          CandidateAdjacent(d, p, -1, -1, m);
        } else if m in IfNonNegative(p - 1) {
          CandidateAdjacent(d, p, 0, -1, m);
        } else {
          CandidateAdjacent(d, p, 1, -1, m);
        }
      }
    }
  }

  lemma MiddleColumnAdjacent(d: Dims, p: nat)
    requires d.Valid() && p < d.Cells()
    ensures forall m :: m in MiddleColumn(d, p) ==> Adjacent(d, p, m) && m % d.cols == p % d.cols
  {
    var n := d.cols;
    forall m | m in MiddleColumn(d, p)
      ensures Adjacent(d, p, m) && m % n == p % n
    {
      if m in IfNonNegative(p - n) {
        CandidateAdjacent(d, p, -1, 0, m);
      } else {
        CandidateAdjacent(d, p, 1, 0, m);
      }
    }
  }

  lemma RightColumnAdjacent(d: Dims, p: nat)
    requires d.Valid() && p < d.Cells()
    ensures forall m :: m in RightColumn(d, p) ==> Adjacent(d, p, m) && m % d.cols == p % d.cols + 1
  {
    var n := d.cols;
    if p % n < n - 1 {
      forall m | m in RightColumn(d, p)
        ensures Adjacent(d, p, m) && m % n == p % n + 1
      {
        if m in IfNonNegative(p - n + 1) {
          CandidateAdjacent(d, p, -1, 1, m);
        } else if m in IfInGrid(d, p + n + 1) {
          CandidateAdjacent(d, p, 1, 1, m);
        } else {
          CandidateAdjacent(d, p, 0, 1, m);
        }
      }
    }
  }

  /** A geometric neighbour sits at row offset `dr` and column offset `dc`, each in -1..1. */
  lemma AdjacentOffset(d: Dims, p: nat, m: int) returns (dr: int, dc: int)
    requires Adjacent(d, p, m)
    ensures -1 <= dr <= 1 && -1 <= dc <= 1 && (dr, dc) != (0, 0)
    ensures m == p + dr * d.cols + dc && dc == m % d.cols - p % d.cols
  {
    var n := d.cols;
    dr, dc := m / n - p / n, m % n - p % n;
    assert m == (m / n) * n + m % n;
    assert p == (p / n) * n + p % n;
    assert m - p == (m / n - p / n) * n + dc;
  }

  /** Every geometric neighbour appears in the source's guarded list. */
  lemma AdjacentIsListed(d: Dims, p: nat, m: int)
    requires Adjacent(d, p, m)
    ensures m in Neighbours(d, p)
  {
    var n := d.cols;
    var dr, dc := AdjacentOffset(d, p, m);
    NeighboursByColumn(d, p);
    if dc == -1 {
      assert p % n > 0;
      if dr == -1 {
        assert m == p - n - 1;
      } else if dr == 0 {
        assert m == p - 1;
      } else {
        assert m == p + n - 1;
      }
      assert m in LeftColumn(d, p);
    } else if dc == 0 {
      if dr == -1 {
        assert m == p - n;
      } else {
        assert m == p + n;
      }
      assert m in MiddleColumn(d, p);
    } else {
      assert p % n < n - 1;
      if dr == -1 {
        assert m == p - n + 1;
      } else if dr == 0 {
        assert m == p + 1;
      } else {
        assert m == p + n + 1;
      }
      assert m in RightColumn(d, p);
    }
  }

  /** The source's guarded neighbour list is exactly the set of geometric neighbours. */
  lemma NeighboursAreAdjacent(d: Dims, p: nat)
    requires d.Valid() && p < d.Cells()
    ensures forall m :: m in Neighbours(d, p) <==> Adjacent(d, p, m)
  {
    NeighboursByColumn(d, p);
    LeftColumnAdjacent(d, p);
    MiddleColumnAdjacent(d, p);
    RightColumnAdjacent(d, p);
    forall m | Adjacent(d, p, m)
      ensures m in Neighbours(d, p)
    {
      AdjacentIsListed(d, p, m);
    }
  }

  lemma DistinctConcat(a: seq<nat>, b: seq<nat>)
    requires Distinct(a) && Distinct(b)
    requires forall x, y :: x in a && y in b ==> x != y
    ensures Distinct(a + b)
  {
    forall i, j | 0 <= i < j < |a + b|
      ensures (a + b)[i] != (a + b)[j]
    {
      if j < |a| {
      } else if i >= |a| {
        assert (a + b)[i] == b[i - |a|] && (a + b)[j] == b[j - |a|];
      } else {
        assert (a + b)[i] in a && (a + b)[j] in b;
      }
    }
  }

  /** Three candidates of one column, each kept or dropped by its guard, never repeat. */
  lemma TripleDistinct(a: seq<nat>, b: seq<nat>, c: seq<nat>, x: int, y: int, z: int)
    requires |a| <= 1 && |b| <= 1 && |c| <= 1
    requires forall v :: v in a ==> v == x
    requires forall v :: v in b ==> v == y
    requires forall v :: v in c ==> v == z
    requires x != y && y != z && x != z
    ensures Distinct(a + b + c) && |a + b + c| <= 3
  {
    DistinctConcat(a, b);
    DistinctConcat(a + b, c);
  }

  lemma ColumnsDistinct(d: Dims, p: nat)
    requires d.Valid() && p < d.Cells()
    ensures Distinct(LeftColumn(d, p)) && Distinct(MiddleColumn(d, p)) && Distinct(RightColumn(d, p))
    ensures |LeftColumn(d, p)| <= 3 && |MiddleColumn(d, p)| <= 2 && |RightColumn(d, p)| <= 3
  {
    LeftDistinct(d, p);
    DistinctConcat(IfNonNegative(p - d.cols), IfInGrid(d, p + d.cols));
    RightDistinct(d, p);
  }

  lemma LeftDistinct(d: Dims, p: nat)
    requires d.Valid()
    ensures Distinct(LeftColumn(d, p)) && |LeftColumn(d, p)| <= 3
  {
    var n := d.cols;
    if p % n > 0 {
      var a, b, c := IfNonNegative(p - n - 1), IfNonNegative(p - 1), IfInGrid(d, p + n - 1);
      assert LeftColumn(d, p) == a + b + c;
      TripleDistinct(a, b, c, p - n - 1, p - 1, p + n - 1);
    } else {
      assert LeftColumn(d, p) == [];
    }
  }

  lemma RightDistinct(d: Dims, p: nat)
    requires d.Valid()
    ensures Distinct(RightColumn(d, p)) && |RightColumn(d, p)| <= 3
  {
    var n := d.cols;
    if p % n < n - 1 {
      var a, b, c := IfNonNegative(p - n + 1), IfInGrid(d, p + n + 1), IfInGrid(d, p + 1);
      assert RightColumn(d, p) == a + b + c;
      TripleDistinct(a, b, c, p - n + 1, p + n + 1, p + 1);
    } else {
      assert RightColumn(d, p) == [];
    }
  }

  /** No neighbour is listed twice, so each one is visited at most once per centre. */
  lemma NeighboursDistinct(d: Dims, p: nat)
    requires d.Valid() && p < d.Cells()
    ensures Distinct(Neighbours(d, p))
    ensures |Neighbours(d, p)| <= 8
  {
    var n := d.cols;
    var left, mid, right := LeftColumn(d, p), MiddleColumn(d, p), RightColumn(d, p);
    NeighboursByColumn(d, p);
    ColumnsDistinct(d, p);
    LeftColumnAdjacent(d, p);
    MiddleColumnAdjacent(d, p);
    RightColumnAdjacent(d, p);
    DistinctConcat(left, mid);
    forall x, y | x in left + mid && y in right
      ensures x != y
    {
      assert x % n < p % n + 1;
    }
    DistinctConcat(left + mid, right);
  }

  /** Every listed neighbour is a cell of the grid. */
  lemma NeighboursInGrid(d: Dims, p: nat)
    requires d.Valid() && p < d.Cells()
    ensures forall i :: 0 <= i < |Neighbours(d, p)| ==> Neighbours(d, p)[i] < d.Cells()
  {
    NeighboursAreAdjacent(d, p);
    forall i | 0 <= i < |Neighbours(d, p)|
      ensures Neighbours(d, p)[i] < d.Cells()
    {
      assert Adjacent(d, p, Neighbours(d, p)[i]);
    }
  }
}
