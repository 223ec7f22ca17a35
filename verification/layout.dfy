/**
 The mine layout a field encodes: which cells hold a mine (digit 9 in any layer)
 and the brute-force count of mines around a cell, which every non-mine digit
 must equal.
 */
module Layout {
  import opened Cells
  import opened Grid

  /** The cells holding a mine, whatever their layer. */
  function MineSet(f: seq<int>): set<int> {
    set c | 0 <= c < |f| && HoldsMine(f[c])
  }

  /** Brute-force recount: the mines of `mines` geometrically adjacent to `c`. */
  function AdjCount(d: Dims, mines: set<int>, c: int): nat {
    |set n | n in mines && Adjacent(d, c, n)|
  }

  /** Cell `c` holds a mine or its digit is the number of adjacent mines. */
  predicate CountExactAt(d: Dims, f: seq<int>, c: int)
    requires 0 <= c < |f|
  {
    HoldsMine(f[c]) || Digit(f[c]) == AdjCount(d, MineSet(f), c)
  }

  /** Every non-mine cell's digit is the number of adjacent mines. */
  predicate CountsExact(d: Dims, f: seq<int>) {
    forall c :: 0 <= c < |f| ==> CountExactAt(d, f, c)
  }

  /** A cell whose digit is 0 has no mine among its listed neighbours. */
  predicate NoMineNextToZero(d: Dims, f: seq<int>) {
    && d.Valid()
    && forall z, n :: 0 <= z < |f| && Digit(f[z]) == 0 && n in Neighbours(d, z) ==> n < |f| && !HoldsMine(f[n])
  }

  lemma SubsetCard<T>(a: set<T>, b: set<T>)
    requires a <= b
    ensures |a| <= |b|
  {
    assert b == a + (b - a);
  }

  /** The distinct elements of a sequence. */
  function Elems(s: seq<nat>): (r: set<nat>)
    ensures |r| <= |s|
    ensures forall x :: x in r <==> x in s
  {
    if s == [] then {} else
      var rest := Elems(s[1..]);
      assert s == [s[0]] + s[1..];
      if s[0] in rest then rest else rest + {s[0]}
  }

  /** The indices below `k`. */
  function Below(k: nat): (r: set<int>)
    ensures |r| == k
    ensures forall c :: c in r <==> 0 <= c < k
  {
    if k == 0 then {} else Below(k - 1) + {k - 1}
  }

  /** A field holds at most one mine per cell. */
  lemma MineSetBound(f: seq<int>)
    ensures |MineSet(f)| <= |f|
  {
    SubsetCard(MineSet(f), Below(|f|));
  }

  /** A cell has at most eight neighbours, so at most eight adjacent mines. */
  lemma AdjCountBound(d: Dims, mines: set<int>, c: int)
    ensures AdjCount(d, mines, c) <= 8
  {
    var around := set n | n in mines && Adjacent(d, c, n);
    if around != {} {
      var n0 :| n0 in around;
      assert 0 <= c < d.Cells();
      NeighboursAreAdjacent(d, c);
      NeighboursDistinct(d, c);
      SubsetCard(around, Elems(Neighbours(d, c)));
    }
  }

  /** Adding one new mine raises the count of exactly its neighbours, by one. */
  lemma AdjCountAdd(d: Dims, mines: set<int>, p: int, c: int)
    requires p !in mines
    ensures AdjCount(d, mines + {p}, c) == AdjCount(d, mines, c) + (if Adjacent(d, c, p) then 1 else 0)
  {
    var before := set n | n in mines && Adjacent(d, c, n);
    var after := set n | n in mines + {p} && Adjacent(d, c, n);
    if Adjacent(d, c, p) {
      assert after == before + {p};
    } else {
      assert after == before;
    }
  }

  lemma ZeroHasNoMineNeighbour(d: Dims, f: seq<int>, z: int, n: int)
    requires d.Valid() && |f| == d.Cells() && CountsExact(d, f)
    requires 0 <= z < |f| && Digit(f[z]) == 0 && n in Neighbours(d, z)
    ensures n < |f| && !HoldsMine(f[n])
  {
    NeighboursAreAdjacent(d, z);
    assert CountExactAt(d, f, z);
    assert Adjacent(d, z, n);
    var around := set m | m in MineSet(f) && Adjacent(d, z, m);
    assert |around| == 0;
    assert n !in around;
  }

  /** Exact counts mean a 0 digit really has no mine next to it. */
  lemma ExactCountsGuardZeros(d: Dims, f: seq<int>)
    requires d.Valid() && |f| == d.Cells() && CountsExact(d, f)
    ensures NoMineNextToZero(d, f)
  {
    forall z | 0 <= z < |f| && Digit(f[z]) == 0
      ensures forall n :: n in Neighbours(d, z) ==> n < |f| && !HoldsMine(f[n])
    {
      forall n | n in Neighbours(d, z)
        ensures n < |f| && !HoldsMine(f[n])
      {
        ZeroHasNoMineNeighbour(d, f, z, n);
      }
    }
  }

  /** Changing only layers (never digits) keeps the mines and the counts. */
  lemma SameDigits(d: Dims, f: seq<int>, g: seq<int>)
    requires |f| == |g|
    requires forall c :: 0 <= c < |f| ==> Digit(f[c]) == Digit(g[c])
    ensures MineSet(f) == MineSet(g)
    ensures CountsExact(d, f) ==> CountsExact(d, g)
  {
    assert MineSet(f) == MineSet(g);
    if CountsExact(d, f) {
      forall c | 0 <= c < |g|
        ensures CountExactAt(d, g, c)
      {
        assert CountExactAt(d, f, c);
      }
    }
  }
}
