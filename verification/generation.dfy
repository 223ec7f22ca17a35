/**
 Mine placement of `newGame`: every cell starts covered (10); candidate positions
 are tried in turn, a candidate that is in the grid and not yet a mine becomes a
 covered mine (19) and bumps each non-mine neighbour by one. The random draws are
 a caller-supplied sequence; running out of them before all mines are placed gives
 `None`.
 */
module Generation {
  import opened Options
  import opened Cells
  import opened Grid
  import opened Layout

  /** `field[cell] += 1` unless the cell is a covered mine. */
  function Bump(f: seq<int>, cell: nat): (r: seq<int>)
    requires cell < |f|
    ensures |r| == |f|
  {
    if f[cell] != CoveredMineCell then f[cell := f[cell] + 1] else f
  }

  /** The bumps of one placement, in the order of `ns`. */
  function BumpAll(f: seq<int>, ns: seq<nat>): (r: seq<int>)
    requires forall i :: 0 <= i < |ns| ==> ns[i] < |f|
    ensures |r| == |f|
    decreases |ns|
  {
    if |ns| == 0 then f else BumpAll(Bump(f, ns[0]), ns[1..])
  }

  /** The bumps leave unlisted cells and covered mines alone, repeated entries or not. */
  lemma {:induction false} BumpAllFrame(f: seq<int>, ns: seq<nat>, c: int)
    requires forall i :: 0 <= i < |ns| ==> ns[i] < |f|
    requires 0 <= c < |f| && (c !in ns || f[c] == CoveredMineCell)
    ensures BumpAll(f, ns)[c] == f[c]
    decreases |ns|
  {
    if |ns| > 0 {
      assert c !in ns[1..] || Bump(f, ns[0])[c] == CoveredMineCell by {
        if c !in ns[1..] {
        } else {
          assert c in ns && f[c] == CoveredMineCell;
        }
      }
      BumpAllFrame(Bump(f, ns[0]), ns[1..], c);
    }
  }

  /** With no repeated neighbour, each listed non-mine cell is bumped exactly once. */
  lemma {:induction false} BumpAllPointwise(f: seq<int>, ns: seq<nat>)
    requires forall i :: 0 <= i < |ns| ==> ns[i] < |f|
    requires Distinct(ns)
    decreases |ns|
    ensures forall c :: 0 <= c < |f| ==>
      BumpAll(f, ns)[c] == if c in ns && f[c] != CoveredMineCell then f[c] + 1 else f[c]
  {
    if |ns| > 0 {
      var g := Bump(f, ns[0]);
      BumpAllPointwise(g, ns[1..]);
      assert ns == [ns[0]] + ns[1..];
      forall c | 0 <= c < |f|
        ensures BumpAll(f, ns)[c] == if c in ns && f[c] != CoveredMineCell then f[c] + 1 else f[c]
      {
        if c == ns[0] {
          assert forall i :: 0 <= i < |ns[1..]| ==> ns[1..][i] == ns[i + 1] != ns[0];
        }
      }
    }
  }

  /** Turn `p` into a covered mine and bump its non-mine neighbours. */
  function PlaceMine(d: Dims, f: seq<int>, p: nat): (r: seq<int>)
    requires d.Valid() && |f| == d.Cells() && p < |f|
    ensures |r| == |f|
    ensures r[p] == CoveredMineCell
  {
    NeighboursInGrid(d, p);
    BumpAllFrame(f[p := CoveredMineCell], Neighbours(d, p), p);
    BumpAll(f[p := CoveredMineCell], Neighbours(d, p))
  }

  /** Placing a mine at `p` changes only `p` and the neighbours the guards list. */
  lemma PlaceMineFrame(d: Dims, f: seq<int>, p: nat, c: int)
    requires d.Valid() && |f| == d.Cells() && p < |f|
    requires 0 <= c < |f| && c != p && c !in Neighbours(d, p)
    ensures PlaceMine(d, f, p)[c] == f[c]
  {
    NeighboursInGrid(d, p);
    BumpAllFrame(f[p := CoveredMineCell], Neighbours(d, p), c);
  }

  /**
   The shape of a freshly generated field: every cell is a covered mine, or covered
   with the exact number of adjacent mines.
   */
  predicate Generated(d: Dims, f: seq<int>) {
    && d.Valid()
    && |f| == d.Cells()
    && forall c :: 0 <= c < |f| ==> GeneratedCell(d, f, c)
  }

  predicate GeneratedCell(d: Dims, f: seq<int>, c: int)
    requires 0 <= c < |f|
  {
    f[c] == CoveredMineCell || f[c] == CoverForCell + AdjCount(d, MineSet(f), c)
  }

  lemma GeneratedAt(d: Dims, f: seq<int>, c: int)
    requires Generated(d, f) && 0 <= c < |f|
    ensures CoverForCell <= f[c] <= CoveredMineCell
    ensures c in MineSet(f) <==> f[c] == CoveredMineCell
    ensures c !in MineSet(f) ==> f[c] == CoverForCell + AdjCount(d, MineSet(f), c)
  {
    assert GeneratedCell(d, f, c);
    AdjCountBound(d, MineSet(f), c);
  }

  /** A generated field is all covered, its mines are exactly its 19s, and its digits are exact. */
  lemma GeneratedMeaning(d: Dims, f: seq<int>)
    requires Generated(d, f)
    ensures forall c :: 0 <= c < |f| ==> CoverForCell <= f[c] <= CoveredMineCell
    ensures forall c :: 0 <= c < |f| ==> (c in MineSet(f) <==> f[c] == CoveredMineCell)
    ensures AllInRange(f)
    ensures CountsExact(d, f)
  {
    forall c | 0 <= c < |f|
      ensures CoverForCell <= f[c] <= CoveredMineCell
      ensures c in MineSet(f) <==> f[c] == CoveredMineCell
      ensures CountExactAt(d, f, c)
    {
      GeneratedAt(d, f, c);
      if c !in MineSet(f) {
        AdjCountBound(d, MineSet(f), c);
        assert Digit(CoverForCell + AdjCount(d, MineSet(f), c)) == AdjCount(d, MineSet(f), c);
      }
    }
  }

  lemma PlaceMinePointwise(d: Dims, f: seq<int>, p: nat, c: int)
    requires Generated(d, f) && p < |f| && f[p] != CoveredMineCell && 0 <= c < |f|
    ensures var g := PlaceMine(d, f, p);
      g[c] == if c in MineSet(f) + {p} then CoveredMineCell else CoverForCell + AdjCount(d, MineSet(f) + {p}, c)
  {
    var m := MineSet(f);
    GeneratedAt(d, f, p);
    GeneratedAt(d, f, c);
    var f1 := f[p := CoveredMineCell];
    var ns := Neighbours(d, p);
    NeighboursInGrid(d, p);
    NeighboursDistinct(d, p);
    BumpAllPointwise(f1, ns);
    var g := PlaceMine(d, f, p);
    assert g[c] == if c in ns && f1[c] != CoveredMineCell then f1[c] + 1 else f1[c];
    if c == p {
    } else if c in m {
      assert f1[c] == CoveredMineCell;
    } else {
      AdjCountAdd(d, m, p, c);
      AdjCountBound(d, m + {p}, c);
      assert f[c] == CoverForCell + AdjCount(d, m, c);
      NeighboursAreAdjacent(d, p);
      assert c in ns <==> Adjacent(d, c, p);
    }
  }

  lemma PlaceMineMines(d: Dims, f: seq<int>, p: nat)
    requires Generated(d, f) && p < |f| && f[p] != CoveredMineCell
    ensures MineSet(PlaceMine(d, f, p)) == MineSet(f) + {p}
  {
    var g := PlaceMine(d, f, p);
    var m' := MineSet(f) + {p};
    forall c | 0 <= c < |g|
      ensures c in MineSet(g) <==> c in m'
    {
      PlaceMinePointwise(d, f, p, c);
      if c !in m' {
        var k := AdjCount(d, m', c);
        AdjCountBound(d, m', c);
        assert g[c] == CoverForCell + k;
        assert Digit(CoverForCell + k) == k;
      }
    }
  }

  /** Placing one new mine keeps the field generated and adds exactly that mine. */
  lemma PlaceMineKeepsGenerated(d: Dims, f: seq<int>, p: nat)
    requires Generated(d, f) && p < |f| && f[p] != CoveredMineCell
    ensures Generated(d, PlaceMine(d, f, p))
    ensures MineSet(PlaceMine(d, f, p)) == MineSet(f) + {p}
  {
    var g := PlaceMine(d, f, p);
    PlaceMineMines(d, f, p);
    forall c | 0 <= c < |g|
      ensures GeneratedCell(d, g, c)
    {
      PlaceMinePointwise(d, f, p, c);
    }
  }

  /** The `while (i < mines)` loop: try candidates until `remaining` more mines are placed. */
  function PlaceMines(d: Dims, f: seq<int>, remaining: nat, draws: seq<nat>): Option<seq<int>>
    requires d.Valid() && |f| == d.Cells()
    decreases |draws|
  {
    if remaining == 0 then Some(f)
    else if |draws| == 0 then None
    else
      var position := draws[0];
      if position < |f| && f[position] != CoveredMineCell then
        PlaceMines(d, PlaceMine(d, f, position), remaining - 1, draws[1..])
      else
        PlaceMines(d, f, remaining, draws[1..])
  }

  /** Placement keeps the field generated, adds exactly `remaining` mines, all at drawn positions. */
  lemma PlaceMinesSound(d: Dims, f: seq<int>, remaining: nat, draws: seq<nat>)
    requires Generated(d, f)
    ensures var r := PlaceMines(d, f, remaining, draws);
      r.Some? ==>
        && Generated(d, r.value)
        && MineSet(f) <= MineSet(r.value)
        && |MineSet(r.value)| == |MineSet(f)| + remaining
        && forall c :: c in MineSet(r.value) ==> c in MineSet(f) || c in draws
  {
    PlaceMinesGenerated(d, f, remaining, draws);
    PlaceMinesCount(d, f, remaining, draws);
    PlaceMinesDrawn(d, f, remaining, draws);
  }

  /** The field stays generated. */
  lemma {:induction false} PlaceMinesGenerated(d: Dims, f: seq<int>, remaining: nat, draws: seq<nat>)
    requires Generated(d, f)
    ensures var r := PlaceMines(d, f, remaining, draws);
      r.Some? ==> Generated(d, r.value)
    decreases |draws|
  {
    if remaining > 0 && |draws| > 0 {
      var position := draws[0];
      if position < |f| && f[position] != CoveredMineCell {
        NewMine(d, f, position);
        PlaceMinesGenerated(d, PlaceMine(d, f, position), remaining - 1, draws[1..]);
      } else {
        PlaceMinesGenerated(d, f, remaining, draws[1..]);
      }
    }
  }

  /** The field keeps its mines and gains exactly `remaining` more. */
  lemma {:induction false} PlaceMinesCount(d: Dims, f: seq<int>, remaining: nat, draws: seq<nat>)
    requires Generated(d, f)
    ensures var r := PlaceMines(d, f, remaining, draws);
      r.Some? ==> MineSet(f) <= MineSet(r.value) && |MineSet(r.value)| == |MineSet(f)| + remaining
    decreases |draws|
  {
    if remaining > 0 && |draws| > 0 {
      var position := draws[0];
      if position < |f| && f[position] != CoveredMineCell {
        var g := PlaceMine(d, f, position);
        NewMine(d, f, position);
        var r := PlaceMines(d, g, remaining - 1, draws[1..]);
        PlaceMinesCount(d, g, remaining - 1, draws[1..]);
        if r.Some? {
          CountStep(MineSet(f), position, MineSet(r.value), remaining - 1);
        }
      } else {
        PlaceMinesCount(d, f, remaining, draws[1..]);
      }
    }
  }

  /** Each draw places at most one mine, so too few draws never finish. */
  lemma {:induction false} PlaceMinesNeedsDraws(d: Dims, f: seq<int>, remaining: nat, draws: seq<nat>)
    requires d.Valid() && |f| == d.Cells()
    requires |draws| < remaining
    ensures PlaceMines(d, f, remaining, draws) == None
    decreases |draws|
  {
    if |draws| > 0 {
      var position := draws[0];
      if position < |f| && f[position] != CoveredMineCell {
        PlaceMinesNeedsDraws(d, PlaceMine(d, f, position), remaining - 1, draws[1..]);
      } else {
        PlaceMinesNeedsDraws(d, f, remaining, draws[1..]);
      }
    }
  }

  /** A placement on a free cell: a new mine, the field still generated. */
  lemma NewMine(d: Dims, f: seq<int>, p: nat)
    requires Generated(d, f) && p < |f| && f[p] != CoveredMineCell
    ensures p !in MineSet(f)
    ensures Generated(d, PlaceMine(d, f, p)) && MineSet(PlaceMine(d, f, p)) == MineSet(f) + {p}
  {
    GeneratedAt(d, f, p);
    PlaceMineKeepsGenerated(d, f, p);
  }

  /** One more mine before the remaining placements: the count arithmetic of one step. */
  lemma CountStep(a: set<int>, p: int, m: set<int>, k: int)
    requires p !in a && a + {p} <= m && |m| == |a + {p}| + k
    ensures a <= m && |m| == |a| + k + 1
  {
  }

  /** Every mine placement adds is a drawn position. */
  lemma {:induction false} PlaceMinesDrawn(d: Dims, f: seq<int>, remaining: nat, draws: seq<nat>)
    requires Generated(d, f)
    ensures var r := PlaceMines(d, f, remaining, draws);
      r.Some? ==> forall c :: c in MineSet(r.value) ==> c in MineSet(f) || c in draws
    decreases |draws|
  {
    if remaining > 0 && |draws| > 0 {
      var position := draws[0];
      assert forall c :: c in draws[1..] ==> c in draws;
      if position < |f| && f[position] != CoveredMineCell {
        var g := PlaceMine(d, f, position);
        PlaceMineKeepsGenerated(d, f, position);
        PlaceMinesDrawn(d, g, remaining - 1, draws[1..]);
      } else {
        PlaceMinesDrawn(d, f, remaining, draws[1..]);
      }
    }
  }

  /** Candidates still able to become a mine: in the grid and not yet mined. */
  function Usable(f: seq<int>, draws: seq<nat>): set<nat> {
    set x | x in draws && x < |f| && x !in MineSet(f)
  }

  /** Placing the first draw as a mine uses up exactly that candidate. */
  lemma UsableAfterPlace(d: Dims, f: seq<int>, draws: seq<nat>)
    requires Generated(d, f) && |draws| > 0 && draws[0] < |f| && f[draws[0]] != CoveredMineCell
    ensures |Usable(PlaceMine(d, f, draws[0]), draws[1..])| >= |Usable(f, draws)| - 1
  {
    var position := draws[0];
    var g := PlaceMine(d, f, position);
    var s := Usable(f, draws);
    PlaceMineKeepsGenerated(d, f, position);
    forall x | x in s - {position} ensures x in Usable(g, draws[1..]) {
      assert x in draws[1..] by {
        var k :| 0 <= k < |draws| && draws[k] == x;
        assert k > 0 && draws[1..][k - 1] == x;
      }
    }
    SubsetCard(s - {position}, Usable(g, draws[1..]));
  }

  /** Skipping a first draw that is outside the grid or already a mine loses no candidate. */
  lemma UsableAfterSkip(f: seq<int>, draws: seq<nat>)
    requires |draws| > 0 && !(draws[0] < |f| && f[draws[0]] != CoveredMineCell)
    ensures |Usable(f, draws[1..])| >= |Usable(f, draws)|
  {
    var s := Usable(f, draws);
    forall x | x in s ensures x in Usable(f, draws[1..]) {
      assert x != draws[0];
      var k :| 0 <= k < |draws| && draws[k] == x;
      assert k > 0 && draws[1..][k - 1] == x;
    }
    SubsetCard(s, Usable(f, draws[1..]));
  }

  /** Rejection sampling finishes once the draws hold enough distinct usable positions. */
  lemma {:induction false} PlaceMinesSucceeds(d: Dims, f: seq<int>, remaining: nat, draws: seq<nat>)
    requires Generated(d, f)
    requires |Usable(f, draws)| >= remaining
    ensures PlaceMines(d, f, remaining, draws).Some?
    decreases |draws|
  {
    if remaining > 0 {
      assert |draws| > 0;
      var position := draws[0];
      if position < |f| && f[position] != CoveredMineCell {
        UsableAfterPlace(d, f, draws);
        NewMine(d, f, position);
        PlaceMinesSucceeds(d, PlaceMine(d, f, position), remaining - 1, draws[1..]);
      } else {
        UsableAfterSkip(f, draws);
        PlaceMinesSucceeds(d, f, remaining, draws[1..]);
      }
    }
  }

  /** The field before any mine: every cell covered with count 0. */
  function Blank(d: Dims): (f: seq<int>)
    requires d.Valid()
    ensures Generated(d, f) && MineSet(f) == {}
  {
    var f := seq(d.Cells(), _ => CoverForCell);
    assert MineSet(f) == {};
    f
  }

  /** `newGame`'s field: `mines` covered mines at drawn positions, every other cell covered with its exact count. */
  function NewField(d: Dims, mines: nat, draws: seq<nat>): (r: Option<seq<int>>)
    requires d.Valid()
    ensures r.Some? ==> Generated(d, r.value) && |MineSet(r.value)| == mines
    ensures r.Some? ==> forall c :: c in MineSet(r.value) ==> c in draws
  {
    PlaceMinesSound(d, Blank(d), mines, draws);
    PlaceMines(d, Blank(d), mines, draws)
  }

  /** Enough distinct in-grid draws always yield a field. */
  lemma NewFieldSucceeds(d: Dims, mines: nat, draws: seq<nat>)
    requires d.Valid()
    requires |set x | x in draws && x < d.Cells()| >= mines
    ensures NewField(d, mines, draws).Some?
  {
    assert Usable(Blank(d), draws) == set x | x in draws && x < d.Cells();
    PlaceMinesSucceeds(d, Blank(d), mines, draws);
  }

  /** More mines than cells can never be placed: the source's loop would not terminate. */
  lemma NewFieldTooManyMines(d: Dims, mines: nat, draws: seq<nat>)
    requires d.Valid() && mines > d.Cells()
    ensures NewField(d, mines, draws) == None
  {
    var r := NewField(d, mines, draws);
    if r.Some? {
      MineSetBound(r.value);
    }
  }
}
