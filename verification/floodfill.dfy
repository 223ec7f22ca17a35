/**
 The recursive flood fill `find_empty_cells`, shared by the solo and the
 multiplayer board. From a cell `j` it visits `j`'s neighbours in the source's
 order; each neighbour whose code is above 9 (covered or marked) loses 10, and one
 that reaches 0 is filled from in turn. With `tracking` (multiplayer mode) a touched
 cell that has no owner yet is given to `player` and earns one point.
 */
module FloodFill {
  import opened Cells
  import opened Grid
  import opened Layout

  /** The state the fill updates: the field, the cell-to-owner map and the points earned so far. */
  datatype Sweep = Sweep(field: seq<int>, owners: map<nat, nat>, gained: nat)

  function Sum(f: seq<int>): (r: int)
    ensures (forall c :: 0 <= c < |f| ==> f[c] >= 0) ==> r >= 0
  {
    if |f| == 0 then 0 else f[0] + Sum(f[1..])
  }

  lemma {:induction false} SumUpdate(f: seq<int>, i: nat, v: int)
    requires i < |f|
    ensures Sum(f[i := v]) == Sum(f) - f[i] + v
  {
    if i > 0 {
      SumUpdate(f[1..], i - 1, v);
      assert f[i := v][1..] == f[1..][i - 1 := v];
    } else {
      assert f[i := v][1..] == f[1..];
    }
  }

  predicate Shaped(d: Dims, s: Sweep) {
    d.Valid() && |s.field| == d.Cells() && AllInRange(s.field)
  }

  /** `g` only takes whole layers off `f`: same length, never higher, same digits. */
  predicate Lowered(f: seq<int>, g: seq<int>) {
    && |g| == |f|
    && forall c :: 0 <= c < |f| ==> g[c] <= f[c] && Digit(g[c]) == Digit(f[c])
  }

  lemma LoweredTrans(f: seq<int>, g: seq<int>, h: seq<int>)
    requires Lowered(f, g) && Lowered(g, h)
    ensures Lowered(f, h)
  {
  }

  /** One touch of a neighbour whose code is above 9. */
  function Touch(s: Sweep, cell: nat, tracking: bool, player: nat): (r: Sweep)
    requires cell < |s.field|
    ensures |r.field| == |s.field| && r.field[cell] == s.field[cell] - CoverForCell
    ensures tracking ==> cell in r.owners
  {
    var f := s.field[cell := s.field[cell] - CoverForCell];
    if tracking && cell !in s.owners then Sweep(f, s.owners[cell := player], s.gained + 1)
    else s.(field := f)
  }

  /** A touch takes one layer off one covered or marked cell and 10 off the sum. */
  lemma TouchLowers(d: Dims, s: Sweep, cell: nat, tracking: bool, player: nat)
    requires Shaped(d, s) && cell < |s.field| && s.field[cell] > MineCell
    ensures var r := Touch(s, cell, tracking, player);
      Shaped(d, r) && Lowered(s.field, r.field) && Sum(r.field) == Sum(s.field) - CoverForCell
  {
    SumUpdate(s.field, cell, s.field[cell] - CoverForCell);
    assert Digit(s.field[cell] - CoverForCell) == Digit(s.field[cell]);
  }

  /**
   `find_empty_cells(j)`. It terminates because every touch takes 10 off the sum of
   the field, which stays non-negative.
   */
  function Fill(d: Dims, s: Sweep, j: nat, tracking: bool, player: nat): (r: Sweep)
    requires Shaped(d, s) && j < d.Cells()
    ensures Shaped(d, r) && Lowered(s.field, r.field)
    ensures Sum(r.field) <= Sum(s.field)
    decreases Sum(s.field), 1, 0
  {
    NeighboursInGrid(d, j);
    Visit(d, s, Neighbours(d, j), tracking, player)
  }

  /** The rest of `j`'s neighbour list, `ns`, still to be visited. */
  function Visit(d: Dims, s: Sweep, ns: seq<nat>, tracking: bool, player: nat): (r: Sweep)
    requires Shaped(d, s) && forall i :: 0 <= i < |ns| ==> ns[i] < d.Cells()
    ensures Shaped(d, r) && Lowered(s.field, r.field)
    ensures Sum(r.field) <= Sum(s.field)
    decreases Sum(s.field), 0, |ns|
  {
    if |ns| == 0 then s
    else
      var cell := ns[0];
      if s.field[cell] > MineCell then
        var s2 := Step(d, s, cell, tracking, player);
        var r := Visit(d, s2, ns[1..], tracking, player);
        LoweredTrans(s.field, s2.field, r.field);
        r
      else
        Visit(d, s, ns[1..], tracking, player)
  }

  /** The visit of one covered or marked neighbour: touch it, and fill from it if it reached 0. */
  function Step(d: Dims, s: Sweep, cell: nat, tracking: bool, player: nat): (r: Sweep)
    requires Shaped(d, s) && cell < d.Cells() && s.field[cell] > MineCell
    ensures Shaped(d, r) && Lowered(s.field, r.field)
    ensures Sum(r.field) < Sum(s.field)
    decreases Sum(s.field), 0, 0
  {
    var s1 := Touch(s, cell, tracking, player);
    TouchLowers(d, s, cell, tracking, player);
    if s1.field[cell] == EmptyCell then
      var r := Fill(d, s1, cell, tracking, player);
      LoweredTrans(s.field, s1.field, r.field);
      r
    else s1
  }

  /** `z` was not 0 before and is 0 after: a cell the fill has emptied and filled from. */
  predicate Zeroed(f: seq<int>, g: seq<int>, z: int) {
    0 <= z < |f| && z < |g| && f[z] != EmptyCell && g[z] == EmptyCell
  }

  lemma ZeroedWiden(f: seq<int>, f1: seq<int>, g1: seq<int>, g: seq<int>, z: int)
    requires Lowered(f, f1) && Lowered(g1, g) && AllInRange(f1) && AllInRange(g) && |g1| == |f1|
    requires Zeroed(f1, g1, z)
    ensures Zeroed(f, g, z)
  {
  }

  /** Every cell changed from `f` to `g` is in `ns` or next to a cell emptied on the way. */
  ghost predicate Local(d: Dims, f: seq<int>, g: seq<int>, ns: seq<nat>) {
    && d.Valid()
    && forall c :: 0 <= c < |f| && c < |g| && g[c] != f[c] ==>
      c in ns || exists z :: Zeroed(f, g, z) && c in Neighbours(d, z)
  }

  /** Locality composes: changes from `f` to `h` come from the first stretch or the second. */
  lemma LocalTrans(d: Dims, f: seq<int>, g: seq<int>, h: seq<int>, a: seq<nat>, b: seq<nat>)
    requires AllInRange(f) && AllInRange(g) && AllInRange(h)
    requires Lowered(f, g) && Lowered(g, h)
    requires Local(d, f, g, a) && Local(d, g, h, b)
    ensures Local(d, f, h, a + b)
  {
    forall c | 0 <= c < |f| && h[c] != f[c]
      ensures c in a + b || exists z :: Zeroed(f, h, z) && c in Neighbours(d, z)
    {
      if g[c] != f[c] {
        if c !in a {
          var z :| Zeroed(f, g, z) && c in Neighbours(d, z);
          ZeroedWiden(f, f, g, h, z);
        }
      } else if c !in b {
        var z :| Zeroed(g, h, z) && c in Neighbours(d, z);
        ZeroedWiden(f, g, h, h, z);
      }
    }
  }

  /** One step of `Visit` changes only `cell` and what the fill from `cell` reaches. */
  lemma {:induction false} StepLocal(d: Dims, s: Sweep, cell: nat, tracking: bool, player: nat)
    requires Shaped(d, s) && cell < d.Cells() && s.field[cell] > MineCell
    ensures Local(d, s.field, Step(d, s, cell, tracking, player).field, [cell])
    decreases Sum(s.field), 0, 0
  {
    var s1 := Touch(s, cell, tracking, player);
    TouchLowers(d, s, cell, tracking, player);
    if s1.field[cell] == EmptyCell {
      var r := Fill(d, s1, cell, tracking, player);
      FillLocal(d, s1, cell, tracking, player);
      forall c | 0 <= c < |s.field| && r.field[c] != s.field[c]
        ensures c in [cell] || exists z :: Zeroed(s.field, r.field, z) && c in Neighbours(d, z)
      {
        if c != cell {
          if c in Neighbours(d, cell) {
            assert Zeroed(s.field, r.field, cell);
          } else {
            var z :| Zeroed(s1.field, r.field, z) && c in Neighbours(d, z);
            ZeroedWiden(s.field, s1.field, r.field, r.field, z);
          }
        }
      }
    }
  }

  /** Every cell the fill changes is a neighbour of `j` or of a cell the fill emptied. */
  lemma {:induction false} FillLocal(d: Dims, s: Sweep, j: nat, tracking: bool, player: nat)
    requires Shaped(d, s) && j < d.Cells()
    ensures Local(d, s.field, Fill(d, s, j, tracking, player).field, Neighbours(d, j))
    decreases Sum(s.field), 1, 0
  {
    NeighboursInGrid(d, j);
    VisitLocal(d, s, Neighbours(d, j), tracking, player);
  }

  lemma {:induction false} VisitLocal(d: Dims, s: Sweep, ns: seq<nat>, tracking: bool, player: nat)
    requires Shaped(d, s) && forall i :: 0 <= i < |ns| ==> ns[i] < d.Cells()
    ensures Local(d, s.field, Visit(d, s, ns, tracking, player).field, ns)
    decreases Sum(s.field), 0, |ns|
  {
    if |ns| > 0 {
      var cell := ns[0];
      var rest := ns[1..];
      assert ns == [cell] + rest;
      if s.field[cell] > MineCell {
        var s2 := Step(d, s, cell, tracking, player);
        StepLocal(d, s, cell, tracking, player);
        VisitLocal(d, s2, rest, tracking, player);
        LocalTrans(d, s.field, s2.field, Visit(d, s2, rest, tracking, player).field, [cell], rest);
      } else {
        VisitLocal(d, s, rest, tracking, player);
        LocalTrans(d, s.field, s.field, Visit(d, s, rest, tracking, player).field, [cell], rest);
      }
    }
  }

  /**
   Started on a 0 cell of a field whose 0 digits have no mine next to them, the
   fill never touches a mine, so it never produces a 9.
   */
  lemma FillSparesMines(d: Dims, s: Sweep, j: nat, tracking: bool, player: nat)
    requires Shaped(d, s) && j < d.Cells()
    requires NoMineNextToZero(d, s.field) && Digit(s.field[j]) == 0
    ensures var r := Fill(d, s, j, tracking, player);
      forall c :: 0 <= c < |s.field| && HoldsMine(s.field[c]) ==> r.field[c] == s.field[c]
    ensures var r := Fill(d, s, j, tracking, player);
      forall c :: 0 <= c < |s.field| && r.field[c] == MineCell ==> s.field[c] == MineCell
  {
    var f := s.field;
    var g := Fill(d, s, j, tracking, player).field;
    FillLocal(d, s, j, tracking, player);
    forall c | 0 <= c < |f| && g[c] != f[c]
      ensures !HoldsMine(f[c]) && g[c] != MineCell
    {
      ChangeIsSafe(d, f, g, Neighbours(d, j), j, c);
    }
  }

  /**
   Under a lowering that is local to the neighbours of a 0 cell `j`, a changed cell is a
   neighbour of a 0 and so, when no 0 touches a mine, neither was nor became a mine.
   */
  lemma ChangeIsSafe(d: Dims, f: seq<int>, g: seq<int>, ns: seq<nat>, j: nat, c: int)
    requires Lowered(f, g) && NoMineNextToZero(d, f)
    requires j < |f| && Digit(f[j]) == 0 && ns == Neighbours(d, j)
    requires Local(d, f, g, ns)
    requires 0 <= c < |f| && g[c] != f[c]
    ensures !HoldsMine(f[c]) && g[c] != MineCell
  {
    if c !in ns {
      var z :| Zeroed(f, g, z) && c in Neighbours(d, z);
      assert Digit(f[z]) == Digit(g[z]) == 0;
    }
    assert Digit(g[c]) == Digit(f[c]);
  }

  /** The cells whose code differs between `f` and `g`. */
  function Changed(f: seq<int>, g: seq<int>): set<nat> {
    set c: nat | c < |f| && c < |g| && g[c] != f[c]
  }

  lemma ChangedChain(f: seq<int>, g: seq<int>, h: seq<int>)
    requires Lowered(f, g) && Lowered(g, h)
    ensures Changed(f, h) == Changed(f, g) + Changed(g, h)
  {
  }

  /** Ownership keeps its promises through a fill. */
  predicate OwnersGrow(s: Sweep, r: Sweep, tracking: bool, player: nat) {
    && (forall k :: k in s.owners ==> k in r.owners && r.owners[k] == s.owners[k])
    && (forall k :: k in r.owners && k !in s.owners ==> r.owners[k] == player)
    && r.owners.Keys == s.owners.Keys + (if tracking then Changed(s.field, r.field) else {})
    && r.gained == s.gained + |r.owners.Keys| - |s.owners.Keys|
  }

  /** Without tracking, the owner map comes through unchanged. */
  lemma UntrackedKeepsOwners(s: Sweep, r: Sweep, tracking: bool, player: nat)
    requires OwnersGrow(s, r, tracking, player)
    ensures !tracking ==> r.owners == s.owners
  {
    if !tracking {
      assert r.owners.Keys == s.owners.Keys;
    }
  }

  lemma OwnersGrowTrans(s: Sweep, t: Sweep, r: Sweep, tracking: bool, player: nat)
    requires Lowered(s.field, t.field) && Lowered(t.field, r.field)
    requires OwnersGrow(s, t, tracking, player) && OwnersGrow(t, r, tracking, player)
    ensures OwnersGrow(s, r, tracking, player)
  {
    ChangedChain(s.field, t.field, r.field);
  }

  lemma TouchOwners(d: Dims, s: Sweep, cell: nat, tracking: bool, player: nat)
    requires Shaped(d, s) && cell < |s.field| && s.field[cell] > MineCell
    ensures OwnersGrow(s, Touch(s, cell, tracking, player), tracking, player)
  {
    var r := Touch(s, cell, tracking, player);
    TouchLowers(d, s, cell, tracking, player);
    assert Changed(s.field, r.field) == {cell};
    if tracking && cell !in s.owners {
      assert r.owners.Keys == s.owners.Keys + {cell};
    }
  }

  /**
   In multiplayer mode every cell the fill changes ends up owned, each previously
   unowned one by `player` and for exactly one point; existing owners never change.
   */
  lemma {:induction false} FillOwners(d: Dims, s: Sweep, j: nat, tracking: bool, player: nat)
    requires Shaped(d, s) && j < d.Cells()
    ensures OwnersGrow(s, Fill(d, s, j, tracking, player), tracking, player)
    decreases Sum(s.field), 1, 0
  {
    NeighboursInGrid(d, j);
    VisitOwners(d, s, Neighbours(d, j), tracking, player);
  }

  lemma {:induction false} StepOwners(d: Dims, s: Sweep, cell: nat, tracking: bool, player: nat)
    requires Shaped(d, s) && cell < d.Cells() && s.field[cell] > MineCell
    ensures OwnersGrow(s, Step(d, s, cell, tracking, player), tracking, player)
    decreases Sum(s.field), 0, 0
  {
    var s1 := Touch(s, cell, tracking, player);
    TouchLowers(d, s, cell, tracking, player);
    TouchOwners(d, s, cell, tracking, player);
    if s1.field[cell] == EmptyCell {
      FillOwners(d, s1, cell, tracking, player);
      OwnersGrowTrans(s, s1, Fill(d, s1, cell, tracking, player), tracking, player);
    }
  }

  lemma {:induction false} VisitOwners(d: Dims, s: Sweep, ns: seq<nat>, tracking: bool, player: nat)
    requires Shaped(d, s) && forall i :: 0 <= i < |ns| ==> ns[i] < d.Cells()
    ensures OwnersGrow(s, Visit(d, s, ns, tracking, player), tracking, player)
    decreases Sum(s.field), 0, |ns|
  {
    if |ns| == 0 {
      assert Changed(s.field, s.field) == {};
    } else {
      var cell := ns[0];
      var rest := ns[1..];
      if s.field[cell] > MineCell {
        var s2 := Step(d, s, cell, tracking, player);
        StepOwners(d, s, cell, tracking, player);
        VisitOwners(d, s2, rest, tracking, player);
        OwnersGrowTrans(s, s2, Visit(d, s2, rest, tracking, player), tracking, player);
      } else {
        VisitOwners(d, s, rest, tracking, player);
      }
    }
  }

  /**
   After the fill, a visited cell `n` is no longer covered: a covered cell has been
   opened, and a marked one has at least lost its mark.
   */
  predicate Settled(f: seq<int>, g: seq<int>, n: int) {
    0 <= n < |f| && n < |g| && g[n] <= CoveredMineCell && (f[n] <= CoveredMineCell ==> g[n] <= MineCell)
  }

  lemma SettledWiden(f: seq<int>, f1: seq<int>, g1: seq<int>, g: seq<int>, n: int)
    requires Lowered(f, f1) && Lowered(g1, g) && |g1| == |f1|
    requires Settled(f1, g1, n)
    ensures Settled(f, g, n)
  {
  }

  /**
   The fill is closed: every listed cell is settled, and so is every neighbour of
   every cell the fill emptied.
   */
  ghost predicate Closed(d: Dims, f: seq<int>, g: seq<int>, ns: seq<nat>) {
    && d.Valid()
    && (forall n :: n in ns ==> Settled(f, g, n))
    && (forall z, n :: Zeroed(f, g, z) && n in Neighbours(d, z) ==> Settled(f, g, n))
  }

  /** Closure composes: what one stretch settles stays settled through the next. */
  lemma ClosedTrans(d: Dims, f: seq<int>, g: seq<int>, h: seq<int>, a: seq<nat>, b: seq<nat>)
    requires AllInRange(f) && AllInRange(g) && AllInRange(h)
    requires Lowered(f, g) && Lowered(g, h)
    requires Closed(d, f, g, a) && Closed(d, g, h, b)
    ensures Closed(d, f, h, a + b)
  {
    forall n | n in a + b
      ensures Settled(f, h, n)
    {
      if n in a {
        SettledWiden(f, f, g, h, n);
      } else {
        SettledWiden(f, g, h, h, n);
      }
    }
    forall z, n | Zeroed(f, h, z) && n in Neighbours(d, z)
      ensures Settled(f, h, n)
    {
      if g[z] == EmptyCell {
        assert Zeroed(f, g, z);
        SettledWiden(f, f, g, h, n);
      } else {
        assert Zeroed(g, h, z);
        SettledWiden(f, g, h, h, n);
      }
    }
  }

  /** One step of `Visit` settles `cell` and every neighbour of a cell it empties. */
  lemma {:induction false} StepClosed(d: Dims, s: Sweep, cell: nat, tracking: bool, player: nat)
    requires Shaped(d, s) && cell < d.Cells() && s.field[cell] > MineCell
    ensures Closed(d, s.field, Step(d, s, cell, tracking, player).field, [cell])
    decreases Sum(s.field), 0, 0
  {
    var s1 := Touch(s, cell, tracking, player);
    TouchLowers(d, s, cell, tracking, player);
    if s1.field[cell] == EmptyCell {
      var r := Fill(d, s1, cell, tracking, player);
      FillClosed(d, s1, cell, tracking, player);
      assert r.field[cell] <= s1.field[cell] && Digit(r.field[cell]) == Digit(s1.field[cell]);
      assert Settled(s.field, r.field, cell);
      forall z, n | Zeroed(s.field, r.field, z) && n in Neighbours(d, z)
        ensures Settled(s.field, r.field, n)
      {
        if z != cell {
          assert Zeroed(s1.field, r.field, z);
        }
        assert Settled(s1.field, r.field, n);
        SettledWiden(s.field, s1.field, r.field, r.field, n);
      }
    } else {
      assert Settled(s.field, s1.field, cell);
    }
  }

  /**
   Flood-fill completeness: every neighbour of `j`, and every neighbour of every cell
   the fill emptied, ends up opened (or, if it was marked, unmarked).
   */
  lemma {:induction false} FillClosed(d: Dims, s: Sweep, j: nat, tracking: bool, player: nat)
    requires Shaped(d, s) && j < d.Cells()
    ensures Closed(d, s.field, Fill(d, s, j, tracking, player).field, Neighbours(d, j))
    decreases Sum(s.field), 1, 0
  {
    NeighboursInGrid(d, j);
    VisitClosed(d, s, Neighbours(d, j), tracking, player);
  }

  lemma {:induction false} VisitClosed(d: Dims, s: Sweep, ns: seq<nat>, tracking: bool, player: nat)
    requires Shaped(d, s) && forall i :: 0 <= i < |ns| ==> ns[i] < d.Cells()
    ensures Closed(d, s.field, Visit(d, s, ns, tracking, player).field, ns)
    decreases Sum(s.field), 0, |ns|
  {
    if |ns| > 0 {
      var cell := ns[0];
      var rest := ns[1..];
      assert ns == [cell] + rest;
      if s.field[cell] > MineCell {
        var s2 := Step(d, s, cell, tracking, player);
        StepClosed(d, s, cell, tracking, player);
        VisitClosed(d, s2, rest, tracking, player);
        ClosedTrans(d, s.field, s2.field, Visit(d, s2, rest, tracking, player).field, [cell], rest);
      } else {
        VisitClosed(d, s, rest, tracking, player);
        assert Closed(d, s.field, s.field, [cell]);
        ClosedTrans(d, s.field, s.field, Visit(d, s, rest, tracking, player).field, [cell], rest);
      }
    }
  }

  /**
   The field the fill produces depends only on the field it starts from: ownership
   tracking, the owner map and the points never steer it.
   */
  lemma {:induction false} FillFieldOnly(d: Dims, s: Sweep, t: Sweep, j: nat,
                                         tracking: bool, player: nat, tracking': bool, player': nat)
    requires Shaped(d, s) && j < d.Cells() && t.field == s.field
    ensures Fill(d, s, j, tracking, player).field == Fill(d, t, j, tracking', player').field
    decreases Sum(s.field), 1, 0
  {
    NeighboursInGrid(d, j);
    VisitFieldOnly(d, s, t, Neighbours(d, j), tracking, player, tracking', player');
  }

  lemma {:induction false} StepFieldOnly(d: Dims, s: Sweep, t: Sweep, cell: nat,
                                         tracking: bool, player: nat, tracking': bool, player': nat)
    requires Shaped(d, s) && cell < d.Cells() && s.field[cell] > MineCell && t.field == s.field
    ensures Step(d, s, cell, tracking, player).field == Step(d, t, cell, tracking', player').field
    decreases Sum(s.field), 0, 0
  {
    var s1 := Touch(s, cell, tracking, player);
    var t1 := Touch(t, cell, tracking', player');
    TouchLowers(d, s, cell, tracking, player);
    if s1.field[cell] == EmptyCell {
      FillFieldOnly(d, s1, t1, cell, tracking, player, tracking', player');
    }
  }

  lemma {:induction false} VisitFieldOnly(d: Dims, s: Sweep, t: Sweep, ns: seq<nat>,
                                          tracking: bool, player: nat, tracking': bool, player': nat)
    requires Shaped(d, s) && (forall i :: 0 <= i < |ns| ==> ns[i] < d.Cells()) && t.field == s.field
    ensures Visit(d, s, ns, tracking, player).field == Visit(d, t, ns, tracking', player').field
    decreases Sum(s.field), 0, |ns|
  {
    if |ns| > 0 {
      var cell := ns[0];
      if s.field[cell] > MineCell {
        StepFieldOnly(d, s, t, cell, tracking, player, tracking', player');
        var s2 := Step(d, s, cell, tracking, player);
        var t2 := Step(d, t, cell, tracking', player');
        VisitFieldOnly(d, s2, t2, ns[1..], tracking, player, tracking', player');
      } else {
        VisitFieldOnly(d, s, t, ns[1..], tracking, player, tracking', player');
      }
    }
  }
}
