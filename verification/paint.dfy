/**
 The pure part of `paintComponent`: which of the 13 images each cell is drawn
 with, and how the game ends. Cells are painted in index order; the running
 in-game flag drops at the first revealed mine, so every cell from there on is
 drawn with the game-over mapping. Only covered cells painted while the game
 still runs are counted towards the win.
 */
module Paint {
  import opened Cells
  import opened Layout

  const NumImages: int := 13
  const DrawMine: int := 9
  const DrawCover: int := 10
  const DrawMark: int := 11
  const DrawWrongMark: int := 12

  /** What a repaint concludes; `Playing` is the only outcome that keeps `inGame` true. */
  datatype Status = Playing | Won | Lost

  /** The image of a code while the game runs: a mark or a cover hides what is under it. */
  function InGameImage(v: int): (r: int)
    ensures InRange(v) ==> 0 <= r < NumImages && r != DrawWrongMark
    ensures r == DrawMine <==> v == MineCell
  {
    if v > CoveredMineCell then DrawMark
    else if v > MineCell then DrawCover
    else v
  }

  /** The image of a code once the game is over: mines and wrong marks are shown. */
  function OverImage(v: int): (r: int)
    ensures InRange(v) ==> 0 <= r < NumImages
    ensures r == DrawMine <==> v == MineCell || v == CoveredMineCell
  {
    if v == CoveredMineCell then DrawMine
    else if v == MarkedMineCell then DrawMark
    else if v > CoveredMineCell then DrawWrongMark
    else if v > MineCell then DrawCover
    else v
  }

  function CellImage(v: int, running: bool): int {
    if running then InGameImage(v) else OverImage(v)
  }

  /** Whether the in-game flag is still up when cell `c` is painted (the flag drops before `c` is drawn). */
  predicate Running(f: seq<int>, inGame: bool, c: nat)
    requires c < |f|
  {
    inGame && MineCell !in f[..c + 1]
  }

  /** The cells among the first `k` that are covered and unmarked (codes 10..19). */
  function CoveredBelow(f: seq<int>, k: nat): set<int> {
    set c | 0 <= c < k && c < |f| && MineCell < f[c] <= CoveredMineCell
  }

  function CoveredCells(f: seq<int>): set<int> {
    CoveredBelow(f, |f|)
  }

  /**
   The outcome a repaint reaches: won when the game was running, no mine is revealed
   and exactly `mines` cells are covered and unmarked; otherwise lost when the game
   had already stopped or a mine is revealed.
   */
  function Outcome(f: seq<int>, inGame: bool, mines: int): (r: Status)
    ensures r == Playing <==> inGame && MineCell !in f && |CoveredCells(f)| != mines
    ensures !inGame ==> r == Lost
  {
    if inGame && MineCell !in f && |CoveredCells(f)| == mines then Won
    else if !inGame || MineCell in f then Lost
    else Playing
  }

  /**
   `paintComponent` over the flat field in painting order (row by row, which is
   index order). It returns the image index of every cell and the outcome; the
   board's `inGame` afterwards is `status == Playing`.
   */
  method Paint(field: seq<int>, inGame: bool, mines: int) returns (images: seq<int>, status: Status)
    ensures |images| == |field|
    ensures forall c :: 0 <= c < |field| ==> images[c] == CellImage(field[c], Running(field, inGame, c))
    ensures AllInRange(field) ==> forall c :: 0 <= c < |field| ==> 0 <= images[c] < NumImages
    ensures status == Won <==> inGame && MineCell !in field && |CoveredCells(field)| == mines
    ensures status == Lost <==> status != Won && (!inGame || MineCell in field)
    ensures inGame ==> (status == Lost <==> MineCell in field)
  {
    var running := inGame;
    var uncover := 0;
    images := [];
    var i := 0;
    while i < |field|
      invariant 0 <= i <= |field|
      invariant |images| == i
      invariant running == (inGame && MineCell !in field[..i])
      invariant forall c :: 0 <= c < i ==> images[c] == CellImage(field[c], Running(field, inGame, c))
      invariant running ==> uncover == |CoveredBelow(field, i)|
    {
      var cell := field[i];
      PrefixStep(field, i);
      if running && cell == MineCell {
        running := false;
      }
      var image;
      if !running {
        image := OverImage(cell);
      } else {
        image := InGameImage(cell);
        CoveredBelowStep(field, i);
        if MineCell < cell <= CoveredMineCell {
          uncover := uncover + 1;
        }
      }
      images := images + [image];
      i := i + 1;
    }
    assert field[..i] == field;
    if uncover == mines && running {
      status := Won;
    } else if !running {
      status := Lost;
    } else {
      status := Playing;
    }
    if AllInRange(field) {
      forall c | 0 <= c < |field|
        ensures 0 <= images[c] < NumImages
      {
        ImageInRange(field[c], Running(field, inGame, c));
      }
    }
  }

  /** The running flag after cell `i` is the flag before it, lowered by a mine at `i`. */
  lemma PrefixStep(f: seq<int>, i: nat)
    requires i < |f|
    ensures (MineCell !in f[..i + 1]) == (MineCell !in f[..i] && f[i] != MineCell)
  {
    assert f[..i + 1] == f[..i] + [f[i]];
  }

  /** Painting cell `i` while running counts it exactly when it is covered and unmarked. */
  lemma CoveredBelowStep(f: seq<int>, i: nat)
    requires i < |f|
    ensures |CoveredBelow(f, i + 1)| == |CoveredBelow(f, i)| + if MineCell < f[i] <= CoveredMineCell then 1 else 0
  {
    if MineCell < f[i] <= CoveredMineCell {
      assert CoveredBelow(f, i + 1) == CoveredBelow(f, i) + {i};
    } else {
      assert CoveredBelow(f, i + 1) == CoveredBelow(f, i);
    }
  }

  /** Every code in 0..29 has an image in both mappings. */
  lemma ImageInRange(v: int, running: bool)
    requires InRange(v)
    ensures 0 <= CellImage(v, running) < NumImages
  {
  }

  /**
   While the game runs a player sees the layer and nothing under a cover or a
   mark; an open cell shows its digit.
   */
  lemma InGameImageShows(v: int)
    requires InRange(v)
    ensures InGameImage(v) == DrawMark <==> Decode(v).layer == Marked
    ensures InGameImage(v) == DrawCover <==> Decode(v).layer == Covered
    ensures Decode(v).layer == Open ==> InGameImage(v) == Digit(v)
  {
  }

  /**
   Once the game is over every mine that is not marked is shown, a correct mark
   stays a mark, a mark on a safe cell is shown as wrong, and covered safe cells stay covered.
   */
  lemma OverImageShows(v: int)
    requires InRange(v)
    ensures OverImage(v) == DrawMine <==> Decode(v).content == Mine && Decode(v).layer != Marked
    ensures OverImage(v) == DrawMark <==> Decode(v) == Cell(Marked, Mine)
    ensures OverImage(v) == DrawWrongMark <==> Decode(v).layer == Marked && Decode(v).content != Mine
    ensures OverImage(v) == DrawCover <==> Decode(v).layer == Covered && Decode(v).content != Mine
    ensures Decode(v).layer == Open && Decode(v).content != Mine ==> OverImage(v) == Digit(v)
  {
  }

  /**
   With no marks on the board, the win count means what it should: exactly `mines`
   covered cells among which are all `mines` mines, so every safe cell is open.
   */
  lemma WinMeansCleared(f: seq<int>, mines: int)
    requires AllInRange(f) && MineCell !in f
    requires forall c :: 0 <= c < |f| ==> f[c] <= CoveredMineCell
    requires |MineSet(f)| == mines
    ensures Outcome(f, true, mines) == Won <==> forall c :: 0 <= c < |f| && !HoldsMine(f[c]) ==> f[c] <= MineCell
  {
    var ms := MineSet(f);
    var cov := CoveredCells(f);
    assert ms <= cov by {
      forall c | c in ms ensures c in cov {
        assert f[c] != MineCell;
      }
    }
    if forall c :: 0 <= c < |f| && !HoldsMine(f[c]) ==> f[c] <= MineCell {
      assert cov == ms;
    } else {
      var c :| 0 <= c < |f| && !HoldsMine(f[c]) && f[c] > MineCell;
      assert c in cov && c !in ms;
      SubsetCard(ms, cov - {c});
    }
  }

  /**
   A mark on a mine keeps a board whose safe cells are all open from counting as
   won: the marked mine is missing from the covered count, which then falls short
   of the mine count.
   */
  lemma MarkBlocksWin(f: seq<int>, mines: int, m: int)
    requires AllInRange(f) && |MineSet(f)| == mines
    requires 0 <= m < |f| && f[m] == MarkedMineCell
    requires forall c :: 0 <= c < |f| && !HoldsMine(f[c]) ==> f[c] <= MineCell
    ensures Outcome(f, true, mines) != Won
  {
    var ms := MineSet(f);
    var cov := CoveredCells(f);
    assert cov <= ms - {m} by {
      forall c | c in cov ensures c in ms - {m} {
        assert HoldsMine(f[c]);
      }
    }
    assert m in ms;
    SubsetCard(cov, ms - {m});
  }
}
