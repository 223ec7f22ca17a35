/**
 The solo board of `Board.java`: a field of cell codes, the `inGame` flag and the
 flag budget `mines_left`, driven by clicks on a cell index. A left click reveals,
 a right click toggles a mark; a click on a finished game first starts a new one
 and is then applied to it.
 */
module Solo {
  import opened Options
  import opened Cells
  import opened Grid
  import opened Layout
  import opened Generation
  import opened FloodFill
  import opened Paint

  /** The board's size and mine count (16 x 16 with 40 mines in both classes). */
  datatype Config = Config(dims: Dims, mines: nat) {
    predicate Valid() {
      dims.Valid()
    }
  }

  datatype Board = Board(field: seq<int>, inGame: bool, minesLeft: int)

  /** A click already translated to a cell index: left button reveals, right button marks. */
  datatype Command = Reveal(pos: nat) | ToggleMark(pos: nat)

  /** The marked cells (codes 20..29). */
  function MarkedCells(f: seq<int>): set<int> {
    set c | 0 <= c < |f| && f[c] > CoveredMineCell
  }

  /**
   What every board the class builds satisfies: the right size, codes in range, exact
   counts, `mines` mines, a flag budget that is never negative and never exceeds the
   unused flags, and no revealed mine while the game runs.
   */
  predicate Valid(cfg: Config, b: Board) {
    && cfg.Valid()
    && |b.field| == cfg.dims.Cells()
    && AllInRange(b.field)
    && CountsExact(cfg.dims, b.field)
    && |MineSet(b.field)| == cfg.mines
    && 0 <= b.minesLeft
    && b.minesLeft + |MarkedCells(b.field)| <= cfg.mines
    && (b.inGame ==> MineCell !in b.field)
  }

  /** `newGame`: a generated field, the game running and the whole flag budget available. */
  function NewGame(cfg: Config, draws: seq<nat>): (r: Option<Board>)
    requires cfg.Valid()
    ensures r.Some? ==> Valid(cfg, r.value) && r.value.inGame && r.value.minesLeft == cfg.mines
    ensures r.Some? ==> Generated(cfg.dims, r.value.field)
  {
    match NewField(cfg.dims, cfg.mines, draws)
    case None => None
    case Some(f) =>
      GeneratedMeaning(cfg.dims, f);
      assert MarkedCells(f) == {};
      assert MineCell !in f by {
        forall c | 0 <= c < |f| ensures f[c] != MineCell {
          GeneratedAt(cfg.dims, f, c);
        }
      }
      Some(Board(f, true, cfg.mines))
  }

  /** The right click on cell `pos`. */
  function ToggleMarkAt(b: Board, pos: nat): (r: Board)
    requires pos < |b.field|
    ensures |r.field| == |b.field| && r.inGame == b.inGame
    ensures forall c :: 0 <= c < |b.field| && c != pos ==> r.field[c] == b.field[c]
    ensures b.field[pos] <= MineCell ==> r == b
    ensures MineCell < b.field[pos] <= CoveredMineCell && b.minesLeft > 0 ==>
      r.field[pos] == b.field[pos] + MarkForCell && r.minesLeft == b.minesLeft - 1
    ensures MineCell < b.field[pos] <= CoveredMineCell && b.minesLeft <= 0 ==> r == b
    ensures b.field[pos] > CoveredMineCell ==>
      r.field[pos] == b.field[pos] - MarkForCell && r.minesLeft == b.minesLeft + 1
  {
    var v := b.field[pos];
    if v > MineCell then
      if v <= CoveredMineCell then
        if b.minesLeft > 0 then b.(field := b.field[pos := v + MarkForCell], minesLeft := b.minesLeft - 1)
        else b
      else b.(field := b.field[pos := v - MarkForCell], minesLeft := b.minesLeft + 1)
    else b
  }

  /** In terms of cells: a mark goes on a covered cell while flags remain, comes off a marked one, and nothing else changes. */
  lemma ToggleMarkMeaning(b: Board, pos: nat)
    requires pos < |b.field| && InRange(b.field[pos])
    ensures var r := ToggleMarkAt(b, pos);
      var cell := Decode(b.field[pos]);
      && InRange(r.field[pos])
      && Decode(r.field[pos]).content == cell.content
      && Decode(r.field[pos]).layer ==
           match cell.layer
           case Open => Open
           case Covered => if b.minesLeft > 0 then Marked else Covered
           case Marked => Covered
  {
  }

  /** Toggling twice where the first toggle changed something gives the board back. */
  lemma ToggleMarkTwice(b: Board, pos: nat)
    requires pos < |b.field| && InRange(b.field[pos]) && b.minesLeft >= 0
    requires ToggleMarkAt(b, pos) != b
    ensures ToggleMarkAt(ToggleMarkAt(b, pos), pos) == b
  {
    var r := ToggleMarkAt(b, pos);
    assert r.field[pos := b.field[pos]] == b.field;
  }

  /** Every toggle keeps `mines_left + #marked` and a non-negative budget. */
  lemma ToggleMarkBudget(b: Board, pos: nat)
    requires pos < |b.field| && AllInRange(b.field) && b.minesLeft >= 0
    ensures var r := ToggleMarkAt(b, pos);
      && AllInRange(r.field)
      && r.minesLeft >= 0
      && r.minesLeft + |MarkedCells(r.field)| == b.minesLeft + |MarkedCells(b.field)|
      && forall c :: 0 <= c < |b.field| ==> Digit(r.field[c]) == Digit(b.field[c])
  {
    var v := b.field[pos];
    ToggleMarkDigits(b, pos);
    if MineCell < v <= CoveredMineCell && b.minesLeft > 0 {
      MarkedAfterUpdate(b.field, pos, v + MarkForCell);
    } else if v > CoveredMineCell {
      MarkedAfterUpdate(b.field, pos, v - MarkForCell);
    }
  }

  /** Rewriting one cell changes the marked set at that cell only. */
  lemma MarkedAfterUpdate(f: seq<int>, pos: nat, v: int)
    requires pos < |f|
    ensures |MarkedCells(f[pos := v])| ==
      |MarkedCells(f)| - (if f[pos] > CoveredMineCell then 1 else 0) + (if v > CoveredMineCell then 1 else 0)
  {
    var g := f[pos := v];
    var rest := MarkedCells(f) - {pos};
    assert MarkedCells(g) == rest + (if v > CoveredMineCell then {pos} else {});
    assert MarkedCells(f) == rest + (if f[pos] > CoveredMineCell then {pos} else {});
  }

  /** A toggle moves one cell between the covered and the marked layer and keeps its digit. */
  lemma ToggleMarkDigits(b: Board, pos: nat)
    requires pos < |b.field| && AllInRange(b.field)
    ensures var r := ToggleMarkAt(b, pos);
      && AllInRange(r.field)
      && forall c :: 0 <= c < |b.field| ==> Digit(r.field[c]) == Digit(b.field[c])
  {
    var r := ToggleMarkAt(b, pos);
    var v := b.field[pos];
    assert Digit(r.field[pos]) == Digit(v) && InRange(r.field[pos]) by {
      if MineCell < v <= CoveredMineCell {
        assert r.field[pos] == v || r.field[pos] == v + MarkForCell;
      } else if v > CoveredMineCell {
        assert r.field[pos] == v - MarkForCell;
      }
    }
  }

  lemma ToggleMarkValid(cfg: Config, b: Board, pos: nat)
    requires Valid(cfg, b) && pos < |b.field|
    ensures Valid(cfg, ToggleMarkAt(b, pos))
  {
    var r := ToggleMarkAt(b, pos);
    ToggleMarkBudget(b, pos);
    SameDigits(cfg.dims, b.field, r.field);
    if r.inGame {
      assert forall c :: 0 <= c < |r.field| ==> r.field[c] != MineCell;
    }
  }

  /** A cell of `f` at most 9 survives any lowering to an in-range field unchanged. */
  lemma LoweredKeepsOpen(f: seq<int>, g: seq<int>, c: int)
    requires Lowered(f, g) && AllInRange(g) && 0 <= c < |f| && f[c] <= MineCell
    ensures g[c] == f[c]
  {
  }

  /** The flood fill as the solo board runs it: no owners, no points. */
  function SoloFill(d: Dims, f: seq<int>, pos: nat): (g: seq<int>)
    requires d.Valid() && |f| == d.Cells() && AllInRange(f) && pos < |f|
    ensures |g| == |f| && AllInRange(g) && Lowered(f, g)
  {
    Fill(d, Sweep(f, map[], 0), pos, false, 0).field
  }

  /** The left click on cell `pos`. */
  function RevealAt(d: Dims, b: Board, pos: nat): (r: Board)
    requires d.Valid() && |b.field| == d.Cells() && AllInRange(b.field) && pos < |b.field|
    ensures |r.field| == |b.field| && AllInRange(r.field) && Lowered(b.field, r.field)
    ensures r.minesLeft == b.minesLeft
    ensures b.field[pos] <= MineCell || b.field[pos] > CoveredMineCell ==> r == b
    ensures MineCell < b.field[pos] <= CoveredMineCell ==>
      && r.field[pos] == b.field[pos] - CoverForCell
      && r.inGame == (b.inGame && r.field[pos] != MineCell)
    ensures MineCell < b.field[pos] <= CoveredMineCell && b.field[pos] - CoverForCell != EmptyCell ==>
      forall c :: 0 <= c < |b.field| && c != pos ==> r.field[c] == b.field[c]
  {
    var v := b.field[pos];
    if v > CoveredMineCell then b
    else if v > MineCell && v < MarkedMineCell then
      var f := b.field[pos := v - CoverForCell];
      var inGame := if f[pos] == MineCell then false else b.inGame;
      var g := if f[pos] == EmptyCell then SoloFill(d, f, pos) else f;
      assert Lowered(b.field, f);
      assert g[pos] == f[pos] by {
        if f[pos] == EmptyCell {
          LoweredKeepsOpen(f, g, pos);
        }
      }
      Board(g, inGame, b.minesLeft)
    else b
  }

  /**
   A reveal that opens a 0 cell floods exactly as the fill does: every changed cell
   other than `pos` is a neighbour of `pos` or of a cell the fill emptied, all
   neighbours of `pos` and of every emptied cell end up settled, and on a board with
   exact counts no mine is revealed.
   */
  lemma RevealFloods(cfg: Config, b: Board, pos: nat)
    requires Valid(cfg, b) && pos < |b.field|
    requires b.field[pos] == CoverForCell
    ensures var r := RevealAt(cfg.dims, b, pos);
      var f := b.field[pos := EmptyCell];
      && r.field[pos] == EmptyCell
      && Local(cfg.dims, f, r.field, Neighbours(cfg.dims, pos))
      && Closed(cfg.dims, f, r.field, Neighbours(cfg.dims, pos))
      && (forall c :: 0 <= c < |b.field| && HoldsMine(b.field[c]) ==> r.field[c] == b.field[c])
      && (MineCell !in r.field || MineCell in b.field)
  {
    var d := cfg.dims;
    var f := b.field[pos := EmptyCell];
    var s := Sweep(f, map[], 0);
    RevealIsFill(d, b, pos);
    FillLocal(d, s, pos, false, 0);
    FillClosed(d, s, pos, false, 0);
    SameDigits(d, b.field, f);
    ExactCountsGuardZeros(d, f);
    FillSparesMines(d, s, pos, false, 0);
    NoNewMine(b.field, f, Fill(d, s, pos, false, 0).field, pos);
  }

  /** Revealing a covered 0 opens it and runs the fill from it. */
  lemma RevealIsFill(d: Dims, b: Board, pos: nat)
    requires d.Valid() && |b.field| == d.Cells() && AllInRange(b.field) && pos < |b.field|
    requires b.field[pos] == CoverForCell
    ensures var f := b.field[pos := EmptyCell];
      Shaped(d, Sweep(f, map[], 0)) && RevealAt(d, b, pos).field == Fill(d, Sweep(f, map[], 0), pos, false, 0).field
  {
  }

  /** A revealed mine after the fill was already one before the reveal, which opened a 0. */
  lemma NoNewMine(before: seq<int>, f: seq<int>, g: seq<int>, pos: nat)
    requires pos < |before| && f == before[pos := EmptyCell] && |g| == |f|
    requires forall c :: 0 <= c < |f| && g[c] == MineCell ==> f[c] == MineCell
    ensures MineCell !in g || MineCell in before
  {
    if MineCell in g {
      var c :| 0 <= c < |g| && g[c] == MineCell;
      assert f[c] == MineCell && c != pos;
      assert before[c] == MineCell;
    }
  }

  /** On a valid board a reveal changes no mine other than the clicked cell. */
  lemma RevealSparesMines(cfg: Config, b: Board, pos: nat)
    requires Valid(cfg, b) && pos < |b.field|
    ensures var r := RevealAt(cfg.dims, b, pos);
      forall c :: 0 <= c < |b.field| && c != pos && HoldsMine(b.field[c]) ==> r.field[c] == b.field[c]
  {
    if b.field[pos] == CoverForCell {
      RevealFloods(cfg, b, pos);
    }
  }

  lemma RevealValid(cfg: Config, b: Board, pos: nat)
    requires Valid(cfg, b) && pos < |b.field|
    ensures Valid(cfg, RevealAt(cfg.dims, b, pos))
  {
    var d := cfg.dims;
    var r := RevealAt(d, b, pos);
    SameDigits(d, b.field, r.field);
    assert MarkedCells(r.field) <= MarkedCells(b.field);
    SubsetCard(MarkedCells(r.field), MarkedCells(b.field));
    var v := b.field[pos];
    if r.inGame && MineCell < v <= CoveredMineCell {
      if v == CoverForCell {
        RevealFloods(cfg, b, pos);
      } else {
        assert forall c :: 0 <= c < |r.field| ==> r.field[c] != MineCell;
      }
    }
  }

  /** One click on a board: out-of-grid positions are ignored. */
  function Apply(cfg: Config, b: Board, cmd: Command): (r: Board)
    requires cfg.Valid() && |b.field| == cfg.dims.Cells() && AllInRange(b.field)
    ensures |r.field| == |b.field|
    ensures cmd.pos >= |b.field| ==> r == b
  {
    if cmd.pos >= |b.field| then b
    else match cmd
      case Reveal(p) => RevealAt(cfg.dims, b, p)
      case ToggleMark(p) => ToggleMarkAt(b, p)
  }

  /**
   `mousePressed`: a click on a finished game starts a new one with `draws` and is then
   applied to the new board. `None` when the draws run out before the mines are placed.
   */
  function Press(cfg: Config, b: Board, cmd: Command, draws: seq<nat>): (r: Option<Board>)
    requires Valid(cfg, b)
    ensures b.inGame ==> r == Some(Apply(cfg, b, cmd))
    ensures !b.inGame ==> (r.Some? <==> NewGame(cfg, draws).Some?)
    ensures !b.inGame && r.Some? ==> r.value == Apply(cfg, NewGame(cfg, draws).value, cmd)
    ensures r.Some? ==> Valid(cfg, r.value)
  {
    var start := if b.inGame then Some(b) else NewGame(cfg, draws);
    match start
    case None => None
    case Some(s) =>
      ApplyValid(cfg, s, cmd);
      Some(Apply(cfg, s, cmd))
  }

  lemma ApplyValid(cfg: Config, b: Board, cmd: Command)
    requires Valid(cfg, b)
    ensures Valid(cfg, Apply(cfg, b, cmd))
  {
    if cmd.pos < |b.field| {
      match cmd
      case Reveal(p) => RevealValid(cfg, b, p);
      case ToggleMark(p) => ToggleMarkValid(cfg, b, p);
    }
  }

  /**
   The state change a repaint makes: `inGame` drops when a mine is revealed or the game
   is won, and nothing else changes.
   */
  function Repaint(cfg: Config, b: Board): (r: Board)
    ensures r.field == b.field && r.minesLeft == b.minesLeft
    ensures r.inGame <==> b.inGame && MineCell !in b.field && |CoveredCells(b.field)| != cfg.mines
  {
    b.(inGame := Outcome(b.field, b.inGame, cfg.mines) == Playing)
  }

  /**
   The repaint that declares a game won also stops it, so the next repaint of the
   same board reports it lost.
   */
  lemma RepaintAfterWin(cfg: Config, b: Board)
    requires Outcome(b.field, b.inGame, cfg.mines) == Won
    ensures var r := Repaint(cfg, b);
      !r.inGame && r.field == b.field && Outcome(r.field, r.inGame, cfg.mines) == Lost
  {
  }

  lemma RepaintValid(cfg: Config, b: Board)
    requires Valid(cfg, b)
    ensures Valid(cfg, Repaint(cfg, b))
  {
  }

  /**
   On a valid running board with no marks, a repaint declares the game won exactly
   when every safe cell is open.
   */
  lemma WonIffCleared(cfg: Config, b: Board)
    requires Valid(cfg, b) && b.inGame && MarkedCells(b.field) == {}
    ensures Outcome(b.field, b.inGame, cfg.mines) == Won <==>
      forall c :: 0 <= c < |b.field| && !HoldsMine(b.field[c]) ==> Decode(b.field[c]).layer == Open
  {
    forall c | 0 <= c < |b.field|
      ensures b.field[c] <= CoveredMineCell
    {
      assert c !in MarkedCells(b.field);
    }
    WinMeansCleared(b.field, cfg.mines);
  }
}
